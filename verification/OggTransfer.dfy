/** OggTransfer: one encoder, one synchroniser and one decoder at work together, on their own buffers. */
module OggTransfer {
  import opened Options
  import opened Bytes
  import Seqs
  import opened OggSegments
  import opened OggPage
  import opened OggDecoder
  import opened OggLoss
  import opened OggEncoder
  import opened OggRoundTrip
  import opened OggEndToEnd
  import opened OggStream
  import OggSyncState
  import OggSync

  /** The octets of a page, copied out of the buffers it points into. */
  method CopyPage(og: PageRef) returns (raw: seq<byte>)
    requires og.Bounded()
    ensures raw == og.View().Raw()
  {
    raw := og.header[og.headerAt..og.headerAt + og.headerLen] + og.body[og.bodyAt..og.bodyAt + og.bodyLen];
  }

  /** One call on the encoder; the pages put out are collected. */
  method CallOnce(s: Stream, call: Call, pages: seq<seq<byte>>, ghost fs: seq<Fields>)
    returns (more: seq<seq<byte>>, ghost gs: seq<Fields>)
    requires s.Encodes() && AllValid(fs) && pages == Raws(fs)
    modifies s, s.bodyData, s.lacingVals, s.granuleVals, s.header
    ensures s.Encodes() && s.SameOrNew()
    ensures var (next, page) := Perform(old(s.Encoder()), call);
            && s.Encoder() == next && AllValid(gs) && gs == (if page.Some? then fs + [page.value] else fs)
            && more == Raws(gs) && (page.None? ==> more == pages) && (page.Some? <==> |more| > |pages|)
  {
    hide Off, Vals, Ripe, Write;
    ghost var e := s.Encoder();
    CallKeepsValid(e, call);
    var og: Option<PageRef> := None;
    match call {
      case Submitting(p) =>
        OneVector(p.data);
        s.IovecIn([p.data], p.eos, p.granulepos);
      case PageOuting(nfill) =>
        og := s.PageOut(nfill);
      case Flushing(nfill) =>
        og := s.Flush(nfill);
    }
    more, gs := pages, fs;
    if og.Some? {
      var raw := CopyPage(og.value);
      more := pages + [raw];
      gs := fs + [Perform(e, call).1.value];
    }
  }

  lemma OneVector(data: seq<byte>)
    ensures Flatten([data]) == data
  {
    assert Flatten([data]) == data + Flatten([]);
  }

  /** The state of the encoder's side after some calls. */
  ghost predicate Encoded(s: Stream, serialno: int, done: seq<Call>, fs: seq<Fields>, pages: seq<seq<byte>>)
    reads s, s.bodyData, s.lacingVals, s.granuleVals
  {
    && s.Encodes() && AllValid(fs) && pages == Raws(fs)
    && (s.Encoder(), fs) == Encode(serialno, done)
  }

  lemma OneMoreCall(serialno: int, done: seq<Call>, call: Call)
    ensures var (e, fs) := Encode(serialno, done);
            var (next, page) := Perform(e, call);
            Encode(serialno, done + [call]) == (next, if page.Some? then fs + [page.value] else fs)
    ensures Packets(done + [call]) == Packets(done) + if call.Submitting? then [call.packet] else []
  {
    hide Perform;
    assert (done + [call])[..|done|] == done;
  }

  method CallNext(s: Stream, serialno: int, call: Call, pages: seq<seq<byte>>, ghost done: seq<Call>, ghost fs: seq<Fields>)
    returns (more: seq<seq<byte>>, ghost gs: seq<Fields>)
    requires Encoded(s, serialno, done, fs, pages)
    modifies s, s.bodyData, s.lacingVals, s.granuleVals, s.header
    ensures Encoded(s, serialno, done + [call], gs, more) && s.SameOrNew()
    ensures Perform(old(s.Encoder()), call).1.None? ==> more == pages
    ensures Perform(old(s.Encoder()), call).1.Some? <==> |more| > |pages|
  {
    hide Raws, Perform, Encode;
    OneMoreCall(serialno, done, call);
    more, gs := CallOnce(s, call, pages, fs);
  }

  /** The calls made are the calls asked for, and then as many flushes as it takes. */
  ghost predicate FlushedAfter(calls: seq<Call>, done: seq<Call>) {
    |calls| <= |done| && done[..|calls|] == calls && forall k :: |calls| <= k < |done| ==> done[k] == Flushing(4096)
  }

  /** Any calls on a new encoder, and then flushing until nothing is left; the calls made are listed. */
  method EncodeAll(serialno: int, calls: seq<Call>) returns (pages: seq<seq<byte>>, done: seq<Call>)
    ensures |calls| <= |done| && done[..|calls|] == calls && forall k :: |calls| <= k < |done| ==> done[k] == Flushing(4096)
    ensures Packets(done) == Packets(calls) && Flush(Encode(serialno, done).0, 4096).1.None?
    ensures pages == Raws(Encode(serialno, done).1)
  {
    hide Encode, Flush, Packets, Raws;
    var s := new Stream(serialno);
    ghost var fs := [];
    pages := [];
    done := [];
    NoCalls(serialno);
    var i := 0;
    while i < |calls|
      invariant 0 <= i <= |calls| && done == calls[..i] && Encoded(s, serialno, done, fs, pages)
      invariant fresh(s) && fresh(s.bodyData) && fresh(s.lacingVals) && fresh(s.granuleVals) && fresh(s.header)
    {
      pages, fs := CallNext(s, serialno, calls[i], pages, done, fs);
      done := done + [calls[i]];
      assert calls[..i + 1] == calls[..i] + [calls[i]];
      i := i + 1;
    }
    assert calls[..i] == calls;
    var flushed := true;
    while flushed
      invariant Encoded(s, serialno, done, fs, pages) && Packets(done) == Packets(calls) && FlushedAfter(calls, done)
      invariant !flushed ==> Flush(s.Encoder(), 4096).1.None?
      invariant fresh(s) && fresh(s.bodyData) && fresh(s.lacingVals) && fresh(s.granuleVals) && fresh(s.header)
      decreases if flushed then |s.Encoder().segs.lac| + 1 else 0
    {
      ghost var e := s.Encoder();
      FlushStep(serialno, done, e);
      var more;
      more, fs := CallNext(s, serialno, Flushing(4096), pages, done, fs);
      done := done + [Flushing(4096)];
      flushed := |more| > |pages|;
      pages := more;
    }
  }

  lemma NoCalls(serialno: int)
    ensures Encode(serialno, []) == (Fresh(serialno), []) && Raws([]) == []
  {
  }

  lemma FlushStep(serialno: int, done: seq<Call>, e: Encoder)
    requires e == Encode(serialno, done).0
    ensures Packets(done + [Flushing(4096)]) == Packets(done)
    ensures Perform(e, Flushing(4096)) == Flush(e, 4096) && Encode(serialno, done + [Flushing(4096)]).0 == Flush(e, 4096).0
    ensures Flush(e, 4096).1.Some? ==> |Flush(e, 4096).0.segs.lac| < |e.segs.lac|
    ensures Flush(e, 4096).1.None? ==> Flush(e, 4096).0 == e
  {
    hide Flush;
    OneMoreCall(serialno, done, Flushing(4096));
    FlushDrains(e, 4096);
  }

  // ----- Finding the pages -----

  ghost predicate Synced(y: OggSyncState.SyncState, steps: seq<OggSync.Step>, pages: seq<seq<byte>>)
    reads y, y.data
  {
    y.Valid() && y.Held() == OggSync.Run(steps).held && pages == OggSync.Run(steps).pages
  }

  lemma OneMoreStep(steps: seq<OggSync.Step>, step: OggSync.Step)
    ensures OggSync.Run(steps + [step]) == OggSync.Advance(OggSync.Run(steps), step)
    ensures OggSync.Fed(steps + [step]) == OggSync.Fed(steps) + if step.Feed? then step.chunk else []
  {
    hide OggSync.Advance;
    assert (steps + [step])[..|steps|] == steps;
  }

  method FeedNext(y: OggSyncState.SyncState, chunk: seq<byte>, ghost steps: seq<OggSync.Step>, pages: seq<seq<byte>>)
    requires Synced(y, steps, pages)
    modifies y`data, y`fill, y`returned, y.data
    ensures Synced(y, steps + [OggSync.Feed(chunk)], pages) && (y.data == old(y.data) || fresh(y.data))
  {
    OneMoreStep(steps, OggSync.Feed(chunk));
    y.Feed(chunk);
  }

  method SeekNext(y: OggSyncState.SyncState, ghost steps: seq<OggSync.Step>, pages: seq<seq<byte>>)
    returns (ret: int, more: seq<seq<byte>>)
    requires Synced(y, steps, pages)
    modifies y`returned, y`unsynced, y`headerBytes, y`bodyBytes, y.data
    ensures Synced(y, steps + [OggSync.SeekOnce], more)
    ensures ret == 0 ==> OggSync.SeekPage(y.Held()).More?
    ensures ret != 0 ==> |y.Held()| < |old(y.Held())|
  {
    hide OggSync.Run, OggSync.SeekPage;
    OneMoreStep(steps, OggSync.SeekOnce);
    OggSync.SeekBounds(y.Held());
    var og;
    ret, og := y.PageSeek();
    more := pages;
    if og.Some? {
      var raw := CopyPage(og.value);
      more := pages + [raw];
    }
  }

  /** The octets, cut up in some way, with a seek after each piece; then seeking until no page is ready. The steps taken
      are listed. */
  method SyncAll(octets: seq<byte>, cuts: seq<nat>) returns (pages: seq<seq<byte>>, steps: seq<OggSync.Step>)
    ensures OggSync.Fed(steps) == octets && OggSync.SeekPage(OggSync.Run(steps).held).More?
    ensures pages == OggSync.Run(steps).pages
  {
    hide OggSync.Run, OggSync.SeekPage, OggSync.Fed;
    var y := new OggSyncState.SyncState();
    pages := [];
    steps := [];
    NoSteps();
    var i, at := 0, 0;
    while i < |cuts|
      invariant 0 <= i <= |cuts| && 0 <= at <= |octets| && OggSync.Fed(steps) == octets[..at]
      invariant Synced(y, steps, pages) && fresh(y) && fresh(y.data)
    {
      var to := if at + cuts[i] <= |octets| then at + cuts[i] else |octets|;
      steps := FeedAndNote(y, octets, at, to, steps, pages);
      OneMoreStep(steps, OggSync.SeekOnce);
      var ret;
      ret, pages := SeekNext(y, steps, pages);
      steps := steps + [OggSync.SeekOnce];
      i, at := i + 1, to;
    }
    steps := FeedAndNote(y, octets, at, |octets|, steps, pages);
    assert octets[..|octets|] == octets;
    var ret := 1;
    while ret != 0
      invariant OggSync.Fed(steps) == octets && Synced(y, steps, pages) && fresh(y) && fresh(y.data)
      invariant ret == 0 ==> OggSync.SeekPage(y.Held()).More?
      decreases if ret != 0 then |y.Held()| + 1 else 0
    {
      OneMoreStep(steps, OggSync.SeekOnce);
      ret, pages := SeekNext(y, steps, pages);
      steps := steps + [OggSync.SeekOnce];
    }
  }

  lemma NoSteps()
    ensures OggSync.Run([]) == OggSync.Progress([], [], []) && OggSync.Fed([]) == []
  {
  }

  method FeedAndNote(y: OggSyncState.SyncState, octets: seq<byte>, at: nat, to: nat, steps: seq<OggSync.Step>,
                     pages: seq<seq<byte>>)
    returns (more: seq<OggSync.Step>)
    requires at <= to <= |octets| && OggSync.Fed(steps) == octets[..at] && Synced(y, steps, pages)
    modifies y`data, y`fill, y`returned, y.data
    ensures OggSync.Fed(more) == octets[..to] && Synced(y, more, pages) && (y.data == old(y.data) || fresh(y.data))
  {
    hide OggSync.Run, OggSync.Fed;
    OneMoreStep(steps, OggSync.Feed(octets[at..to]));
    FeedNext(y, octets[at..to], steps, pages);
    more := steps + [OggSync.Feed(octets[at..to])];
    Seqs.JoinSlices(octets, 0, at, to);
  }

  // ----- Decoding -----

  /** What the decoder's side has come to. */
  ghost predicate Decoding(s: Stream, start: Decoder, fs: seq<Fields>, run: seq<Action>, out: seq<Event>)
    reads s, s.bodyData, s.lacingVals, s.granuleVals
  {
    && s.Decodes() && start.Consistent() && AllValid(fs) && InRange(fs, run)
    && (s.Decoder(), out) == Decode(start, fs, run)
  }

  ghost function Act(e: Decoder, out: seq<Event>, fs: seq<Fields>, action: Action): (Decoder, seq<Event>)
    requires e.Consistent() && AllValid(fs) && (action.Submit? ==> action.page < |fs|)
  {
    match action
    case Submit(j) => (PageIn(e, fs[j]), out)
    case Take =>
      var (next, event) := PacketOut(e);
      (next, if event.Some? then out + [event.value] else out)
  }

  lemma OneMoreAction(start: Decoder, fs: seq<Fields>, run: seq<Action>, action: Action)
    requires start.Consistent() && AllValid(fs) && InRange(fs, run) && (action.Submit? ==> action.page < |fs|)
    ensures InRange(fs, run + [action])
    ensures Decode(start, fs, run + [action]) == Act(Decode(start, fs, run).0, Decode(start, fs, run).1, fs, action)
  {
    hide PageIn, PacketOut, Decoder.Consistent, AllValid;
    StaysInRange(fs, run, action);
    assert (run + [action])[..|run|] == run;
  }

  lemma StaysInRange(fs: seq<Fields>, run: seq<Action>, action: Action)
    requires InRange(fs, run) && (action.Submit? ==> action.page < |fs|)
    ensures InRange(fs, run + [action])
  {
  }

  lemma OneMoreSubmitted(run: seq<Action>, j: nat)
    ensures Submitted(run + [Submit(j)]) == Submitted(run) + [j]
    ensures Submitted(run + [Take]) == Submitted(run)
  {
    assert (run + [Submit(j)])[..|run|] == run;
    assert (run + [Take])[..|run|] == run;
  }

  /** Hand a page, copied to a buffer of its own, to the decoder. */
  method SubmitNext(s: Stream, raw: seq<byte>, j: nat, ghost start: Decoder, ghost fs: seq<Fields>, ghost run: seq<Action>,
                    ghost out: seq<Event>)
    requires Decoding(s, start, fs, run, out) && j < |fs| && OggSync.IsPage(raw) && Read(Parse(raw)) == fs[j]
    modifies s, s.bodyData, s.lacingVals, s.granuleVals
    ensures Decoding(s, start, fs, run + [Submit(j)], out) && s.SameOrNew()
  {
    hide OggSync.IsPage, Read, PageIn, Decode;
    OneMoreAction(start, fs, run, Submit(j));
    IsLongEnough(raw);
    var a := new byte[|raw|](i requires 0 <= i < |raw| => raw[i]);
    var h := 27 + raw[26] as int;
    var og := PageRef(a, 0, h, a, h, |raw| - h);
    assert a[..] == raw;
    assert og.View() == Parse(raw);
    var ret := s.PageIn(og);
  }

  lemma IsLongEnough(raw: seq<byte>)
    requires OggSync.IsPage(raw)
    ensures |raw| >= 27 && |raw| >= 27 + raw[26] as int == OggSync.HeaderLength(raw)
  {
  }

  method TakeNext(s: Stream, out: seq<Event>, ghost start: Decoder, ghost fs: seq<Fields>, ghost run: seq<Action>)
    returns (more: seq<Event>)
    requires Decoding(s, start, fs, run, out)
    modifies s`bodyReturned, s`lacingReturned, s`packetno
    ensures Decoding(s, start, fs, run + [Take], more)
    ensures more == out ==> old(s.Decoder().Pending()) == [] && s.Decoder() == old(s.Decoder())
    ensures more != out ==> |old(s.Decoder().Pending())| == |s.Decoder().Pending()| + 1
  {
    hide PacketOut, Decode, Decoder.Pending, Decoder.Consistent;
    OneMoreAction(start, fs, run, Take);
    PacketOutPops(s.Decoder());
    var ret, op, number := s.TakePacket(true);
    more := if ret == 1 then out + [op.value] else if ret == -1 then out + [Hole] else out;
  }

  /** Some pages to a fresh or reset decoder, with some reads after each, and then reading until nothing is left. What was
      done is listed. */
  method DecodeAll(serialno: int, fromZero: bool, pages: seq<seq<byte>>, arrived: seq<nat>, takes: seq<nat>,
                   ghost fs: seq<Fields>)
    returns (out: seq<Event>, run: seq<Action>)
    requires AllValid(fs) && |pages| == |fs| && forall t :: 0 <= t < |arrived| ==> arrived[t] < |fs|
    requires forall j :: 0 <= j < |fs| ==> OggSync.IsPage(pages[j]) && Read(Parse(pages[j])) == fs[j]
    ensures InRange(fs, run) && Submitted(run) == arrived
    ensures var start := if fromZero then Initial(serialno) else Reset(Initial(serialno));
            start.Consistent() && Decode(start, fs, run).0.Pending() == [] && out == Decode(start, fs, run).1
  {
    hide OggSync.IsPage, Read, Parse, Decode, Submitted, InRange, AllValid, Decoder.Pending, Decoder.Consistent, Decoding;
    var s := StartDecoder(serialno, fromZero, fs);
    ghost var start := if fromZero then Initial(serialno) else Reset(Initial(serialno));
    out, run := [], [];
    var t := 0;
    while t < |arrived|
      invariant 0 <= t <= |arrived| && Decoding(s, start, fs, run, out) && Submitted(run) == arrived[..t]
      invariant fresh(s) && fresh(s.bodyData) && fresh(s.lacingVals) && fresh(s.granuleVals)
    {
      var j := arrived[t];
      out, run := SubmitAndTake(s, pages[j], if t < |takes| then takes[t] else 0, j, out, start, fs, run);
      t := t + 1;
      assert arrived[..t] == arrived[..t - 1] + [j];
    }
    assert arrived[..t] == arrived;
    out, run := TakeRest(s, out, start, fs, run);
    DecodingMeans(s, start, fs, run, out);
  }

  lemma DecodingMeans(s: Stream, start: Decoder, fs: seq<Fields>, run: seq<Action>, out: seq<Event>)
    requires Decoding(s, start, fs, run, out)
    ensures start.Consistent() && AllValid(fs) && InRange(fs, run)
    ensures s.Decodes() && s.Decoder() == Decode(start, fs, run).0 && out == Decode(start, fs, run).1
  {
    hide Decode;
  }

  method StartDecoder(serialno: int, fromZero: bool, ghost fs: seq<Fields>) returns (s: Stream)
    requires AllValid(fs)
    ensures Decoding(s, if fromZero then Initial(serialno) else Reset(Initial(serialno)), fs, [], [])
    ensures Submitted([]) == []
    ensures fresh(s) && fresh(s.bodyData) && fresh(s.lacingVals) && fresh(s.granuleVals)
  {
    hide Decode, AllValid;
    s := new Stream(serialno);
    if !fromZero {
      s.Reset();
    }
    NoActions(if fromZero then Initial(serialno) else Reset(Initial(serialno)), fs);
  }

  /** A page, and some reads after it. */
  method SubmitAndTake(s: Stream, raw: seq<byte>, k: nat, j: nat, out: seq<Event>,
                       ghost start: Decoder, ghost fs: seq<Fields>, run: seq<Action>)
    returns (more: seq<Event>, after: seq<Action>)
    requires Decoding(s, start, fs, run, out) && j < |fs| && OggSync.IsPage(raw) && Read(Parse(raw)) == fs[j]
    modifies s, s.bodyData, s.lacingVals, s.granuleVals
    ensures Decoding(s, start, fs, after, more) && Submitted(after) == Submitted(run) + [j] && s.SameOrNew()
  {
    hide OggSync.IsPage, Read, Parse, Decode, Submitted, InRange, Decoding;
    OneMoreSubmitted(run, j);
    SubmitNext(s, raw, j, start, fs, run, out);
    more, after := TakeSome(s, k, out, start, fs, run + [Submit(j)]);
  }

  method TakeSome(s: Stream, k: nat, out: seq<Event>, ghost start: Decoder, ghost fs: seq<Fields>, run: seq<Action>)
    returns (more: seq<Event>, after: seq<Action>)
    requires Decoding(s, start, fs, run, out)
    modifies s`bodyReturned, s`lacingReturned, s`packetno
    ensures Decoding(s, start, fs, after, more) && Submitted(after) == Submitted(run)
  {
    hide Decode, Submitted, InRange;
    more, after := out, run;
    for i := 0 to k
      invariant Decoding(s, start, fs, after, more) && Submitted(after) == Submitted(run)
    {
      OneMoreSubmitted(after, 0);
      more := TakeNext(s, more, start, fs, after);
      after := after + [Take];
    }
  }

  method TakeRest(s: Stream, out: seq<Event>, ghost start: Decoder, ghost fs: seq<Fields>, run: seq<Action>)
    returns (more: seq<Event>, after: seq<Action>)
    requires Decoding(s, start, fs, run, out)
    modifies s`bodyReturned, s`lacingReturned, s`packetno
    ensures Decoding(s, start, fs, after, more) && Submitted(after) == Submitted(run) && s.Decoder().Pending() == []
  {
    hide Decode, Submitted, InRange, Decoder.Pending;
    more, after := out, run;
    var left := true;
    while left
      invariant Decoding(s, start, fs, after, more) && Submitted(after) == Submitted(run)
      invariant !left ==> s.Decoder().Pending() == []
      decreases if left then |s.Decoder().Pending()| + 1 else 0
    {
      OneMoreSubmitted(after, 0);
      var next := TakeNext(s, more, start, fs, after);
      after := after + [Take];
      left := next != more;
      more := next;
    }
  }

  lemma NoActions(start: Decoder, fs: seq<Fields>)
    requires start.Consistent() && AllValid(fs)
    ensures InRange(fs, []) && Decode(start, fs, []) == (start, []) && Submitted([]) == []
  {
  }

  method JoinAll(pages: seq<seq<byte>>) returns (octets: seq<byte>)
    ensures octets == OggSync.Join(pages)
  {
    octets := [];
    var i := |pages|;
    while i > 0
      invariant 0 <= i <= |pages| && octets == OggSync.Join(pages[i..])
    {
      i := i - 1;
      octets := pages[i] + octets;
      assert pages[i..][1..] == pages[i + 1..];
    }
    assert pages[i..] == pages;
  }

  /** The pages that are not dropped, in order. */
  method Arriving(n: nat, dropped: seq<nat>) returns (arrived: seq<nat>)
    ensures forall t :: 0 <= t < |arrived| ==> arrived[t] < n
    ensures forall t, u :: 0 <= t < u < |arrived| ==> arrived[t] < arrived[u]
    ensures forall j :: j in arrived <==> 0 <= j < n && j !in dropped
    ensures dropped == [] ==> arrived == AllPages(n)
  {
    arrived := [];
    for j := 0 to n
      invariant forall t :: 0 <= t < |arrived| ==> arrived[t] < j
      invariant forall t, u :: 0 <= t < u < |arrived| ==> arrived[t] < arrived[u]
      invariant forall i :: i in arrived <==> 0 <= i < j && i !in dropped
      invariant dropped == [] ==> arrived == AllPages(j)
    {
      if j !in dropped {
        arrived := arrived + [j];
      }
    }
  }

  /** Packets, paged by any calls, the octets of the pages cut up in any way, some of the pages then dropped, and the rest
      read at any moments. What arrives is exactly the packets that lie wholly on the pages left, with a marker for each
      gap; with none dropped, exactly the packets: the same octets in the same order, the first flagged as the beginning
      and the last as the end. */
  method Transfer(serialno: int, calls: seq<Call>, cuts: seq<nat>, dropped: seq<nat>, fromZero: bool, takes: seq<nat>)
    returns (out: seq<Event>, arrived: seq<nat>, done: seq<Call>)
    requires -0x8000_0000 <= serialno < 0x8000_0000
    requires EosOnlyLast(Packets(calls)) && PacketsFit(Packets(calls))
    ensures |calls| <= |done| && done[..|calls|] == calls && forall k :: |calls| <= k < |done| ==> done[k] == Flushing(4096)
    ensures Packets(done) == Packets(calls)
    ensures var fs := Encode(serialno, done).1;
            |fs| <= 0x8000_0000 ==>
              && (forall j :: j in arrived <==> 0 <= j < |fs| && j !in dropped)
              && Subset(fs, arrived) && out == Expected(fs, arrived, fromZero, |arrived|)
              && (dropped == [] ==> out == Decoded(fs, Packets(calls), |Packets(calls)|))
  {
    hide Encode, Decode, Decoded, Expected, EosOnlyLast, PacketsFit, Coherent, GranulesFit, PagesFit, Raws, Flush,
      OggSync.IsPage, Read, Parse, OggSync.Join, OggSync.Run, OggSync.SeekPage, Decoder.Pending, Submitted;
    var pages;
    pages, done := EncodeAll(serialno, calls);
    ghost var fs := Encode(serialno, done).1;
    out, arrived := [], [];
    if |pages| <= 0x8000_0000 {
      EncodedPagesAreCoherent(serialno, done);
      EncodedGranulesFit(serialno, done);
      CoherentPagesFit(fs, serialno);
      var octets := JoinAll(pages);
      var found, steps := SyncAll(octets, cuts);
      StreamIsSynced(fs, steps);
      arrived := Arriving(|found|, dropped);
      var run;
      out, run := DecodeAll(serialno, fromZero, found, arrived, takes, fs);
      LossSafety(fs, serialno, fromZero, run);
      if dropped == [] {
        PagesRoundTrip(serialno, done, 4096, fromZero, run);
      }
    }
  }
}
