/** Encoding any packets with any mixture of ogg_stream_pageout and ogg_stream_flush yields a coherent stream of pages
    whose segments spell out exactly those packets. */
module OggRoundTrip {
  import opened Options
  import Seqs
  import opened OggSegments
  import opened OggPage
  import opened OggDecoder
  import opened OggLoss
  import opened OggEncoder

  datatype Call = Submitting(packet: Input) | PageOuting(nfill: int) | Flushing(nfill: int)

  /** The encoder and the pages it has put out after a run of calls. */
  function Encode(serialno: int, calls: seq<Call>): (r: (Encoder, seq<Fields>))
    ensures r.0.segs.Valid() && AllValid(r.1)
  {
    if calls == [] then (Fresh(serialno), [])
    else
      var (e, fs) := Encode(serialno, calls[..|calls| - 1]);
      CallKeepsValid(e, calls[|calls| - 1]);
      var (next, page) := Perform(e, calls[|calls| - 1]);
      (next, if page.Some? then fs + [page.value] else fs)
  }

  function Perform(e: Encoder, call: Call): (Encoder, Option<Fields>)
    requires e.segs.Valid()
  {
    match call
    case Submitting(p) => (PacketIn(e, p), None)
    case PageOuting(nfill) => PageOut(e, nfill)
    case Flushing(nfill) => Flush(e, nfill)
  }

  function Packets(calls: seq<Call>): seq<Input> {
    if calls == [] then []
    else
      var last := calls[|calls| - 1];
      Packets(calls[..|calls| - 1]) + (if last.Submitting? then [last.packet] else [])
  }

  lemma CallKeepsValid(e: Encoder, call: Call)
    requires e.segs.Valid()
    ensures Perform(e, call).0.segs.Valid()
    ensures Perform(e, call).1.Some? ==> Perform(e, call).1.value.Valid()
  {
    hide Off, PacketSegs, Vals, LastGranule, PageFields;
    match call
    case Submitting(p) =>
      PacketSegsAreValid(p.data, e.granulepos, p.granulepos);
      AppendIsValid(e.segs, PacketSegs(p.data, e.granulepos, p.granulepos));
    case PageOuting(nfill) =>
      if e.segs.lac != [] {
        SliceIsValid(e.segs, Vals(e, nfill), |e.segs.lac|);
        PageFieldsAreValid(e, Vals(e, nfill));
      }
    case Flushing(nfill) =>
      if e.segs.lac != [] {
        SliceIsValid(e.segs, Vals(e, nfill), |e.segs.lac|);
        PageFieldsAreValid(e, Vals(e, nfill));
      }
  }

  // ----- The segments of the packets -----

  function LastGranulepos(ps: seq<Input>): int {
    if ps == [] then 0 else ps[|ps| - 1].granulepos
  }

  /** All packets, segmented one after another. */
  function Stream(ps: seq<Input>): (s: Segs)
    ensures s.Valid() && s.Closed()
  {
    if ps == [] then NONE
    else
      var init, p := ps[..|ps| - 1], ps[|ps| - 1];
      PacketSegsAreValid(p.data, LastGranulepos(init), p.granulepos);
      AppendIsValid(Stream(init), PacketSegs(p.data, LastGranulepos(init), p.granulepos));
      Append(Stream(init), PacketSegs(p.data, LastGranulepos(init), p.granulepos))
  }

  lemma {:induction false} StreamEntry(ps: seq<Input>, i: nat)
    requires i < |Stream(ps).lac|
    ensures var s := Stream(ps); (s.lac[i].first <==> ClosedAt(s, i)) && !s.lac[i].hole && !s.lac[i].last
  {
    hide Off, PacketSegs;
    var init, p := ps[..|ps| - 1], ps[|ps| - 1];
    var n := |Stream(init).lac|;
    PacketSegsAreValid(p.data, LastGranulepos(init), p.granulepos);
    if i < n {
      StreamEntry(init, i);
    }
  }

  // ----- What the encoder has done so far -----

  /** The granule position that a packet closing at segment i carries once decoded: its own if it is the last to close
      on its page, except that the first page always carries 0; otherwise -1. */
  function GranuleOf(fs: seq<Fields>, i: nat, own: int): int
    requires AllValid(fs)
  {
    if fs == [] then -1
    else
      var n := |fs| - 1;
      if i < Cut(fs, n) then GranuleOf(fs[..n], i, own)
      else if i - Cut(fs, n) + 1 != Completed(fs[n].lens) then -1
      else if n == 0 then 0 else own
  }

  ghost predicate Finished(fs: seq<Fields>) {
    fs != [] && fs[|fs| - 1].eos
  }

  /** Segment i as the decoder will see it. */
  ghost predicate Entry(x: Segs, fs: seq<Fields>, s: Segs, i: nat)
    requires AllValid(fs) && i < |x.lac| == |x.gran| && i < |s.lac| == |s.gran|
  {
    && x.lac[i] == Lacing(s.lac[i].val, i == 0, Finished(fs) && i == |x.lac| - 1, false)
    && x.gran[i] == GranuleOf(fs, i, s.gran[i])
  }

  /** The pages so far carry the first segments of the stream, values and octets unchanged. */
  ghost predicate Carries(fs: seq<Fields>, s: Segs)
    requires AllValid(fs) && s.Valid()
  {
    var a := Assemble(fs);
    var c := |a.lac|;
    && c <= |s.lac|
    && a.body == Slice(s, 0, c).body
    && (forall i :: 0 <= i < c ==> Entry(a, fs, s, i))
  }

  /** Only the last packet closes the stream. */
  ghost predicate EosOnlyLast(ps: seq<Input>) {
    forall k :: 0 <= k < |ps| - 1 ==> !ps[k].eos
  }

  ghost predicate History(e: Encoder, fs: seq<Fields>, ps: seq<Input>, serialno: int) {
    && Coherent(fs, serialno)
    && e.segs.Valid()
    && Carries(fs, Stream(ps))
    && e.segs == Slice(Stream(ps), |Assemble(fs).lac|, |Stream(ps).lac|)
    && e.bos == (fs != []) && e.pageno == |fs| && e.serialno == serialno
    && e.eos == (ps != [] && ps[|ps| - 1].eos) && e.granulepos == LastGranulepos(ps)
    && (Finished(fs) <==> e.eos && e.segs.lac == [])
  }

  lemma SubmitKeepsHistory(e: Encoder, fs: seq<Fields>, ps: seq<Input>, serialno: int, p: Input)
    requires History(e, fs, ps, serialno) && EosOnlyLast(ps + [p])
    ensures History(PacketIn(e, p), fs, ps + [p], serialno)
  {
    hide Off, PacketSegs, Assemble, Coherent, GranuleOf, Slice;
    var qs := ps + [p];
    assert qs[..|qs| - 1] == ps;
    if ps != [] {
      assert qs[|ps| - 1] == ps[|ps| - 1];
    }
    CoherentIsValid(fs, serialno);
    PacketSegsAreValid(p.data, e.granulepos, p.granulepos);
    var s, t, c := Stream(ps), PacketSegs(p.data, e.granulepos, p.granulepos), |Assemble(fs).lac|;
    SliceOfFirst(s, t, 0, c);
    SliceAcross(s, t, c);
    LengthOfAppend(s, t);
    AppendIsValid(e.segs, t);
    forall i | 0 <= i < c ensures Entry(Assemble(fs), fs, Stream(qs), i) {
      assert Entry(Assemble(fs), fs, s, i);
    }
  }

  lemma CoherentIsValid(fs: seq<Fields>, serialno: int)
    requires Coherent(fs, serialno)
    ensures AllValid(fs)
  {
  }

  lemma SliceAcross(s: Segs, t: Segs, c: nat)
    requires s.Valid() && t.Valid() && c <= |s.lac|
    ensures Append(s, t).Valid()
    ensures Slice(Append(s, t), c, |s.lac| + |t.lac|) == Append(Slice(s, c, |s.lac|), t)
  {
    hide Off;
    AppendIsValid(s, t);
    AppendOfSlices(Append(s, t), c, |s.lac|, |s.lac| + |t.lac|);
    SliceOfFirst(s, t, c, |s.lac|);
    SliceOfSecond(s, t, 0, |t.lac|);
    WholeSlice(t);
  }

  /** Where the next page starts, the queue's first entry is flagged exactly if no packet is open on the pages so far. */
  lemma QueueHead(e: Encoder, fs: seq<Fields>, ps: seq<Input>, serialno: int)
    requires History(e, fs, ps, serialno) && e.segs.lac != []
    ensures !e.segs.lac[0].first <==> !Assemble(fs).Closed()
  {
    hide Off, PacketSegs, Assemble, Coherent, GranuleOf;
    CoherentIsValid(fs, serialno);
    var c := |Assemble(fs).lac|;
    StreamEntry(ps, c);
    assert c > 0 ==> Entry(Assemble(fs), fs, Stream(ps), c - 1);
  }

  lemma ExtendCoherent(fs: seq<Fields>, f: Fields, serialno: int)
    requires Coherent(fs, serialno) && !Finished(fs) && f.Valid()
    requires f.version == 0 && f.serialno == serialno && f.pageno == |fs| && f.lens != [] && (f.bos ==> fs == [])
    requires f.continued <==> !Assemble(fs).Closed()
    ensures Coherent(fs + [f], serialno)
  {
    hide CoherentAt, Assemble, Finished, AllValid;
    OneMoreValid(fs, f);
    forall j | 0 <= j < |fs + [f]| ensures CoherentAt(fs + [f], serialno, j) {
      if j < |fs| {
        assert CoherentAt(fs, serialno, j);
        StaysCoherent(fs, f, serialno, j);
      } else {
        JoinsCoherently(fs, f, serialno);
      }
    }
  }

  lemma OneMoreValid(fs: seq<Fields>, f: Fields)
    requires AllValid(fs) && f.Valid()
    ensures AllValid(fs + [f])
  {
  }

  lemma StaysCoherent(fs: seq<Fields>, f: Fields, serialno: int, j: nat)
    requires AllValid(fs) && AllValid(fs + [f]) && !Finished(fs) && j < |fs| && CoherentAt(fs, serialno, j)
    ensures CoherentAt(fs + [f], serialno, j)
  {
    hide Assemble;
    assert (fs + [f])[..j] == fs[..j];
  }

  lemma JoinsCoherently(fs: seq<Fields>, f: Fields, serialno: int)
    requires AllValid(fs) && AllValid(fs + [f]) && (f.continued <==> !Assemble(fs).Closed())
    requires f.version == 0 && f.serialno == serialno && f.pageno == |fs| && f.lens != [] && (f.bos ==> fs == [])
    ensures CoherentAt(fs + [f], serialno, |fs|)
  {
    hide Assemble;
    assert (fs + [f])[..|fs|] == fs;
  }

  lemma LastCut(fs: seq<Fields>, f: Fields)
    requires AllValid(fs + [f])
    ensures AllValid(fs) && Cut(fs + [f], |fs|) == |Assemble(fs).lac|
    ensures Assemble(fs + [f]) == Append(Assemble(fs), FullSegs(f))
  {
    var gs := fs + [f];
    assert gs[..|gs| - 1] == fs;
    forall j | 0 <= j < |fs| ensures fs[j].Valid() {
      assert gs[j] == fs[j];
    }
  }

  lemma GranuleOfExtended(fs: seq<Fields>, f: Fields, i: nat, own: int)
    requires AllValid(fs + [f]) && AllValid(fs)
    ensures var c := |Assemble(fs).lac|;
            GranuleOf(fs + [f], i, own) ==
            if i < c then GranuleOf(fs, i, own)
            else if i - c + 1 != Completed(f.lens) then -1 else if fs == [] then 0 else own
  {
    LastCut(fs, f);
    assert (fs + [f])[..|fs|] == fs;
  }

  /** The segments of a page just cut, entry by entry. */
  lemma PageEntries(e: Encoder, v: nat, i: nat)
    requires e.segs.Valid() && 0 < v <= |e.segs.lac| && v <= 255 && i < v
    ensures PageFields(e, v).Valid() && |PageFields(e, v).lens| == v
    ensures var f := PageFields(e, v);
            && FullSegs(f).lac[i] == Lacing(e.segs.lac[i].val, f.bos && i == 0, f.eos && i == v - 1, false)
            && FullSegs(f).gran[i] == (if i + 1 != Completed(f.lens) then -1 else if !e.bos then 0 else e.segs.gran[i])
  {
    hide Off;
    PageFieldsAreValid(e, v);
    var f := PageFields(e, v);
    CompletedIsLastClosing(e.segs.lac, v);
  }

  lemma CompletedIsLastClosing(lac: seq<Lacing>, v: nat)
    requires v <= |lac|
    ensures Completed(ValuesOf(lac[..v])) == LastClosing(lac, v)
  {
    var lens := ValuesOf(lac[..v]);
    var c, n := Completed(lens), LastClosing(lac, v);
    assert c > 0 ==> lac[c - 1].val == lens[c - 1];
    assert n > 0 ==> lac[n - 1].val == lens[n - 1];
  }

  lemma EntryOfFirst(a: Segs, b: Segs, fs: seq<Fields>, f: Fields, s: Segs, i: nat)
    requires AllValid(fs) && AllValid(fs + [f]) && a == Assemble(fs) && |b.lac| == |b.gran| > 0
    requires i < |a.lac| <= |s.lac| == |s.gran| && Entry(a, fs, s, i) && !Finished(fs)
    ensures Entry(Append(a, b), fs + [f], s, i)
  {
    hide Assemble, GranuleOf;
    GranuleOfExtended(fs, f, i, s.gran[i]);
  }

  lemma EntryOfSecond(e: Encoder, a: Segs, fs: seq<Fields>, s: Segs, v: nat, i: nat)
    requires e.segs.Valid() && 0 < v <= |e.segs.lac| && v <= 255 && i < v
    requires AllValid(fs) && AllValid(fs + [PageFields(e, v)]) && PageFields(e, v).Valid()
    requires a == Assemble(fs) && |a.lac| == |a.gran|
    requires |a.lac| + v <= |s.lac| == |s.gran| && e.bos == (fs != []) && (fs != [] ==> a.lac != []) && (fs == [] ==> a.lac == [])
    requires e.segs.lac[i] == s.lac[|a.lac| + i] && e.segs.gran[i] == s.gran[|a.lac| + i]
    ensures |FullSegs(PageFields(e, v)).lac| == v
    ensures Entry(Append(a, FullSegs(PageFields(e, v))), fs + [PageFields(e, v)], s, |a.lac| + i)
  {
    hide Assemble, GranuleOf, PageFields, FullSegs, Off;
    var f := PageFields(e, v);
    var x := Append(a, FullSegs(f));
    PageEntries(e, v, i);
    GranuleOfExtended(fs, f, |a.lac| + i, s.gran[|a.lac| + i]);
    PageFlags(e, v);
    assert x.lac[|a.lac| + i] == FullSegs(f).lac[i] && x.gran[|a.lac| + i] == FullSegs(f).gran[i];
  }

  lemma PageFlags(e: Encoder, v: nat)
    requires e.segs.Valid() && 0 < v <= |e.segs.lac|
    ensures PageFields(e, v).bos == !e.bos
  {
  }

  lemma PageCarries(e: Encoder, fs: seq<Fields>, ps: seq<Input>, serialno: int, v: nat)
    requires History(e, fs, ps, serialno) && 0 < v <= |e.segs.lac| && v <= 255
    requires AllValid(fs + [PageFields(e, v)]) && (fs != [] ==> Assemble(fs).lac != [])
    ensures Carries(fs + [PageFields(e, v)], Stream(ps))
  {
    hide Off, PacketSegs, Stream, CoherentAt, Entry, FullSegs, PageFields, Assemble;
    PageFieldsAreValid(e, v);
    var f := PageFields(e, v);
    LastCut(fs, f);
    PageEntries(e, v, 0);
    LengthOfSlice(Stream(ps), |Assemble(fs).lac|, |Stream(ps).lac|);
    PageBody(e, fs, ps, serialno, v);
    BodyOfPage(f);
    forall i | 0 <= i < |Assemble(fs).lac| + v ensures Entry(Assemble(fs + [f]), fs + [f], Stream(ps), i) {
      EntryAfterPage(e, fs, ps, serialno, v, i);
    }
  }

  lemma EntryAfterPage(e: Encoder, fs: seq<Fields>, ps: seq<Input>, serialno: int, v: nat, i: nat)
    requires History(e, fs, ps, serialno) && 0 < v <= |e.segs.lac| && v <= 255
    requires AllValid(fs + [PageFields(e, v)]) && (fs != [] ==> Assemble(fs).lac != [])
    requires i < |Assemble(fs).lac| + v
    ensures |Assemble(fs + [PageFields(e, v)]).lac| == |Assemble(fs).lac| + v <= |Stream(ps).lac|
    ensures Entry(Assemble(fs + [PageFields(e, v)]), fs + [PageFields(e, v)], Stream(ps), i)
  {
    hide Off, PacketSegs, Stream, CoherentAt, Entry, FullSegs, PageFields, Assemble, Slice;
    PageFieldsAreValid(e, v);
    var f := PageFields(e, v);
    var s, a, c := Stream(ps), Assemble(fs), |Assemble(fs).lac|;
    LastCut(fs, f);
    PageEntries(e, v, 0);
    LengthOfSlice(s, c, |s.lac|);
    if i < c {
      assert Entry(a, fs, s, i);
      EntryOfFirst(a, FullSegs(f), fs, f, s, i);
    } else {
      QueueEntry(s, c, i - c);
      AssembleNone(fs);
      EntryOfSecond(e, a, fs, s, v, i - c);
    }
  }

  lemma AssembleNone(fs: seq<Fields>)
    requires AllValid(fs)
    ensures fs == [] ==> Assemble(fs) == NONE
  {
  }

  lemma BodyOfPage(f: Fields)
    requires f.Valid()
    ensures FullSegs(f).body == f.body
  {
  }

  lemma QueueEntry(s: Segs, c: nat, i: nat)
    requires s.Valid() && c + i < |s.lac|
    ensures Slice(s, c, |s.lac|).lac[i] == s.lac[c + i] && Slice(s, c, |s.lac|).gran[i] == s.gran[c + i]
  {
  }

  lemma PageBody(e: Encoder, fs: seq<Fields>, ps: seq<Input>, serialno: int, v: nat)
    requires History(e, fs, ps, serialno) && 0 < v <= |e.segs.lac|
    ensures var c := |Assemble(fs).lac|;
            Assemble(fs).body + PageFields(e, v).body == Slice(Stream(ps), 0, c + v).body
  {
    hide Stream, Assemble, CoherentAt, LastGranule, GranuleOf;
    var s, c := Stream(ps), |Assemble(fs).lac|;
    OffIsMonotone(e.segs.lac, v, |e.segs.lac|);
    SliceWithinFirst(s, c, |s.lac|, v);
    AppendOfSlices(s, 0, c, c + v);
  }

  lemma SliceWithinFirst(s: Segs, c: nat, n: nat, v: nat)
    requires s.Valid() && c <= n <= |s.lac| && v <= n - c
    ensures Slice(s, c, n).Valid() && Off(Slice(s, c, n).lac, v) <= |Slice(s, c, n).body|
    ensures Slice(s, c, n).body[..Off(Slice(s, c, n).lac, v)] == Slice(s, c, c + v).body
  {
    var t := Slice(s, c, n);
    SliceIsValid(s, c, n);
    OffIsMonotone(t.lac, v, |t.lac|);
    OffOfSlice(s.lac, c, n, v);
    OffIsMonotone(s.lac, c, c + v);
    OffIsMonotone(s.lac, c + v, n);
    OffIsMonotone(s.lac, n, |s.lac|);
    Seqs.SliceOfSlice(s.body, Off(s.lac, c), Off(s.lac, n), 0, Off(t.lac, v));
  }

  lemma PageKeepsHistory(e: Encoder, fs: seq<Fields>, ps: seq<Input>, serialno: int, v: nat)
    requires History(e, fs, ps, serialno) && 0 < v <= |e.segs.lac| && v <= 255
    ensures History(AfterPage(e, v), fs + [PageFields(e, v)], ps, serialno)
  {
    hide Off, PacketSegs, Stream, Assemble, Carries, FullSegs, Completed, LastGranule;
    var f := PageFields(e, v);
    PageFieldsAreValid(e, v);
    QueueHead(e, fs, ps, serialno);
    ExtendCoherent(fs, f, serialno);
    NotEmptyYet(fs, serialno);
    PageCarries(e, fs, ps, serialno, v);
    LastCut(fs, f);
    LengthOfAppend(Assemble(fs), FullSegs(f));
    QueueAfterPage(e, fs, ps, serialno, v);
  }

  lemma NotEmptyYet(fs: seq<Fields>, serialno: int)
    requires Coherent(fs, serialno)
    ensures fs != [] ==> Assemble(fs).lac != []
  {
    if fs != [] {
      assert CoherentAt(fs, serialno, |fs| - 1);
    }
  }

  lemma QueueAfterPage(e: Encoder, fs: seq<Fields>, ps: seq<Input>, serialno: int, v: nat)
    requires History(e, fs, ps, serialno) && 0 < v <= |e.segs.lac|
    ensures var c, n := |Assemble(fs).lac|, |Stream(ps).lac|;
            c + v <= n && AfterPage(e, v).segs.Valid() && AfterPage(e, v).segs == Slice(Stream(ps), c + v, n)
  {
    hide Off, Stream, Assemble;
    var c, n := |Assemble(fs).lac|, |Stream(ps).lac|;
    LengthOfSlice(Stream(ps), c, n);
    SliceIsValid(Stream(ps), c + v, n);
    SliceWithin(Stream(ps), c, n, c + v);
  }

  lemma {:induction false} EncodeHistory(serialno: int, calls: seq<Call>)
    requires EosOnlyLast(Packets(calls))
    ensures History(Encode(serialno, calls).0, Encode(serialno, calls).1, Packets(calls), serialno)
  {
    hide History, PacketIn, Vals, PageFields, AfterPage, Ripe;
    if calls == [] {
      FreshHistory(serialno);
    } else {
      var before, last := calls[..|calls| - 1], calls[|calls| - 1];
      PrefixEos(Packets(before), if last.Submitting? then [last.packet] else []);
      EncodeHistory(serialno, before);
      var (e, fs) := Encode(serialno, before);
      match last
      case Submitting(p) => SubmitKeepsHistory(e, fs, Packets(before), serialno, p);
      case PageOuting(nfill) =>
        PageOutShape(e, nfill);
        assert Packets(calls) == Packets(before);
        assert Perform(e, last) == PageOut(e, nfill);
        if PageOut(e, nfill).1.Some? {
          PageKeepsHistory(e, fs, Packets(before), serialno, Vals(e, nfill));
        }
      case Flushing(nfill) =>
        if Flush(e, nfill).1.Some? {
          PageKeepsHistory(e, fs, Packets(before), serialno, Vals(e, nfill));
        }
    }
  }

  lemma PageOutShape(e: Encoder, nfill: int)
    requires e.segs.Valid()
    ensures PageOut(e, nfill).1.None? ==> PageOut(e, nfill).0 == e
    ensures PageOut(e, nfill).1.Some? ==>
              e.segs.lac != [] &&
              PageOut(e, nfill) == (AfterPage(e, Vals(e, nfill)), Some(PageFields(e, Vals(e, nfill))))
  {
  }

  lemma PrefixEos(ps: seq<Input>, qs: seq<Input>)
    requires EosOnlyLast(ps + qs)
    ensures EosOnlyLast(ps)
  {
    forall k | 0 <= k < |ps| - 1 ensures !ps[k].eos {
      assert (ps + qs)[k] == ps[k];
    }
  }

  lemma FreshHistory(serialno: int)
    ensures History(Fresh(serialno), [], [], serialno)
  {
  }

  // ----- Reading the packets back -----

  lemma {:induction false} PrefixOfStream(ps: seq<Input>, k: nat)
    requires k <= |ps|
    ensures |Stream(ps[..k]).lac| <= |Stream(ps).lac|
    ensures Slice(Stream(ps), 0, |Stream(ps[..k]).lac|) == Stream(ps[..k])
  {
    hide Off, PacketSegs, Slice;
    if k == |ps| {
      assert ps[..k] == ps;
      WholeSlice(Stream(ps));
    } else {
      var init, p := ps[..|ps| - 1], ps[|ps| - 1];
      PrefixOfStream(init, k);
      assert init[..k] == ps[..k];
      PacketSegsAreValid(p.data, LastGranulepos(init), p.granulepos);
      SliceOfFirst(Stream(init), PacketSegs(p.data, LastGranulepos(init), p.granulepos), 0, |Stream(ps[..k]).lac|);
      LengthOfAppend(Stream(init), PacketSegs(p.data, LastGranulepos(init), p.granulepos));
    }
  }

  /** Segment k's place in the stream is where packet k begins. */
  function Begin(ps: seq<Input>, k: nat): nat
    requires k <= |ps|
  {
    |Stream(ps[..k]).lac|
  }

  function PacketAt(ps: seq<Input>, k: nat): Segs
    requires k < |ps|
  {
    PacketSegs(ps[k].data, LastGranulepos(ps[..k]), ps[k].granulepos)
  }

  lemma PacketOfStream(ps: seq<Input>, k: nat)
    requires k < |ps|
    ensures Begin(ps, k) < Begin(ps, k + 1) == Begin(ps, k) + |PacketAt(ps, k).lac| <= |Stream(ps).lac|
    ensures Slice(Stream(ps), Begin(ps, k), Begin(ps, k + 1)) == PacketAt(ps, k)
  {
    hide Off, PacketAt, Slice, Append, Stream;
    PrefixOfStream(ps, k + 1);
    StreamStep(ps, k);
    LengthOfAppend(Stream(ps[..k]), PacketAt(ps, k));
    PageInPrefix(Stream(ps), Stream(ps[..k]), PacketAt(ps, k));
  }

  lemma StreamStep(ps: seq<Input>, k: nat)
    requires k < |ps|
    ensures PacketAt(ps, k).Valid() && |PacketAt(ps, k).lac| > 0
    ensures Stream(ps[..k + 1]) == Append(Stream(ps[..k]), PacketAt(ps, k))
  {
    hide Off, PacketSegs;
    var part := ps[..k + 1];
    assert part[..|part| - 1] == ps[..k];
    PacketSegsAreValid(ps[k].data, LastGranulepos(ps[..k]), ps[k].granulepos);
  }

  /** What the reader should be handed for the first k packets. */
  function Decoded(fs: seq<Fields>, ps: seq<Input>, k: nat): seq<Event>
    requires AllValid(fs) && k <= |ps|
  {
    if k == 0 then []
    else
      var p := ps[k - 1];
      Decoded(fs, ps, k - 1) +
      [Packet(p.data, k == 1, k == |ps| && p.eos, GranuleOf(fs, |Stream(ps[..k]).lac| - 1, p.granulepos))]
  }

  lemma {:induction false} AnyLastMeans(lac: seq<Lacing>, i: nat, j: nat)
    requires i <= j <= |lac|
    ensures AnyLast(lac, i, j) <==> exists t :: i <= t < j && lac[t].last
    decreases j
  {
    if i < j {
      AnyLastMeans(lac, i, j - 1);
    }
  }

  lemma {:induction false} SameOff(a: seq<Lacing>, b: seq<Lacing>, k: nat)
    requires k <= |a| == |b| && forall i :: 0 <= i < |a| ==> a[i].val == b[i].val
    ensures Off(a, k) == Off(b, k)
  {
    if k > 0 {
      SameOff(a, b, k - 1);
    }
  }

  ghost predicate Drained(e: Encoder, fs: seq<Fields>, ps: seq<Input>, serialno: int) {
    History(e, fs, ps, serialno) && e.segs.lac == []
  }

  lemma DrainedEntries(e: Encoder, fs: seq<Fields>, ps: seq<Input>, serialno: int)
    requires Drained(e, fs, ps, serialno)
    ensures var a, s := Assemble(fs), Stream(ps);
            && |a.lac| == |s.lac| && a.body == s.body
            && forall i :: 0 <= i < |s.lac| ==> Entry(a, fs, s, i) && a.lac[i].val == s.lac[i].val
  {
    hide Off, Stream, Assemble, CoherentAt, GranuleOf;
    var a, s := Assemble(fs), Stream(ps);
    LengthOfSlice(s, |a.lac|, |s.lac|);
    WholeSlice(s);
    forall i | 0 <= i < |s.lac| ensures Entry(a, fs, s, i) && a.lac[i].val == s.lac[i].val {
      assert Entry(a, fs, s, i);
    }
  }

  lemma PacketEntries(ps: seq<Input>, k: nat)
    requires k < |ps|
    ensures var s, b, e := Stream(ps), Begin(ps, k), Begin(ps, k + 1);
            && b < e <= |s.lac| && ClosedAt(s, b) && Ends(s.lac[e - 1]) && s.gran[e - 1] == ps[k].granulepos
            && (forall i :: b <= i < e - 1 ==> !Ends(s.lac[i]))
            && Slice(s, b, e).body == ps[k].data
  {
    hide Off, Stream, PacketSegs;
    PacketOfStream(ps, k);
    var s, b, e := Stream(ps), Begin(ps, k), Begin(ps, k + 1);
    var before, t := LastGranulepos(ps[..k]), PacketAt(ps, k);
    PacketSegsAreValid(ps[k].data, before, ps[k].granulepos);
    BodyOfPacket(ps[k].data, before, ps[k].granulepos);
    assert |t.lac| == e - b;
    forall i | b <= i < e ensures s.lac[i] == t.lac[i - b] && s.gran[i] == t.gran[i - b] {
      assert Slice(s, b, e).lac[i - b] == s.lac[i] && Slice(s, b, e).gran[i - b] == s.gran[i];
    }
    StreamEntry(ps, b);
  }

  lemma BeginIsZero(ps: seq<Input>, k: nat)
    requires k <= |ps|
    ensures Begin(ps, k) == 0 <==> k == 0
  {
    hide Stream;
    assert ps[..0] == [];
    assert Stream([]) == NONE by { StreamNone(); }
    if k > 0 {
      PacketOfStream(ps, k - 1);
    }
  }

  lemma StreamNone()
    ensures Stream([]) == NONE
  {
  }

  lemma DecodedPacket(e: Encoder, fs: seq<Fields>, ps: seq<Input>, serialno: int, k: nat)
    requires Drained(e, fs, ps, serialno) && k < |ps|
    ensures Begin(ps, k + 1) <= |Assemble(fs).lac| && Begin(ps, k + 1) > 0
    ensures EventAt(Assemble(fs), Begin(ps, k + 1) - 1)
         == Packet(ps[k].data, k == 0, k + 1 == |ps| && ps[k].eos, GranuleOf(fs, Begin(ps, k + 1) - 1, ps[k].granulepos))
  {
    hide Off, Stream, Assemble, CoherentAt, GranuleOf, Begin;
    DrainedEntries(e, fs, ps, serialno);
    PacketEntries(ps, k);
    BeginIsZero(ps, k);
    var a, s, b, n := Assemble(fs), Stream(ps), Begin(ps, k), Begin(ps, k + 1);
    StartIs(a.lac, b, n - 1);
    SameOff(a.lac, s.lac, b);
    SameOff(a.lac, s.lac, n);
    AnyLastMeans(a.lac, b, n);
    assert Entry(a, fs, s, n - 1) && Entry(a, fs, s, b);
    LastPacket(e, fs, ps, serialno, k);
  }

  /** The end-of-stream flag sits on the last segment, so only the last packet shows it. */
  lemma LastPacket(e: Encoder, fs: seq<Fields>, ps: seq<Input>, serialno: int, k: nat)
    requires Drained(e, fs, ps, serialno) && k < |ps|
    ensures Begin(ps, k) <= Begin(ps, k + 1) <= |Assemble(fs).lac|
    ensures (exists t :: Begin(ps, k) <= t < Begin(ps, k + 1) && Assemble(fs).lac[t].last) <==> k + 1 == |ps| && ps[k].eos
  {
    hide Off, Stream, Assemble, CoherentAt, GranuleOf, Begin;
    DrainedEntries(e, fs, ps, serialno);
    PacketEntries(ps, k);
    var a, s, b, n := Assemble(fs), Stream(ps), Begin(ps, k), Begin(ps, k + 1);
    forall t | b <= t < n ensures a.lac[t].last <==> Finished(fs) && t == |s.lac| - 1 {
      assert Entry(a, fs, s, t);
    }
    BeginAtEnd(ps, k);
  }

  lemma BeginAtEnd(ps: seq<Input>, k: nat)
    requires k < |ps|
    ensures Begin(ps, k + 1) == |Stream(ps).lac| <==> k + 1 == |ps|
  {
    hide Stream;
    if k + 1 == |ps| {
      assert ps[..k + 1] == ps;
    } else {
      BeginGrows(ps, k + 1, |ps|);
      assert ps[..|ps|] == ps;
    }
  }

  lemma {:induction false} BeginGrows(ps: seq<Input>, i: nat, j: nat)
    requires i < j <= |ps|
    ensures Begin(ps, i) < Begin(ps, j)
  {
    hide Begin, Stream;
    PacketOfStream(ps, j - 1);
    if i < j - 1 {
      BeginGrows(ps, i, j - 1);
    }
  }

  lemma {:induction false} DecodedPrefix(e: Encoder, fs: seq<Fields>, ps: seq<Input>, serialno: int, k: nat)
    requires Drained(e, fs, ps, serialno) && k <= |ps|
    ensures Begin(ps, k) <= |Assemble(fs).lac|
    ensures Events(Assemble(fs), Begin(ps, k)) == Decoded(fs, ps, k)
  {
    hide Off, Stream, Assemble, CoherentAt, GranuleOf, EventAt, Entry, Carries, Drained;
    DrainedIsValid(e, fs, ps, serialno);
    if k == 0 {
      BeginIsZero(ps, 0);
    } else {
      DecodedPrefix(e, fs, ps, serialno, k - 1);
      OpenUpToEnd(e, fs, ps, serialno, k - 1);
      DecodedPacket(e, fs, ps, serialno, k - 1);
      NoEvents(Assemble(fs), Begin(ps, k - 1), Begin(ps, k) - 1);
    }
  }

  lemma DrainedIsValid(e: Encoder, fs: seq<Fields>, ps: seq<Input>, serialno: int)
    requires Drained(e, fs, ps, serialno)
    ensures AllValid(fs)
  {
    hide Stream, Assemble, CoherentAt;
  }

  lemma OpenUpToEnd(e: Encoder, fs: seq<Fields>, ps: seq<Input>, serialno: int, k: nat)
    requires Drained(e, fs, ps, serialno) && k < |ps|
    ensures var lac, b, n := Assemble(fs).lac, Begin(ps, k), Begin(ps, k + 1);
            b < n <= |lac| && Ends(lac[n - 1]) && forall i :: b <= i < n - 1 ==> !Ends(lac[i])
  {
    hide Off, Stream, Assemble, CoherentAt, GranuleOf, EventAt, Entry, Begin, History;
    DrainedEntries(e, fs, ps, serialno);
    PacketEntries(ps, k);
  }

  /** The granule position of a decoded packet, page by page: kept exactly by the packet that is last to close on a page
      other than the first. */
  lemma {:induction false} GranuleOnPage(fs: seq<Fields>, j: nat, i: nat, own: int)
    requires AllValid(fs) && j < |fs| && Cut(fs, j) <= i < Cut(fs, j + 1)
    ensures GranuleOf(fs, i, own) ==
            if i - Cut(fs, j) + 1 != Completed(fs[j].lens) then -1 else if j == 0 then 0 else own
  {
    hide Assemble, Completed;
    var n := |fs| - 1;
    if j == n {
    } else {
      var gs := fs[..n];
      CutIsMonotone(fs, j + 1, n);
      assert gs[..j] == fs[..j] && gs[..j + 1] == fs[..j + 1];
      GranuleOnPage(gs, j, i, own);
    }
  }

  // ----- No loss -----

  function AllPages(n: nat): seq<nat> {
    seq(n, i => i)
  }

  lemma {:induction false} NothingLost(fs: seq<Fields>, lo: nat, hi: nat)
    requires AllValid(fs) && lo <= hi <= |Assemble(fs).lac|
    ensures Events(Assemble(fs), hi) == Events(Assemble(fs), lo) + WholeEvents(fs, AllPages(|fs|), lo, hi)
    decreases hi
  {
    hide Assemble, EventAt, Cut, Start;
    if lo < hi {
      NothingLost(fs, lo, hi - 1);
      EveryPage(fs, Start(Assemble(fs).lac, hi - 1), hi);
    }
  }

  lemma EveryPage(fs: seq<Fields>, a: nat, s: nat)
    requires AllValid(fs)
    ensures Delivered(fs, AllPages(|fs|), a, s)
  {
    hide Cut;
    forall p: nat | p < |fs| ensures p in AllPages(|fs|) {
      assert AllPages(|fs|)[p] == p;
    }
  }

  lemma {:induction false} ExpectedOfAll(fs: seq<Fields>, fromZero: bool, t: nat)
    requires AllValid(fs) && t <= |fs| && Subset(fs, AllPages(|fs|))
    ensures Cut(fs, t) <= |Assemble(fs).lac|
    ensures Expected(fs, AllPages(|fs|), fromZero, t) == Events(Assemble(fs), Cut(fs, t))
  {
    hide Assemble, EventAt, Cut, WholeEvents;
    if t == 0 {
      FirstCut(fs);
    } else {
      ExpectedOfAll(fs, fromZero, t - 1);
      PageOfAssembly(fs, t - 1);
      NothingLost(fs, Cut(fs, t - 1), Cut(fs, t));
    }
  }

  /** Submit packets, of which only the last closes the stream, with pages drawn by any mixture of pageout and flush, until
      flush has nothing left; feed all pages in order to a fresh or reset decoder, reading packets at any moments. The reader
      gets exactly those packets in order: same octets, the first flagged as the beginning, the last as the end. */
  lemma PagesRoundTrip(serialno: int, calls: seq<Call>, nfill: int, fromZero: bool, run: seq<Action>)
    requires EosOnlyLast(Packets(calls)) && Flush(Encode(serialno, calls).0, nfill).1.None?
    requires InRange(Encode(serialno, calls).1, run) && Submitted(run) == AllPages(|Encode(serialno, calls).1|)
    ensures var fs := Encode(serialno, calls).1;
            var start := if fromZero then Initial(serialno) else Reset(Initial(serialno));
            && start.Consistent()
            && var (d, out) := Decode(start, fs, run);
               out + d.Pending() == Decoded(fs, Packets(calls), |Packets(calls)|)
  {
    hide Assemble, Decode, Encode, Expected, Decoded, Events;
    var (e, fs) := Encode(serialno, calls);
    var ps := Packets(calls);
    EncodeHistory(serialno, calls);
    FlushDrains(e, nfill);
    LossSafety(fs, serialno, fromZero, run);
    ExpectedOfAll(fs, fromZero, |fs|);
    DecodedPrefix(e, fs, ps, serialno, |ps|);
    DrainedEntries(e, fs, ps, serialno);
    assert fs[..|fs|] == fs && ps[..|ps|] == ps;
  }

  /** The pages of any run of the encoder form a coherent stream, so LossSafety applies to every subset of them. */
  lemma EncodedPagesAreCoherent(serialno: int, calls: seq<Call>)
    requires EosOnlyLast(Packets(calls))
    ensures Coherent(Encode(serialno, calls).1, serialno)
  {
    EncodeHistory(serialno, calls);
  }

  /** What the headers of the pages of any run say: numbers from 0, one serial number, the first page alone flagged as the
      beginning, the last as the end once the stream has ended and nothing is left to put out, and a page continued exactly
      if the one before ends in a value of 255. */
  lemma HeadersOfRun(serialno: int, calls: seq<Call>, j: nat)
    requires EosOnlyLast(Packets(calls)) && j < |Encode(serialno, calls).1|
    ensures var fs := Encode(serialno, calls).1;
            && fs[j].version == 0 && fs[j].serialno == serialno && fs[j].pageno == j && fs[j].lens != []
            && (fs[j].bos <==> j == 0) && (j > 0 ==> fs[j - 1].lens != [])
            && (fs[j].continued <==> j > 0 && fs[j - 1].lens[|fs[j - 1].lens| - 1] == 255)
    ensures var (e, fs) := Encode(serialno, calls);
            fs[j].eos <==> j == |fs| - 1 && e.segs.lac == [] && Packets(calls) != [] && Packets(calls)[|Packets(calls)| - 1].eos
  {
    hide Encode, Stream, Assemble;
    var (e, fs) := Encode(serialno, calls);
    EncodeHistory(serialno, calls);
    assert CoherentAt(fs, serialno, j);
    if j > 0 {
      assert CoherentAt(fs, serialno, j - 1);
      EndOfPrefix(fs, j);
    } else {
      FirstIsFlagged(fs, Packets(calls));
      NothingIsClosed(fs);
    }
  }

  lemma NothingIsClosed(fs: seq<Fields>)
    requires AllValid(fs)
    ensures Assemble(fs[..0]).Closed()
  {
  }

  lemma EndOfPrefix(fs: seq<Fields>, j: nat)
    requires AllValid(fs) && 0 < j <= |fs| && fs[j - 1].lens != []
    ensures Assemble(fs[..j]).Closed() <==> fs[j - 1].lens[|fs[j - 1].lens| - 1] < 255
  {
    hide Off;
    var part := fs[..j];
    assert part[..|part| - 1] == fs[..j - 1] && part[|part| - 1] == fs[j - 1];
    var last := FullSegs(fs[j - 1]);
    assert last.lac[|last.lac| - 1].val == fs[j - 1].lens[|fs[j - 1].lens| - 1];
  }

  lemma FirstIsFlagged(fs: seq<Fields>, ps: seq<Input>)
    requires fs != [] && AllValid(fs) && fs[0].lens != [] && Carries(fs, Stream(ps))
    ensures fs[0].bos
  {
    hide Stream, Slice, Off, Assemble;
    PageOfAssembly(fs, 0);
    NoCut(fs);
    FirstEntry(fs);
    assert Entry(Assemble(fs), fs, Stream(ps), 0);
  }

  lemma NoCut(fs: seq<Fields>)
    requires AllValid(fs)
    ensures Cut(fs, 0) == 0
  {
  }

  lemma FirstEntry(fs: seq<Fields>)
    requires fs != [] && AllValid(fs) && fs[0].lens != []
    ensures |Assemble(fs).lac| > 0 && Assemble(fs).lac[0].first == fs[0].bos
  {
    hide Off;
    PageOfAssembly(fs, 0);
    NoCut(fs);
    SegmentOfPage(fs);
  }

  lemma SegmentOfPage(fs: seq<Fields>)
    requires fs != [] && AllValid(fs) && fs[0].lens != [] && Cut(fs, 0) == 0 && Cut(fs, 1) == |fs[0].lens| <= |Assemble(fs).lac|
    requires Slice(Assemble(fs), 0, |fs[0].lens|) == FullSegs(fs[0])
    ensures Assemble(fs).lac[0].first == fs[0].bos
  {
    hide Off, Assemble;
    assert Slice(Assemble(fs), 0, |fs[0].lens|).lac[0] == Assemble(fs).lac[0];
  }

  /** What the reader should be handed, packet by packet. */
  lemma {:induction false} DecodedIs(fs: seq<Fields>, ps: seq<Input>, k: nat, i: nat)
    requires AllValid(fs) && i < k <= |ps|
    ensures |Decoded(fs, ps, k)| == k && Decoded(fs, ps, k)[i].Packet?
    ensures var p := Decoded(fs, ps, k)[i];
            && p.data == ps[i].data && (p.bos <==> i == 0) && (p.eos <==> i == |ps| - 1 && ps[i].eos)
            && (p.granulepos == -1 || p.granulepos == 0 || p.granulepos == ps[i].granulepos)
    decreases k
  {
    hide Stream, Slice, PacketAt, GranuleOf;
    PacketOfStream(ps, k - 1);
    GranuleIsOwn(fs, |Stream(ps[..k]).lac| - 1, ps[k - 1].granulepos);
    if i < k - 1 {
      DecodedIs(fs, ps, k - 1, i);
    } else {
      DecodedLength(fs, ps, k - 1);
    }
  }

  lemma {:induction false} DecodedLength(fs: seq<Fields>, ps: seq<Input>, k: nat)
    requires AllValid(fs) && k <= |ps|
    ensures |Decoded(fs, ps, k)| == k
  {
    hide Stream, GranuleOf;
    if k > 0 {
      DecodedLength(fs, ps, k - 1);
    }
  }

  lemma {:induction false} GranuleIsOwn(fs: seq<Fields>, i: nat, own: int)
    requires AllValid(fs)
    ensures GranuleOf(fs, i, own) == -1 || GranuleOf(fs, i, own) == 0 || GranuleOf(fs, i, own) == own
    decreases |fs|
  {
    hide Assemble;
    if fs != [] {
      GranuleIsOwn(fs[..|fs| - 1], i, own);
    }
  }
}
