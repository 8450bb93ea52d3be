/** The decoding half of ogg_stream_state as a value: what ogg_stream_pagein and _packetout do to it. */
module OggDecoder {
  import opened Options
  import opened Bytes
  import Seqs
  import opened OggSegments
  import opened OggPage

  /** The segments received and not yet handed out; the first `packet` of them make whole packets and loss markers. */
  datatype Decoder = Decoder(segs: Segs, packet: nat, eos: bool, serialno: int, pageno: int, packetno: int) {
    /** Kept by every page and every read, whatever pages arrive. */
    ghost predicate Consistent() {
      && segs.Valid()
      && packet <= |segs.lac|
      && (packet > 0 ==> Ends(segs.lac[packet - 1]))
      && (forall i :: packet <= i < |segs.lac| ==> !Ends(segs.lac[i]))
      && (forall i :: 0 <= i < |segs.lac| && segs.lac[i].hole ==> segs.lac[i].val == 0)
      && (forall i :: 0 < i < |segs.lac| && segs.lac[i].hole ==> Ends(segs.lac[i - 1]))
    }

    function Pending(): seq<Event>
      requires Consistent()
    {
      Events(segs, packet)
    }
  }

  function Initial(serialno: int): Decoder {
    Decoder(NONE, 0, false, serialno, 0, 0)
  }

  function Reset(d: Decoder): Decoder {
    Decoder(NONE, 0, false, d.serialno, -1, 0)
  }

  // ----- Submitting a page -----

  /** One past the last value below 255, or 0: the segments that complete packets. */
  function Completed(lens: seq<byte>): (n: nat)
    ensures n <= |lens| && (n > 0 ==> lens[n - 1] < 255) && forall i :: n <= i < |lens| ==> lens[i] == 255
  {
    if lens == [] then 0 else if lens[|lens| - 1] < 255 then |lens| else Completed(lens[..|lens| - 1])
  }

  /** How many leading segments belong to the packet whose beginning was lost. */
  function Skipped(lens: seq<byte>): (n: nat)
    ensures n <= |lens| && (n < |lens| ==> n > 0 && lens[n - 1] < 255)
    ensures forall i :: 0 <= i < n - 1 ==> lens[i] == 255
    ensures lens != [] ==> n > 0
  {
    if lens == [] then 0 else if lens[0] < 255 then 1 else 1 + Skipped(lens[1..])
  }

  function PageSegs(lens: seq<byte>, body: seq<byte>, bos: bool, granulepos: int): (s: Segs)
    ensures |s.lac| == |s.gran| == |lens| && s.body == body
  {
    Segs(seq(|lens|, i requires 0 <= i < |lens| => Lacing(lens[i], bos && i == 0, false, false)),
         seq(|lens|, i => if i + 1 == Completed(lens) then granulepos else -1),
         body)
  }

  function MarkLast(s: Segs): (t: Segs)
    ensures |t.lac| == |s.lac| && t.gran == s.gran && t.body == s.body
  {
    if s.lac == [] then s else s.(lac := s.lac[|s.lac| - 1 := s.lac[|s.lac| - 1].(last := true)])
  }

  function MarkIf(eos: bool, s: Segs): Segs {
    if eos then MarkLast(s) else s
  }

  predicate Accepts(d: Decoder, f: Fields) {
    f.serialno == d.serialno && f.version == 0
  }

  const LOSS := Segs([HOLE], [-1], [])

  /** Out of sequence: drop the partial packet, and note the loss unless nothing was received before. */
  function Resync(d: Decoder, f: Fields): Decoder
    requires d.Consistent()
  {
    if f.pageno == d.pageno then d
    else if d.pageno == -1 then d.(segs := Slice(d.segs, 0, d.packet))
    else d.(segs := Append(Slice(d.segs, 0, d.packet), LOSS), packet := d.packet + 1)
  }

  /** A continued page whose packet's beginning is not here. */
  predicate Orphan(d: Decoder, f: Fields) {
    f.continued && (d.segs.lac == [] || d.segs.lac[|d.segs.lac| - 1] == HOLE)
  }

  /** The segments of the page that are kept. */
  function Kept(d: Decoder, f: Fields): Segs
    requires f.Valid()
  {
    var skip := if Orphan(d, f) then Skipped(f.lens) else 0;
    SumOfPrefix(f.lens, skip);
    PageSegs(f.lens[skip..], f.body[Sum(f.lens[..skip])..], f.bos && !Orphan(d, f), f.granulepos)
  }

  function PageIn(d: Decoder, f: Fields): Decoder
    requires d.Consistent() && f.Valid()
  {
    if !Accepts(d, f) then d
    else Admit(Resync(d, f), f).(eos := d.eos || f.eos, pageno := f.pageno + 1)
  }

  function Admit(r: Decoder, f: Fields): Decoder
    requires f.Valid()
  {
    var kept := Kept(r, f);
    var t := Extend(r, kept, f.lens[|f.lens| - |kept.lac|..]);
    t.(segs := MarkIf(f.eos, t.segs))
  }

  /** The tables with the kept segments of a page, whose values are lens, at the end. */
  function Extend(r: Decoder, kept: Segs, lens: seq<byte>): Decoder {
    r.(segs := Append(r.segs, kept),
       packet := if Completed(lens) > 0 then |r.segs.lac| + Completed(lens) else r.packet)
  }

  lemma SumOfPrefix(s: seq<byte>, k: nat)
    requires k <= |s|
    ensures Sum(s[..k]) <= Sum(s) && Sum(s[k..]) == Sum(s) - Sum(s[..k])
  {
    Seqs.TwoParts(s, k);
    SumConcat(s[..k], s[k..]);
  }

  lemma {:induction false} OffOfPage(lens: seq<byte>, lac: seq<Lacing>, k: nat)
    requires |lac| == |lens| && k <= |lens| && forall i :: 0 <= i < |lens| ==> lac[i].val == lens[i]
    ensures Off(lac, k) == Sum(lens[..k])
  {
    if k > 0 {
      OffOfPage(lens, lac, k - 1);
      assert lens[..k][..k - 1] == lens[..k - 1];
    }
  }

  lemma PageSegsAreValid(lens: seq<byte>, body: seq<byte>, bos: bool, granulepos: int)
    requires |body| == Sum(lens)
    ensures PageSegs(lens, body, bos, granulepos).Valid()
  {
    OffOfPage(lens, PageSegs(lens, body, bos, granulepos).lac, |lens|);
    assert lens[..|lens|] == lens;
  }

  lemma KeptIsValid(d: Decoder, f: Fields)
    requires f.Valid()
    ensures Kept(d, f).Valid()
  {
    var skip := if Orphan(d, f) then Skipped(f.lens) else 0;
    SumOfPrefix(f.lens, skip);
    PageSegsAreValid(f.lens[skip..], f.body[Sum(f.lens[..skip])..], f.bos && !Orphan(d, f), f.granulepos);
  }

  lemma {:induction false} OffAfterMark(s: Segs, k: nat)
    requires k <= |s.lac|
    ensures Off(MarkLast(s).lac, k) == Off(s.lac, k)
  {
    if k > 0 {
      OffAfterMark(s, k - 1);
    }
  }

  lemma ResyncKeepsConsistent(d: Decoder, f: Fields)
    requires d.Consistent()
    ensures Resync(d, f).Consistent()
  {
    hide Off;
    SliceIsValid(d.segs, 0, d.packet);
    var done := d.(segs := Slice(d.segs, 0, d.packet));
    assert done.Consistent();
    AddLoss(done);
  }

  lemma LossIsValid()
    ensures LOSS.Valid() && LOSS.Closed()
  {
    assert Off(LOSS.lac, 1) == Off(LOSS.lac, 0) + LOSS.lac[0].val;
  }

  lemma AddLoss(d: Decoder)
    requires d.Consistent() && d.packet == |d.segs.lac|
    ensures d.(segs := Append(d.segs, LOSS), packet := d.packet + 1).Consistent()
  {
    hide Off;
    LossIsValid();
    AppendIsValid(d.segs, LOSS);
  }

  lemma ExtendKeepsConsistent(r: Decoder, kept: Segs, lens: seq<byte>)
    requires r.Consistent() && kept.Valid() && |kept.lac| == |lens|
    requires forall i :: 0 <= i < |lens| ==> kept.lac[i].val == lens[i] && !kept.lac[i].hole
    ensures Extend(r, kept, lens).Consistent()
  {
    hide Off;
    AppendIsValid(r.segs, kept);
  }

  lemma MarkKeepsConsistent(d: Decoder)
    requires d.Consistent()
    ensures d.(segs := MarkLast(d.segs)).Consistent()
  {
    OffAfterMark(d.segs, |d.segs.lac|);
  }

  /** No page, however damaged or out of place, breaks the tables. */
  lemma PageInKeepsConsistent(d: Decoder, f: Fields)
    requires d.Consistent() && f.Valid()
    ensures PageIn(d, f).Consistent()
  {
    hide Resync, Orphan, Admit, Off;
    if Accepts(d, f) {
      ResyncKeepsConsistent(d, f);
      AdmitKeepsConsistent(Resync(d, f), f);
      OtherFieldsDoNotMatter(Admit(Resync(d, f), f), PageIn(d, f));
    }
  }

  lemma AdmitKeepsConsistent(r: Decoder, f: Fields)
    requires r.Consistent() && f.Valid()
    ensures Admit(r, f).Consistent()
  {
    hide Decoder.Consistent, Orphan, MarkLast;
    var kept := Kept(r, f);
    var lens := f.lens[|f.lens| - |kept.lac|..];
    KeptIsValid(r, f);
    ExtendKeepsConsistent(r, kept, lens);
    MarkKeepsConsistent(Extend(r, kept, lens));
  }

  lemma OtherFieldsDoNotMatter(d: Decoder, e: Decoder)
    requires d.Consistent() && e.segs == d.segs && e.packet == d.packet
    ensures e.Consistent()
  {
  }

  // ----- Taking a packet out -----

  /** The scan over values of 255: the first closing entry at or after i. */
  function FirstEnd(lac: seq<Lacing>, i: nat): (n: nat)
    requires i < |lac|
    ensures i <= n < |lac| && (forall k :: i <= k < n ==> !Ends(lac[k])) && (Ends(lac[n]) || n == |lac| - 1)
    decreases |lac| - i
  {
    if Ends(lac[i]) || i == |lac| - 1 then i else FirstEnd(lac, i + 1)
  }

  function PacketOut(d: Decoder): (r: (Decoder, Option<Event>))
    requires d.Consistent()
  {
    if d.packet == 0 then (d, None)
    else
      var n := LastOfHead(d);
      (DropHead(d, n), Some(HeadEvent(d, n)))
  }

  /** The entry that closes the first pending packet, or the pending marker itself. */
  function LastOfHead(d: Decoder): (n: nat)
    requires d.Consistent() && d.packet > 0
    ensures n < d.packet && Ends(d.segs.lac[n]) && forall i :: 0 <= i < n ==> !Ends(d.segs.lac[i])
  {
    if d.segs.lac[0].hole then 0 else FirstEnd(d.segs.lac, 0)
  }

  function HeadEvent(d: Decoder, n: nat): Event
    requires d.segs.Valid() && n < |d.segs.lac|
  {
    OffIsMonotone(d.segs.lac, n + 1, |d.segs.lac|);
    if d.segs.lac[0].hole then Hole
    else Packet(d.segs.body[..Off(d.segs.lac, n + 1)], d.segs.lac[0].first, AnyLast(d.segs.lac, 0, n + 1), d.segs.gran[n])
  }

  function DropHead(d: Decoder, n: nat): Decoder
    requires d.segs.Valid() && n < d.packet <= |d.segs.lac|
  {
    d.(segs := Slice(d.segs, n + 1, |d.segs.lac|), packet := d.packet - (n + 1), packetno := d.packetno + 1)
  }

  lemma {:induction false} StartOfOpenRun(lac: seq<Lacing>, e: nat)
    requires e < |lac| && forall i :: 0 <= i < e ==> !Ends(lac[i])
    ensures Start(lac, e) == 0
  {
    if e > 0 {
      StartOfOpenRun(lac, e - 1);
    }
  }

  /** A read hands out the first pending event and leaves the rest; it reports nothing only if nothing is pending. */
  lemma PacketOutPops(d: Decoder)
    requires d.Consistent()
    ensures var (next, event) := PacketOut(d);
            && next.Consistent()
            && match event {
              case None => next == d && d.Pending() == []
              case Some(e) => d.Pending() == [e] + next.Pending()
            }
  {
    hide Decoder.Consistent, DropHead, HeadEvent, LastOfHead;
    if d.packet > 0 {
      var n := LastOfHead(d);
      DropHeadKeepsConsistent(d, n);
      PendingIsHeadAndRest(d, n);
    }
  }

  lemma PendingIsHeadAndRest(d: Decoder, n: nat)
    requires d.Consistent() && d.packet > 0 && n == LastOfHead(d)
    ensures DropHead(d, n).Consistent() && d.Pending() == [HeadEvent(d, n)] + DropHead(d, n).Pending()
  {
    hide HeadEvent, EventAt, Off;
    DropHeadKeepsConsistent(d, n);
    HeadEventIsEvent(d, n);
    EventsAfterHead(d.segs, n, d.packet);
  }

  lemma EventsAfterHead(s: Segs, n: nat, k: nat)
    requires s.Valid() && n < k <= |s.lac| && Ends(s.lac[n]) && forall i :: 0 <= i < n ==> !Ends(s.lac[i])
    ensures Slice(s, 0, n + 1).Valid() && Slice(s, n + 1, |s.lac|).Valid()
    ensures Events(s, k) == [EventAt(Slice(s, 0, n + 1), n)] + Events(Slice(s, n + 1, |s.lac|), k - (n + 1))
  {
    hide Off, EventAt, Start;
    var head, tail := Slice(s, 0, n + 1), Slice(s, n + 1, |s.lac|);
    SliceIsValid(s, 0, n + 1);
    SliceIsValid(s, n + 1, |s.lac|);
    AppendOfSlices(s, 0, n + 1, |s.lac|);
    WholeSlice(s);
    EventsOfAppend(head, tail, k - (n + 1));
    NoEvents(head, 0, n);
  }

  lemma DropHeadKeepsConsistent(d: Decoder, n: nat)
    requires d.Consistent() && n < d.packet && Ends(d.segs.lac[n])
    ensures DropHead(d, n).Consistent()
  {
    hide Off;
    SliceIsValid(d.segs, n + 1, |d.segs.lac|);
  }

  lemma HeadEventIsEvent(d: Decoder, n: nat)
    requires d.Consistent() && d.packet > 0 && n == LastOfHead(d)
    ensures Slice(d.segs, 0, n + 1).Valid() && EventAt(Slice(d.segs, 0, n + 1), n) == HeadEvent(d, n)
  {
    var s := d.segs;
    var head, tail := Slice(s, 0, n + 1), Slice(s, n + 1, |s.lac|);
    SliceIsValid(s, 0, n + 1);
    SliceIsValid(s, n + 1, |s.lac|);
    AppendOfSlices(s, 0, n + 1, |s.lac|);
    WholeSlice(s);
    EventOfFirst(head, tail, n);
    StartOfOpenRun(s.lac, n);
  }
}
