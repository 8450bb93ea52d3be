/** The encoding half of ogg_stream_state as a value: what ogg_stream_iovecin and ogg_stream_flush_i do to it. */
module OggEncoder {
  import opened Options
  import opened Bytes
  import opened OggSegments
  import OggPage

  /** A packet as submitted. */
  datatype Input = Input(data: seq<byte>, eos: bool, granulepos: int)

  /** The segments queued and not yet put on a page; an entry's `first` flag says that a packet begins there. */
  datatype Encoder = Encoder(segs: Segs, bos: bool, eos: bool, serialno: int, pageno: int, granulepos: int, packetno: int)

  function Fresh(serialno: int): Encoder {
    Encoder(NONE, false, false, serialno, 0, 0, 0)
  }

  /** The lacing of one packet: as many values of 255 as fit, then the remainder, which may be 0. */
  function PacketSegs(data: seq<byte>, before: int, granulepos: int): (s: Segs)
    ensures |s.lac| == |s.gran| == |data| / 255 + 1
  {
    var n := |data| / 255;
    Segs(seq(n + 1, i => Lacing(if i < n then 255 else |data| % 255, i == 0, false, false)),
         seq(n + 1, i => if i < n then before else granulepos), data)
  }

  function PacketIn(e: Encoder, p: Input): Encoder {
    e.(segs := Append(e.segs, PacketSegs(p.data, e.granulepos, p.granulepos)),
       granulepos := p.granulepos, packetno := e.packetno + 1, eos := e.eos || p.eos)
  }

  // ----- Choosing where to cut a page -----

  /** Packets completed by the first k segments. */
  function Closings(lac: seq<Lacing>, k: nat): nat
    requires k <= |lac|
  {
    if k == 0 then 0 else Closings(lac, k - 1) + (if Ends(lac[k - 1]) then 1 else 0)
  }

  /** A good place to stop: past the nominal size, at a packet end, with at least four packets done. */
  predicate GoodStop(lac: seq<Lacing>, v: nat, nfill: int)
    requires v <= |lac|
  {
    v > 0 && Off(lac, v) > nfill && Ends(lac[v - 1]) && Closings(lac, v) >= 4
  }

  /** The first good stop at or after v, or max. */
  function FirstStop(lac: seq<Lacing>, v: nat, max: nat, nfill: int): (n: nat)
    requires v <= max <= |lac|
    ensures v <= n <= max && (n == max || GoodStop(lac, n, nfill)) && forall u :: v <= u < n ==> !GoodStop(lac, u, nfill)
    decreases max - v
  {
    if v == max || GoodStop(lac, v, nfill) then v else FirstStop(lac, v + 1, max, nfill)
  }

  /** One past the first closing entry at or after v, or max. */
  function FirstPacket(lac: seq<Lacing>, v: nat, max: nat): (n: nat)
    requires v < max <= |lac|
    ensures v < n <= max && (forall i :: v <= i < n - 1 ==> !Ends(lac[i])) && (Ends(lac[n - 1]) || n == max)
    decreases max - v
  {
    if Ends(lac[v]) || v + 1 == max then v + 1 else FirstPacket(lac, v + 1, max)
  }

  function MaxVals(e: Encoder): (n: nat)
    ensures n <= |e.segs.lac| && n <= 255 && (n == 0 <==> e.segs.lac == [])
  {
    if |e.segs.lac| > 255 then 255 else |e.segs.lac|
  }

  /** How many segments go on the next page: the initial page takes the first packet only. */
  function Vals(e: Encoder, nfill: int): (n: nat)
    requires e.segs.Valid() && e.segs.lac != []
    ensures 0 < n <= MaxVals(e)
  {
    if !e.bos then FirstPacket(e.segs.lac, 0, MaxVals(e))
    else FirstStop(e.segs.lac, 1, MaxVals(e), nfill)
  }

  /** Whether the page goes out without being asked for: it ends at a good stop, or it is full. */
  predicate Ripe(e: Encoder, nfill: int)
    requires e.segs.Valid() && e.segs.lac != []
  {
    e.bos && (Vals(e, nfill) == 255 || Vals(e, nfill) < MaxVals(e))
  }

  /** One past the last closing entry among the first k, or 0. */
  function LastClosing(lac: seq<Lacing>, k: nat): (n: nat)
    requires k <= |lac|
    ensures n <= k && (n > 0 ==> Ends(lac[n - 1])) && forall i :: n <= i < k ==> !Ends(lac[i])
  {
    if k == 0 || Ends(lac[k - 1]) then k else LastClosing(lac, k - 1)
  }

  /** The granule position of the last packet completed by the first k segments, or -1. */
  function LastGranule(s: Segs, k: nat): int
    requires s.Valid() && k <= |s.lac|
  {
    var n := LastClosing(s.lac, k);
    if n == 0 then -1 else s.gran[n - 1]
  }

  function ValuesOf(lac: seq<Lacing>): (lens: seq<byte>)
    ensures |lens| == |lac|
  {
    seq(|lac|, i requires 0 <= i < |lac| => lac[i].val)
  }

  lemma {:induction false} SumOfValues(lac: seq<Lacing>, k: nat)
    requires k <= |lac|
    ensures Sum(ValuesOf(lac)[..k]) == Off(lac, k)
  {
    if k > 0 {
      SumOfValues(lac, k - 1);
      assert ValuesOf(lac)[..k][..k - 1] == ValuesOf(lac)[..k - 1];
    }
  }

  lemma SumOfAllValues(lac: seq<Lacing>)
    ensures Sum(ValuesOf(lac)) == Off(lac, |lac|)
  {
    SumOfValues(lac, |lac|);
    assert ValuesOf(lac)[..|lac|] == ValuesOf(lac);
  }

  /** A page with the first v segments. */
  function PageFields(e: Encoder, v: nat): (f: OggPage.Fields)
    requires e.segs.Valid() && 0 < v <= |e.segs.lac|
  {
    OffIsMonotone(e.segs.lac, v, |e.segs.lac|);
    OggPage.Fields(0, !e.segs.lac[0].first, !e.bos, e.eos && v == |e.segs.lac|,
           if !e.bos then 0 else LastGranule(e.segs, v), e.serialno, if e.pageno == -1 then 0 else e.pageno,
           ValuesOf(e.segs.lac[..v]), e.segs.body[..Off(e.segs.lac, v)])
  }

  function AfterPage(e: Encoder, v: nat): Encoder
    requires e.segs.Valid() && 0 < v <= |e.segs.lac|
  {
    e.(segs := Slice(e.segs, v, |e.segs.lac|), bos := true, pageno := (if e.pageno == -1 then 0 else e.pageno) + 1)
  }

  /** ogg_stream_flush_i: cut a page if there is anything to cut and it is forced or ripe. */
  function FlushPage(e: Encoder, force: bool, nfill: int): (r: (Encoder, Option<OggPage.Fields>))
    requires e.segs.Valid()
  {
    if e.segs.lac == [] || (!force && !Ripe(e, nfill)) then (e, None)
    else (AfterPage(e, Vals(e, nfill)), Some(PageFields(e, Vals(e, nfill))))
  }

  function Flush(e: Encoder, nfill: int): (Encoder, Option<OggPage.Fields>)
    requires e.segs.Valid()
  {
    FlushPage(e, true, nfill)
  }

  function PageOut(e: Encoder, nfill: int): (Encoder, Option<OggPage.Fields>)
    requires e.segs.Valid()
  {
    FlushPage(e, e.segs.lac != [] && (e.eos || !e.bos), nfill)
  }

  lemma BodyOfPacket(data: seq<byte>, before: int, granulepos: int)
    ensures PacketSegs(data, before, granulepos).body == data
  {
  }

  lemma PacketSegsAreValid(data: seq<byte>, before: int, granulepos: int)
    ensures var s := PacketSegs(data, before, granulepos);
            && s.Valid() && s.Closed() && s.lac[0].first
            && (forall i :: 0 < i < |s.lac| ==> !s.lac[i].first)
            && (forall i :: 0 <= i < |s.lac| ==> (Ends(s.lac[i]) <==> i == |s.lac| - 1) && !s.lac[i].hole && !s.lac[i].last)
            && s.gran[|s.lac| - 1] == granulepos
            && (forall i :: 0 <= i < |s.lac| - 1 ==> s.lac[i].val == 255) && s.lac[|s.lac| - 1].val == |data| % 255
  {
    var s := PacketSegs(data, before, granulepos);
    OffOfFull(s.lac, |data| / 255);
  }

  lemma {:induction false} OffOfFull(lac: seq<Lacing>, k: nat)
    requires k <= |lac| && forall i :: 0 <= i < k ==> lac[i].val == 255
    ensures Off(lac, k) == 255 * k
  {
    if k > 0 {
      OffOfFull(lac, k - 1);
    }
  }

  lemma PageFieldsAreValid(e: Encoder, v: nat)
    requires e.segs.Valid() && 0 < v <= |e.segs.lac| && v <= 255
    ensures PageFields(e, v).Valid()
  {
    OffIsMonotone(e.segs.lac, v, |e.segs.lac|);
    SumOfAllValues(e.segs.lac[..v]);
    OffOfSlice(e.segs.lac, 0, v, v);
    assert e.segs.lac[0..v] == e.segs.lac[..v];
  }

  // ----- When a page comes out, and where it is cut -----

  lemma {:induction false} ClosingsCount(lac: seq<Lacing>, lens: seq<byte>, k: nat)
    requires k <= |lac| && lens == ValuesOf(lac)
    ensures Closings(lac, k) == |set i | 0 <= i < k && lens[i] < 255|
  {
    if k > 0 {
      ClosingsCount(lac, lens, k - 1);
      var before := set i | 0 <= i < k - 1 && lens[i] < 255;
      assert (set i | 0 <= i < k && lens[i] < 255) == if lens[k - 1] < 255 then before + {k - 1} else before;
    }
  }

  lemma GoodStopIs(lac: seq<Lacing>, lens: seq<byte>, v: nat, nfill: int)
    requires 0 < v <= |lac| && lens == ValuesOf(lac)
    ensures GoodStop(lac, v, nfill) <==>
            lens[v - 1] < 255 && Sum(lens[..v]) > nfill && |set i | 0 <= i < v && lens[i] < 255| >= 4
  {
    hide Off, Sum, Closings;
    ClosingsCount(lac, lens, v);
    SumOfValues(lac, v);
  }

  /** After the first page. The end of a packet, past the nominal size and with four packets or more closed before it, ends
      a page, unless the queue ends there too; so do 255 values. Without such an end a page comes out only if it is forced,
      and then takes all there is. */
  lemma PageIsCut(e: Encoder, force: bool, nfill: int)
    requires e.segs.Valid() && e.bos
    ensures var lens := ValuesOf(e.segs.lac);
            FlushPage(e, force, nfill).1.None? <==>
            || lens == []
            || (!force && |lens| < 255 && forall v :: 0 < v < |lens| ==>
                 !(lens[v - 1] < 255 && Sum(lens[..v]) > nfill && |set i | 0 <= i < v && lens[i] < 255| >= 4))
    ensures FlushPage(e, force, nfill).1.Some? ==>
            var lens, cut := ValuesOf(e.segs.lac), FlushPage(e, force, nfill).1.value.lens;
            && 0 < |cut| <= 255 && |cut| <= |lens| && cut == lens[..|cut|]
            && (|cut| == 255 || (|cut| == |lens| && force)
                || (|cut| < |lens| && cut[|cut| - 1] < 255 && Sum(cut) > nfill
                    && |set i | 0 <= i < |cut| && lens[i] < 255| >= 4))
            && forall v :: 0 < v < |cut| ==>
                 !(lens[v - 1] < 255 && Sum(lens[..v]) > nfill && |set i | 0 <= i < v && lens[i] < 255| >= 4)
  {
    hide Off, Sum, GoodStop, LastGranule;
    var lac, lens := e.segs.lac, ValuesOf(e.segs.lac);
    forall v | 0 < v <= |lac|
      ensures GoodStop(lac, v, nfill) <==>
              lens[v - 1] < 255 && Sum(lens[..v]) > nfill && |set i | 0 <= i < v && lens[i] < 255| >= 4
    {
      GoodStopIs(lac, lens, v, nfill);
    }
    if lac != [] {
      assert ValuesOf(lac[..Vals(e, nfill)]) == lens[..Vals(e, nfill)];
    }
  }

  /** A page is put out unasked only as flush would put it out; pageout waits unless the stream has ended or not begun. */
  lemma PageOutWaits(e: Encoder, nfill: int)
    requires e.segs.Valid()
    ensures PageOut(e, nfill).1.Some? ==> PageOut(e, nfill) == Flush(e, nfill)
    ensures var lens := ValuesOf(e.segs.lac);
            PageOut(e, nfill).1.None? <==>
            || lens == []
            || (e.bos && !e.eos && |lens| < 255 && forall v :: 0 < v < |lens| ==>
                 !(lens[v - 1] < 255 && Sum(lens[..v]) > nfill && |set i | 0 <= i < v && lens[i] < 255| >= 4))
  {
    hide Sum, Vals, LastGranule, Ripe;
    if e.bos {
      PageIsCut(e, false, nfill);
    }
  }

  /** What the fields of a page say, whichever way it comes out, and what is left. */
  lemma PageSays(e: Encoder, force: bool, nfill: int)
    requires e.segs.Valid() && FlushPage(e, force, nfill).1.Some?
    ensures var f, next, lac := FlushPage(e, force, nfill).1.value, FlushPage(e, force, nfill).0, e.segs.lac;
            var n, bytes := |f.lens|, |f.body|;
            && f.version == 0 && f.serialno == e.serialno && f.pageno == (if e.pageno == -1 then 0 else e.pageno)
            && (f.continued <==> !lac[0].first) && (f.bos <==> !e.bos) && (f.eos <==> e.eos && n == |lac|)
            && 0 < n <= |lac| && (forall i :: 0 <= i < n ==> f.lens[i] == lac[i].val)
            && bytes == Sum(f.lens) <= |e.segs.body| && f.body == e.segs.body[..bytes]
            && next.segs == Segs(lac[n..], e.segs.gran[n..], e.segs.body[bytes..])
            && next == e.(segs := next.segs, bos := true, pageno := f.pageno + 1)
    ensures !e.bos ==>
            var f := FlushPage(e, force, nfill).1.value;
            && f.granulepos == 0 && (forall i :: 0 <= i < |f.lens| - 1 ==> f.lens[i] == 255)
            && (f.lens[|f.lens| - 1] < 255 || |f.lens| == 255 || |f.lens| == |e.segs.lac|)
    ensures e.bos ==>
            var f := FlushPage(e, force, nfill).1.value;
            && ((forall i :: 0 <= i < |f.lens| ==> f.lens[i] == 255) ==> f.granulepos == -1)
            && forall i :: 0 <= i < |f.lens| && f.lens[i] < 255 && (forall j :: i < j < |f.lens| ==> f.lens[j] == 255) ==>
                 f.granulepos == e.segs.gran[i]
  {
    hide Off, Sum, FirstStop, Closings;
    var v := Vals(e, nfill);
    PageFieldsAreValid(e, v);
    OffIsMonotone(e.segs.lac, v, |e.segs.lac|);
    SumOfValues(e.segs.lac, v);
    assert ValuesOf(e.segs.lac)[..v] == ValuesOf(e.segs.lac[..v]);
    GranuleOnLast(e, v);
  }

  lemma GranuleOnLast(e: Encoder, v: nat)
    requires e.segs.Valid() && 0 < v <= |e.segs.lac|
    ensures var g := LastGranule(e.segs, v);
            && ((forall i :: 0 <= i < v ==> e.segs.lac[i].val == 255) ==> g == -1)
            && forall i :: 0 <= i < v && e.segs.lac[i].val < 255 && (forall j :: i < j < v ==> e.segs.lac[j].val == 255) ==>
                 g == e.segs.gran[i]
  {
    hide Off, LastClosing;
    var n := LastClosing(e.segs.lac, v);
    if n > 0 {
      assert e.segs.lac[n - 1].val < 255;
    }
  }

  /** Flushing comes back empty-handed exactly when nothing is queued, and otherwise shortens the queue. */
  lemma FlushDrains(e: Encoder, nfill: int)
    requires e.segs.Valid()
    ensures var (next, page) := Flush(e, nfill);
            && next.segs.Valid()
            && (page.None? <==> e.segs.lac == [])
            && (page.None? ==> next == e)
            && (page.Some? ==> |next.segs.lac| + |page.value.lens| == |e.segs.lac| && page.value.lens != [])
  {
    hide Off, Vals, LastGranule;
    if e.segs.lac != [] {
      SliceIsValid(e.segs, Vals(e, nfill), |e.segs.lac|);
    }
  }

  /** The first page of a stream holds segments of the first packet only. */
  lemma InitialPageHoldsOnePacket(e: Encoder, nfill: int)
    requires e.segs.Valid() && e.segs.lac != [] && !e.bos
    ensures Flush(e, nfill).1.Some? && PageOut(e, nfill) == Flush(e, nfill)
    ensures var f := Flush(e, nfill).1.value;
            && f.bos && forall i :: 0 <= i < |f.lens| - 1 ==> f.lens[i] == 255
  {
  }
}
