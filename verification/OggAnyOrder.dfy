/** Pages of a logical stream in any order, some missing and some repeated: nothing but the stream's own packets, whole, and
    loss markers ever reach the reader. */
module OggAnyOrder {
  import opened OggSegments
  import opened OggPage
  import opened OggDecoder
  import opened OggLoss
  import Seqs

  /** A marker, or one of the stream's packets. */
  ghost predicate Genuine(g: Segs, ev: Event)
    requires g.Valid()
  {
    ev == Hole || exists e: nat :: e < |g.lac| && Ends(g.lac[e]) && ev == EventAt(g, e)
  }

  ghost predicate AllGenuine(g: Segs, evs: seq<Event>)
    requires g.Valid()
  {
    forall i :: 0 <= i < |evs| ==> Genuine(g, evs[i])
  }

  lemma GenuineTogether(g: Segs, a: seq<Event>, b: seq<Event>)
    requires g.Valid()
    ensures AllGenuine(g, a + b) <==> AllGenuine(g, a) && AllGenuine(g, b)
  {
    hide Genuine;
    assert forall i :: 0 <= i < |a| ==> (a + b)[i] == a[i];
    assert forall i :: 0 <= i < |b| ==> (a + b)[|a| + i] == b[i];
  }

  lemma {:induction false} StreamEventsAreGenuine(g: Segs, lo: nat, hi: nat)
    requires g.Valid() && hi <= |g.lac|
    ensures AllGenuine(g, StreamEvents(g, lo, hi))
    decreases hi
  {
    hide EventAt;
    if lo < hi {
      StreamEventsAreGenuine(g, lo, hi - 1);
      if Ends(g.lac[hi - 1]) {
        assert Genuine(g, EventAt(g, hi - 1));
      }
    }
  }

  // ----- The decoder's open packet -----

  /** The tables' open end is the stream's open packet before segment s, or there is none and they stand at a loss. */
  ghost predicate Loose(d: Decoder, g: Segs, s: nat)
    requires g.Valid() && s <= |g.lac|
  {
    && d.Consistent()
    && if ClosedAt(g, s) then d.packet == |d.segs.lac|
       else
         || Slice(d.segs, d.packet, |d.segs.lac|) == Slice(g, Start(g.lac, s - 1), s)
         || (d.packet == |d.segs.lac| && (d.segs.lac == [] || d.segs.lac[|d.segs.lac| - 1] == HOLE))
  }

  /** What the decoder expects next, it can go on from. */
  ghost predicate Ready(d: Decoder, fs: seq<Fields>)
    requires AllValid(fs)
  {
    && d.Consistent()
    && (d.pageno == -1 ==> d.segs == NONE && d.packet == 0)
    && (d.pageno != -1 ==> 0 <= d.pageno <= |fs|)
    && (0 <= d.pageno < |fs| ==>
          Cut(fs, d.pageno) <= |Assemble(fs).lac| && Loose(d, Assemble(fs), Cut(fs, d.pageno)))
  }

  lemma LooseAfter(d: Decoder, g: Segs, a: nat, e: nat)
    requires d.Consistent() && g.Valid() && a < e <= |g.lac| && ClosedAt(g, a)
    requires Slice(d.segs, d.packet, |d.segs.lac|) == Slice(g, LastClosed(g.lac, a, e), e)
    ensures Loose(d, g, e)
  {
    hide Slice;
    var n := LastClosed(g.lac, a, e);
    LengthOfSlice(g, n, e);
    LengthOfSlice(d.segs, d.packet, |d.segs.lac|);
    if n < e {
      StartIs(g.lac, n, e - 1);
    }
  }

  lemma OrphanGoesOn(d: Decoder, r: Decoder, fs: seq<Fields>, serialno: int, j: nat)
    requires Coherent(fs, serialno) && j + 1 < |fs| && d.Consistent()
    requires Cut(fs, j + 1) <= |Assemble(fs).lac| && Orphan(r, fs[j])
    requires d.packet == |d.segs.lac| && d.segs == MarkIf(fs[j].eos, r.segs)
    ensures Loose(d, Assemble(fs), Cut(fs, j + 1))
  {
    hide Assemble, Cut, Slice, Decoder.Consistent, Start;
    assert CoherentAt(fs, serialno, j);
  }

  lemma AdmitAny(r: Decoder, fs: seq<Fields>, serialno: int, j: nat)
    requires Coherent(fs, serialno) && j < |fs|
    requires Cut(fs, j) <= |Assemble(fs).lac| && Loose(r, Assemble(fs), Cut(fs, j))
    ensures Admit(r, fs[j]).Consistent() && Cut(fs, j + 1) <= |Assemble(fs).lac|
    ensures j + 1 < |fs| ==> Loose(Admit(r, fs[j]), Assemble(fs), Cut(fs, j + 1))
    ensures AllGenuine(Assemble(fs), r.Pending()) ==> AllGenuine(Assemble(fs), Admit(r, fs[j]).Pending())
  {
    hide Assemble, Cut, Admit, Slice, Decoder.Pending, AllGenuine, StreamEvents;
    var g, s := Assemble(fs), Cut(fs, j);
    ContinuedAt(fs, serialno, j);
    if ClosedAt(g, s) {
      EmptySlice(g, s);
      ClosedIsEmpty(r);
      JoinAny(r, fs, serialno, j, s);
    } else {
      var a := Start(g.lac, s - 1);
      if Slice(r.segs, r.packet, |r.segs.lac|) == Slice(g, a, s) {
        LastOfOpen(r, g, a, s);
        JoinAny(r, fs, serialno, j, a);
      } else {
        SkipAny(r, fs, serialno, j);
      }
    }
  }

  lemma ClosedIsEmpty(r: Decoder)
    requires r.Consistent() && r.packet == |r.segs.lac|
    ensures Slice(r.segs, r.packet, |r.segs.lac|) == NONE
  {
    EmptySlice(r.segs, r.packet);
  }

  lemma JoinAny(r: Decoder, fs: seq<Fields>, serialno: int, j: nat, a: nat)
    requires Coherent(fs, serialno) && j < |fs| && r.Consistent()
    requires Cut(fs, j) <= |Assemble(fs).lac| && a <= Cut(fs, j) && ClosedAt(Assemble(fs), a)
    requires forall i :: a <= i < Cut(fs, j) ==> !Ends(Assemble(fs).lac[i])
    requires Slice(r.segs, r.packet, |r.segs.lac|) == Slice(Assemble(fs), a, Cut(fs, j)) && !Orphan(r, fs[j])
    ensures Admit(r, fs[j]).Consistent() && Cut(fs, j + 1) <= |Assemble(fs).lac|
    ensures j + 1 < |fs| ==> Loose(Admit(r, fs[j]), Assemble(fs), Cut(fs, j + 1))
    ensures AllGenuine(Assemble(fs), r.Pending()) ==> AllGenuine(Assemble(fs), Admit(r, fs[j]).Pending())
  {
    hide Assemble, Cut, Admit, Orphan, Slice, Decoder.Pending, Decoder.Consistent, StreamEvents, LastClosed, AllGenuine, Loose;
    assert CoherentAt(fs, serialno, j);
    PageOfAssembly(fs, j);
    AdmitJoined(r, fs, serialno, j, a);
    LooseAfter(Admit(r, fs[j]), Assemble(fs), a, Cut(fs, j + 1));
    StreamEventsAreGenuine(Assemble(fs), a, Cut(fs, j + 1));
    GenuineTogether(Assemble(fs), r.Pending(), StreamEvents(Assemble(fs), a, Cut(fs, j + 1)));
  }

  lemma SkipAny(r: Decoder, fs: seq<Fields>, serialno: int, j: nat)
    requires Coherent(fs, serialno) && j < |fs| && r.Consistent() && r.packet == |r.segs.lac| && Orphan(r, fs[j])
    ensures Admit(r, fs[j]).Consistent() && Cut(fs, j + 1) <= |Assemble(fs).lac|
    ensures j + 1 < |fs| ==> Loose(Admit(r, fs[j]), Assemble(fs), Cut(fs, j + 1))
    ensures AllGenuine(Assemble(fs), r.Pending()) ==> AllGenuine(Assemble(fs), Admit(r, fs[j]).Pending())
  {
    hide Assemble, Cut, Admit, Orphan, Slice, Decoder.Pending, Decoder.Consistent, StreamEvents, LastClosed, AllGenuine, Loose,
      Skipped;
    var from := Cut(fs, j) + Skipped(fs[j].lens);
    assert CoherentAt(fs, serialno, j);
    PageOfAssembly(fs, j);
    AdmitOrphan(r, fs, serialno, j);
    StreamEventsAreGenuine(Assemble(fs), from, Cut(fs, j + 1));
    GenuineTogether(Assemble(fs), r.Pending(), StreamEvents(Assemble(fs), from, Cut(fs, j + 1)));
    if Skipped(fs[j].lens) < |fs[j].lens| {
      SkipEndsPacket(fs, j);
      LooseAfter(Admit(r, fs[j]), Assemble(fs), from, Cut(fs, j + 1));
    } else if j + 1 < |fs| {
      OrphanGoesOn(Admit(r, fs[j]), r, fs, serialno, j);
    }
  }

  // ----- Whole runs -----

  lemma ResyncAny(d: Decoder, fs: seq<Fields>, serialno: int, j: nat)
    requires Coherent(fs, serialno) && j < |fs| && Ready(d, fs)
    ensures Cut(fs, j) <= |Assemble(fs).lac| && Loose(Resync(d, fs[j]), Assemble(fs), Cut(fs, j))
    ensures AllGenuine(Assemble(fs), d.Pending()) ==> AllGenuine(Assemble(fs), Resync(d, fs[j]).Pending())
  {
    hide Assemble, Cut, Slice, Decoder.Pending, Append, AllGenuine, Start;
    assert CoherentAt(fs, serialno, j);
    ContinuedAt(fs, serialno, j);
    if j != d.pageno {
      DropOpen(d);
      var kept := d.(segs := Slice(d.segs, 0, d.packet));
      if d.pageno == -1 {
        EmptySlice(NONE, 0);
      } else {
        LossIsHole(kept);
        LastOfLoss(kept.segs);
        OneHole(Assemble(fs));
        GenuineTogether(Assemble(fs), d.Pending(), [Hole]);
      }
    }
  }

  lemma OneHole(g: Segs)
    requires g.Valid()
    ensures AllGenuine(g, [Hole])
  {
  }

  lemma SubmitAny(d: Decoder, fs: seq<Fields>, serialno: int, j: nat)
    requires Coherent(fs, serialno) && j < |fs| && Ready(d, fs) && d.serialno == serialno
    ensures Ready(PageIn(d, fs[j]), fs) && PageIn(d, fs[j]).serialno == serialno
    ensures AllGenuine(Assemble(fs), d.Pending()) ==> AllGenuine(Assemble(fs), PageIn(d, fs[j]).Pending())
  {
    hide Assemble, Cut, Resync, Admit, Decoder.Pending, AllGenuine, Loose, Decoder.Consistent, PageIn, Ready;
    ReadyIsConsistent(d, fs);
    ResyncAny(d, fs, serialno, j);
    AdmitAny(Resync(d, fs[j]), fs, serialno, j);
    PageInParts(d, fs, serialno, j);
    SameTablesAny(Admit(Resync(d, fs[j]), fs[j]), PageIn(d, fs[j]), fs, j);
    BecomesReady(PageIn(d, fs[j]), fs, j);
  }

  lemma PageInParts(d: Decoder, fs: seq<Fields>, serialno: int, j: nat)
    requires Coherent(fs, serialno) && j < |fs| && d.Consistent() && d.serialno == serialno
    ensures var r := Admit(Resync(d, fs[j]), fs[j]);
            && PageIn(d, fs[j]).segs == r.segs && PageIn(d, fs[j]).packet == r.packet
            && PageIn(d, fs[j]).pageno == j + 1 && PageIn(d, fs[j]).serialno == serialno
  {
    hide Assemble, Resync, Admit, Decoder.Consistent;
    assert CoherentAt(fs, serialno, j);
    ResyncSerial(d, fs[j]);
  }

  lemma BecomesReady(e: Decoder, fs: seq<Fields>, j: nat)
    requires AllValid(fs) && j < |fs| && e.Consistent() && e.pageno == j + 1 && Cut(fs, j + 1) <= |Assemble(fs).lac|
    requires j + 1 < |fs| ==> Loose(e, Assemble(fs), Cut(fs, j + 1))
    ensures Ready(e, fs)
  {
    hide Assemble, Cut, Loose, Decoder.Consistent;
  }

  lemma ReadyIsConsistent(d: Decoder, fs: seq<Fields>)
    requires AllValid(fs) && Ready(d, fs)
    ensures d.Consistent()
  {
  }

  lemma SameTablesAny(d: Decoder, e: Decoder, fs: seq<Fields>, j: nat)
    requires AllValid(fs) && j < |fs| && d.Consistent() && e.segs == d.segs && e.packet == d.packet
    ensures e.Consistent() && e.Pending() == d.Pending()
    ensures Cut(fs, j + 1) <= |Assemble(fs).lac| && Loose(d, Assemble(fs), Cut(fs, j + 1)) ==>
              Loose(e, Assemble(fs), Cut(fs, j + 1))
  {
    hide Assemble, Cut, Slice, Start;
  }

  lemma TakeAny(d: Decoder, fs: seq<Fields>)
    requires AllValid(fs) && Ready(d, fs)
    ensures d.Consistent() && Ready(PacketOut(d).0, fs) && PacketOut(d).0.serialno == d.serialno
  {
    hide Assemble, Cut, Start, Slice, PacketOut, Decoder.Consistent;
    PacketOutPops(d);
    TakeKeepsSerial(d);
    if d.packet > 0 {
      TakeKeepsOpen(d);
    } else {
      NothingToTake(d);
    }
  }

  lemma {:induction false} AnyOrder(d: Decoder, fs: seq<Fields>, serialno: int, run: seq<Action>)
    requires Coherent(fs, serialno) && InRange(fs, run) && Ready(d, fs) && d.serialno == serialno && d.Pending() == []
    ensures var (e, out) := Decode(d, fs, run);
            Ready(e, fs) && e.serialno == serialno && AllGenuine(Assemble(fs), out + e.Pending())
    decreases |run|
  {
    hide Assemble, PageIn, PacketOut, Ready, Decoder.Consistent, Decoder.Pending, AllGenuine, CoherentAt;
    ReadyIsConsistent(d, fs);
    if run == [] {
      NothingOut(d, fs, Assemble(fs));
    } else {
      var before, last := run[..|run| - 1], run[|run| - 1];
      AnyOrder(d, fs, serialno, before);
      var (e, out) := Decode(d, fs, before);
      ReadyIsConsistent(e, fs);
      GenuineTogether(Assemble(fs), out, e.Pending());
      match last
      case Submit(j) =>
        SubmitAny(e, fs, serialno, j);
        PageInKeepsConsistent(e, fs[j]);
        GenuineTogether(Assemble(fs), out, PageIn(e, fs[j]).Pending());
      case Take =>
        TakeAny(e, fs);
        PacketOutPops(e);
        var (next, event) := PacketOut(e);
        GenuineTogether(Assemble(fs), out, next.Pending());
        if event.Some? {
          Seqs.ConcatAssociates(out, [event.value], next.Pending());
        }
    }
  }

  lemma NothingOut(d: Decoder, fs: seq<Fields>, g: Segs)
    requires d.Consistent() && AllValid(fs) && g.Valid() && d.Pending() == [] && InRange(fs, [])
    ensures Decode(d, fs, []) == (d, []) && AllGenuine(g, [] + d.Pending())
  {
  }

  /** Submit the pages of a stream in any order, leaving some out and repeating some, to a fresh or reset decoder, and read
      packets at any moments: everything the reader is handed, or can still read, is a loss marker or one of the stream's
      packets, with all of its octets and flags. */
  lemma NeverASplice(fs: seq<Fields>, serialno: int, fromZero: bool, run: seq<Action>)
    requires Coherent(fs, serialno) && InRange(fs, run)
    ensures var start := if fromZero then Initial(serialno) else Reset(Initial(serialno));
            && start.Consistent()
            && var (e, out) := Decode(start, fs, run);
               AllGenuine(Assemble(fs), out + e.Pending())
  {
    hide Assemble, AllGenuine, CoherentAt, Decode;
    var start := if fromZero then Initial(serialno) else Reset(Initial(serialno));
    StartIsReady(fs, serialno, start);
    AnyOrder(start, fs, serialno, run);
  }

  lemma StartIsReady(fs: seq<Fields>, serialno: int, start: Decoder)
    requires Coherent(fs, serialno) && (start == Initial(serialno) || start == Reset(Initial(serialno)))
    ensures start.Consistent() && Ready(start, fs) && start.Pending() == [] && start.serialno == serialno
  {
    hide Assemble, CoherentAt;
    FirstCut(fs);
  }
}
