/** What reaches the reader when only some pages of a logical stream arrive: exactly the packets all of whose
    segments lie on delivered pages, in order, and one marker per gap. */
module OggLoss {
  import opened Bytes
  import Seqs
  import opened OggSegments
  import opened OggPage
  import opened OggDecoder

  // ----- A logical stream -----

  function FullSegs(f: Fields): (s: Segs)
    requires f.Valid()
    ensures s.Valid() && |s.lac| == |f.lens|
  {
    PageSegsAreValid(f.lens, f.body, f.bos, f.granulepos);
    var s := PageSegs(f.lens, f.body, f.bos, f.granulepos);
    OffAfterMark(s, |s.lac|);
    MarkIf(f.eos, s)
  }

  ghost predicate AllValid(fs: seq<Fields>) {
    forall j :: 0 <= j < |fs| ==> fs[j].Valid()
  }

  /** The segments of all pages, put end to end. */
  function Assemble(fs: seq<Fields>): (s: Segs)
    requires AllValid(fs)
    ensures s.Valid()
  {
    if fs == [] then NONE
    else
      AppendIsValid(Assemble(fs[..|fs| - 1]), FullSegs(fs[|fs| - 1]));
      Append(Assemble(fs[..|fs| - 1]), FullSegs(fs[|fs| - 1]))
  }

  /** The number of segments on the first j pages. */
  function Cut(fs: seq<Fields>, j: nat): nat
    requires AllValid(fs) && j <= |fs|
  {
    |Assemble(fs[..j]).lac|
  }

  ghost predicate CoherentAt(fs: seq<Fields>, serialno: int, j: nat)
    requires AllValid(fs) && j < |fs|
  {
    var f := fs[j];
    && f.version == 0 && f.serialno == serialno && f.pageno == j && f.lens != []
    && (f.bos ==> j == 0) && (f.eos ==> j == |fs| - 1)
    && (f.continued <==> !Assemble(fs[..j]).Closed())
  }

  /** The pages of one logical stream as section 6 of RFC 3533 numbers and flags them. */
  ghost predicate Coherent(fs: seq<Fields>, serialno: int) {
    AllValid(fs) && forall j :: 0 <= j < |fs| ==> CoherentAt(fs, serialno, j)
  }

  lemma {:induction false} PrefixOfAssembly(fs: seq<Fields>, j: nat)
    requires AllValid(fs) && j <= |fs|
    ensures Cut(fs, j) <= |Assemble(fs).lac|
    ensures Slice(Assemble(fs), 0, Cut(fs, j)) == Assemble(fs[..j])
  {
    if j == |fs| {
      assert fs[..j] == fs;
      WholeSlice(Assemble(fs));
    } else {
      var init := fs[..|fs| - 1];
      PrefixOfAssembly(init, j);
      assert init[..j] == fs[..j];
      SliceOfFirst(Assemble(init), FullSegs(fs[|fs| - 1]), 0, Cut(fs, j));
    }
  }

  lemma {:induction false} PageOfAssembly(fs: seq<Fields>, j: nat)
    requires AllValid(fs) && j < |fs|
    ensures Cut(fs, j + 1) == Cut(fs, j) + |fs[j].lens| <= |Assemble(fs).lac|
    ensures Slice(Assemble(fs), Cut(fs, j), Cut(fs, j + 1)) == FullSegs(fs[j])
  {
    hide Slice, Append, FullSegs;
    PrefixOfAssembly(fs, j + 1);
    var part := fs[..j + 1];
    assert part[..j] == fs[..j];
    var a, b := Assemble(fs[..j]), FullSegs(fs[j]);
    assert Assemble(part) == Append(a, b);
    LengthOfAppend(a, b);
    PageInPrefix(Assemble(fs), a, b);
  }

  lemma LengthOfAppend(a: Segs, b: Segs)
    ensures |Append(a, b).lac| == |a.lac| + |b.lac|
  {
  }

  lemma PageInPrefix(g: Segs, a: Segs, b: Segs)
    requires g.Valid() && a.Valid() && b.Valid() && |a.lac| + |b.lac| <= |g.lac|
    requires Slice(g, 0, |a.lac| + |b.lac|) == Append(a, b)
    ensures Slice(g, |a.lac|, |a.lac| + |b.lac|) == b
  {
    hide Slice, Off;
    var n, m := |a.lac|, |a.lac| + |b.lac|;
    SliceIsValid(g, 0, m);
    SliceIsValid(g, m, |g.lac|);
    LengthOfSlice(g, 0, m);
    AppendOfSlices(g, 0, m, |g.lac|);
    WholeSlice(g);
    SliceOfFirst(Append(a, b), Slice(g, m, |g.lac|), n, m);
    SliceOfSecond(a, b, 0, |b.lac|);
    WholeSlice(b);
  }

  lemma {:induction false} CutIsMonotone(fs: seq<Fields>, i: nat, j: nat)
    requires AllValid(fs) && i <= j <= |fs|
    ensures Cut(fs, i) <= Cut(fs, j)
    ensures i < j && fs[j - 1].lens != [] ==> Cut(fs, i) < Cut(fs, j)
    decreases j
  {
    hide Slice, FullSegs, Cut;
    if i < j {
      CutIsMonotone(fs, i, j - 1);
      PageOfAssembly(fs, j - 1);
    }
  }

  // ----- Delivered packets -----

  /** Every page that holds one of the segments a..s-1 is in D. */
  ghost predicate Delivered(fs: seq<Fields>, D: seq<nat>, a: nat, s: nat)
    requires AllValid(fs)
  {
    forall p: nat :: p < |fs| && Cut(fs, p) < s && a < Cut(fs, p + 1) ==> p in D
  }

  /** Every segment of the packet that segment e closes lies on a delivered page. */
  ghost predicate Whole(fs: seq<Fields>, D: seq<nat>, e: nat)
    requires AllValid(fs) && e < |Assemble(fs).lac|
  {
    Delivered(fs, D, Start(Assemble(fs).lac, e), e + 1)
  }

  /** The packets that close among segments lo..hi-1 and are whole. */
  ghost function WholeEvents(fs: seq<Fields>, D: seq<nat>, lo: nat, hi: nat): seq<Event>
    requires AllValid(fs) && lo <= hi <= |Assemble(fs).lac|
    decreases hi
  {
    if lo == hi then []
    else
      var g := Assemble(fs);
      WholeEvents(fs, D, lo, hi - 1) + (if Ends(g.lac[hi - 1]) && Whole(fs, D, hi - 1) then [EventAt(g, hi - 1)] else [])
  }

  ghost predicate Subset(fs: seq<Fields>, D: seq<nat>) {
    (forall t :: 0 <= t < |D| ==> D[t] < |fs|) && forall t, u :: 0 <= t < u < |D| ==> D[t] < D[u]
  }

  /** A gap ends just before the t-th delivered page. A gap at the very start counts only if page 0 was expected. */
  ghost predicate Gap(D: seq<nat>, fromZero: bool, t: nat)
    requires t < |D|
  {
    if t == 0 then fromZero && D[0] != 0 else D[t] != D[t - 1] + 1
  }

  ghost function Page(fs: seq<Fields>, D: seq<nat>, j: nat): seq<Event>
    requires AllValid(fs) && j < |fs|
  {
    PageOfAssembly(fs, j);
    WholeEvents(fs, D, Cut(fs, j), Cut(fs, j + 1))
  }

  /** What the reader must see once the first t of the pages D have arrived. */
  ghost function Expected(fs: seq<Fields>, D: seq<nat>, fromZero: bool, t: nat): seq<Event>
    requires AllValid(fs) && Subset(fs, D) && t <= |D|
  {
    if t == 0 then []
    else Expected(fs, D, fromZero, t - 1) + (if Gap(D, fromZero, t - 1) then [Hole] else []) + Page(fs, D, D[t - 1])
  }

  // ----- The decoder's open packet -----

  /** The decoder's tables after (or just before) segment s of the stream: their open end is the stream's open packet
      if all of that has arrived, and otherwise they have no open end and stand at a loss. */
  ghost predicate Aligned(d: Decoder, fs: seq<Fields>, D: seq<nat>, s: nat)
    requires AllValid(fs) && s <= |Assemble(fs).lac|
  {
    var g := Assemble(fs);
    && d.Consistent()
    && if s == 0 || Ends(g.lac[s - 1]) then d.packet == |d.segs.lac|
       else var a := Start(g.lac, s - 1);
         if Delivered(fs, D, a, s) then Slice(d.segs, d.packet, |d.segs.lac|) == Slice(g, a, s)
         else d.packet == |d.segs.lac| && (d.segs.lac == [] || d.segs.lac[|d.segs.lac| - 1] == HOLE)
  }

  /** One past the last closing entry in a..s-1, or a. */
  function LastClosed(lac: seq<Lacing>, a: nat, s: nat): (n: nat)
    requires a <= s <= |lac|
    ensures a <= n <= s && (n > a ==> Ends(lac[n - 1])) && forall i :: n <= i < s ==> !Ends(lac[i])
    decreases s
  {
    if a == s || Ends(lac[s - 1]) then s else LastClosed(lac, a, s - 1)
  }

  function StreamEvents(g: Segs, lo: nat, hi: nat): seq<Event>
    requires g.Valid() && hi <= |g.lac|
    decreases hi
  {
    if hi <= lo then [] else StreamEvents(g, lo, hi - 1) + (if Ends(g.lac[hi - 1]) then [EventAt(g, hi - 1)] else [])
  }

  lemma {:induction false} EventsOfSlice(g: Segs, a: nat, s: nat, k: nat)
    requires g.Valid() && a <= s <= |g.lac| && (a == 0 || Ends(g.lac[a - 1])) && k <= s - a
    ensures Slice(g, a, s).Valid() && Events(Slice(g, a, s), k) == StreamEvents(g, a, a + k)
  {
    hide EventAt, Off;
    SliceIsValid(g, a, s);
    if k > 0 {
      EventsOfSlice(g, a, s, k - 1);
      EventInSlice(g, a, s, k - 1);
    }
  }

  lemma EventInSlice(g: Segs, a: nat, s: nat, e: nat)
    requires g.Valid() && a <= s <= |g.lac| && (a == 0 || Ends(g.lac[a - 1])) && e < s - a
    ensures Slice(g, a, s).Valid() && EventAt(Slice(g, a, s), e) == EventAt(g, a + e)
  {
    hide EventAt, Off;
    SliceIsValid(g, 0, a);
    SliceIsValid(g, a, s);
    SliceIsValid(g, s, |g.lac|);
    SliceIsValid(g, 0, s);
    AppendOfSlices(g, 0, a, s);
    AppendOfSlices(g, 0, s, |g.lac|);
    WholeSlice(g);
    EventOfSecond(Slice(g, 0, a), Slice(g, a, s), e);
    EventOfFirst(Slice(g, 0, s), Slice(g, s, |g.lac|), a + e);
  }

  /** A closed table followed by stream segments a..s-1: its pending events, and its open end. */
  lemma Absorb(d: Decoder, done: Segs, g: Segs, a: nat, s: nat)
    requires d.Consistent() && done.Valid() && done.Closed() && g.Valid() && a <= s <= |g.lac|
    requires a == 0 || Ends(g.lac[a - 1])
    requires d.segs == Append(done, Slice(g, a, s)) && d.packet == |done.lac| + LastClosed(g.lac, a, s) - a
    ensures d.Pending() == Events(done, |done.lac|) + StreamEvents(g, a, s)
    ensures Slice(d.segs, d.packet, |d.segs.lac|) == Slice(g, LastClosed(g.lac, a, s), s)
  {
    hide *;
    var n := LastClosed(g.lac, a, s);
    SliceIsValid(g, a, s);
    AbsorbEvents(done, g, a, s);
    LengthOfSlice(g, a, s);
    LengthOfAppend(done, Slice(g, a, s));
    SliceOfSecond(done, Slice(g, a, s), n - a, s - a);
    SliceWithin(g, a, s, n);
    PendingIsEvents(d);
  }

  lemma PendingIsEvents(d: Decoder)
    requires d.Consistent()
    ensures d.segs.Valid() && d.packet <= |d.segs.lac| && d.Pending() == Events(d.segs, d.packet)
  {
  }

  lemma LengthOfSlice(g: Segs, a: nat, s: nat)
    requires g.Valid() && a <= s <= |g.lac|
    ensures |Slice(g, a, s).lac| == s - a
  {
  }

  lemma AbsorbEvents(done: Segs, g: Segs, a: nat, s: nat)
    requires done.Valid() && done.Closed() && g.Valid() && a <= s <= |g.lac| && (a == 0 || Ends(g.lac[a - 1]))
    ensures Append(done, Slice(g, a, s)).Valid()
    ensures |Append(done, Slice(g, a, s)).lac| == |done.lac| + s - a
    ensures Events(Append(done, Slice(g, a, s)), |done.lac| + LastClosed(g.lac, a, s) - a)
         == Events(done, |done.lac|) + StreamEvents(g, a, s)
  {
    hide Off, Events, EventAt, StreamEvents, Slice, Append;
    var n := LastClosed(g.lac, a, s);
    SliceIsValid(g, a, s);
    LengthOfSlice(g, a, s);
    AppendIsValid(done, Slice(g, a, s));
    LengthOfAppend(done, Slice(g, a, s));
    EventsOfAppend(done, Slice(g, a, s), n - a);
    EventsOfSlice(g, a, s, n - a);
    NoStreamEvents(g, a, n, s);
  }

  lemma SliceWithin(g: Segs, a: nat, s: nat, n: nat)
    requires g.Valid() && a <= n <= s <= |g.lac|
    ensures Slice(g, a, s).Valid() && Slice(Slice(g, a, s), n - a, s - a) == Slice(g, n, s)
  {
    hide Off;
    SliceIsValid(g, a, s);
    SliceIsValid(g, a, n);
    SliceIsValid(g, n, s);
    AppendOfSlices(g, a, n, s);
    SliceOfSecond(Slice(g, a, n), Slice(g, n, s), 0, s - n);
    WholeSlice(Slice(g, n, s));
  }

  lemma {:induction false} NoStreamEvents(g: Segs, lo: nat, mid: nat, hi: nat)
    requires g.Valid() && lo <= mid <= hi <= |g.lac| && forall e :: mid <= e < hi ==> !Ends(g.lac[e])
    ensures StreamEvents(g, lo, hi) == StreamEvents(g, lo, mid)
    decreases hi
  {
    if mid < hi {
      NoStreamEvents(g, lo, mid, hi - 1);
    }
  }

  // ----- One page -----

  lemma CompletedOfSuffix(lens: seq<byte>, k: nat)
    requires k <= |lens|
    ensures Completed(lens[k..]) > 0 ==> Completed(lens) == k + Completed(lens[k..])
    ensures Completed(lens[k..]) == 0 ==> Completed(lens) <= k
  {
    var c, n := Completed(lens), Completed(lens[k..]);
    assert n > 0 ==> lens[k..][n - 1] == lens[k + n - 1];
    assert c > k ==> lens[k..][c - k - 1] == lens[c - 1];
    assert forall i :: k + n <= i < |lens| ==> lens[i] == lens[k..][i - k];
  }

  lemma PageSuffix(lens: seq<byte>, body: seq<byte>, bos: bool, granulepos: int, k: nat)
    requires |body| == Sum(lens) && k <= |lens| && (k > 0 ==> !bos)
    ensures PageSegs(lens, body, bos, granulepos).Valid() && Sum(lens[..k]) <= |body|
    ensures PageSegs(lens[k..], body[Sum(lens[..k])..], bos, granulepos)
         == Slice(PageSegs(lens, body, bos, granulepos), k, |lens|)
  {
    hide Completed, Sum, Off;
    PageSegsAreValid(lens, body, bos, granulepos);
    SumOfPrefix(lens, k);
    var p, q := PageSegs(lens, body, bos, granulepos), PageSegs(lens[k..], body[Sum(lens[..k])..], bos, granulepos);
    PageOffsets(lens, body, bos, granulepos, k);
    CompletedOfSuffix(lens, k);
    var t := Slice(p, k, |lens|);
    assert p.lac[k..|lens|] == q.lac;
    forall i | 0 <= i < |lens| - k ensures q.gran[i] == t.gran[i] {
      assert t.gran[i] == p.gran[k + i];
    }
    SameTables(q, t);
  }

  lemma PageOffsets(lens: seq<byte>, body: seq<byte>, bos: bool, granulepos: int, k: nat)
    requires |body| == Sum(lens) && k <= |lens|
    ensures var p := PageSegs(lens, body, bos, granulepos); Off(p.lac, k) == Sum(lens[..k]) && Off(p.lac, |lens|) == |body|
  {
    hide Completed;
    var p := PageSegs(lens, body, bos, granulepos);
    OffOfPage(lens, p.lac, k);
    OffOfPage(lens, p.lac, |lens|);
    assert lens[..|lens|] == lens;
  }

  lemma SameTables(s: Segs, t: Segs)
    requires |s.lac| == |t.lac| && |s.gran| == |t.gran| && s.body == t.body
    requires forall i :: 0 <= i < |s.lac| ==> s.lac[i] == t.lac[i]
    requires forall i :: 0 <= i < |s.gran| ==> s.gran[i] == t.gran[i]
    ensures s == t
  {
  }

  lemma MarkOfSuffix(s: Segs, k: nat)
    requires s.Valid() && k < |s.lac|
    ensures MarkLast(s).Valid() && Slice(MarkLast(s), k, |s.lac|) == MarkLast(Slice(s, k, |s.lac|))
  {
    OffAfterMark(s, k);
    OffAfterMark(s, |s.lac|);
  }

  lemma MarkOfAppend(s: Segs, t: Segs)
    requires t.lac != []
    ensures MarkLast(Append(s, t)) == Append(s, MarkLast(t))
  {
  }

  ghost function Dropped(r: Decoder, f: Fields): nat {
    if Orphan(r, f) then Skipped(f.lens) else 0
  }

  lemma OrphanIsContinued(r: Decoder, f: Fields)
    ensures Orphan(r, f) ==> f.continued
  {
  }

  /** What the decoder keeps of a page is a stretch of the stream. */
  lemma KeptIsSlice(r: Decoder, fs: seq<Fields>, serialno: int, j: nat)
    requires Coherent(fs, serialno) && j < |fs|
    ensures Cut(fs, j) + |fs[j].lens| == Cut(fs, j + 1) <= |Assemble(fs).lac|
    ensures var f, k := fs[j], Dropped(r, fs[j]);
            && k <= |f.lens| && |Kept(r, f).lac| == |f.lens| - k
            && (k < |f.lens| ==> MarkIf(f.eos, Kept(r, f)) == Slice(Assemble(fs), Cut(fs, j) + k, Cut(fs, j + 1)))
            && (k == |f.lens| ==> Kept(r, f) == NONE)
  {
    hide Assemble, Slice, Orphan, Completed, Cut, MarkLast, Sum;
    var f, k := fs[j], Dropped(r, fs[j]);
    PageOfAssembly(fs, j);
    assert CoherentAt(fs, serialno, j);
    FirstIsNotContinued(fs, serialno, j);
    OrphanIsContinued(r, f);
    PageSuffix(f.lens, f.body, f.bos, f.granulepos, k);
    if k < |f.lens| {
      SliceWithin(Assemble(fs), Cut(fs, j), Cut(fs, j + 1), Cut(fs, j) + k);
      MarkOfSuffix(PageSegs(f.lens, f.body, f.bos, f.granulepos), k);
    } else {
      SliceToEnd(PageSegs(f.lens, f.body, f.bos, f.granulepos));
    }
  }

  lemma SliceToEnd(s: Segs)
    requires s.Valid()
    ensures Slice(s, |s.lac|, |s.lac|) == NONE
  {
  }

  lemma FirstIsNotContinued(fs: seq<Fields>, serialno: int, j: nat)
    requires Coherent(fs, serialno) && j < |fs|
    ensures fs[j].continued ==> !fs[j].bos
  {
    assert CoherentAt(fs, serialno, j);
    if j == 0 {
      assert fs[..0] == [];
    }
  }

  lemma PageValues(fs: seq<Fields>, j: nat, i: nat)
    requires AllValid(fs) && j < |fs| && i < |fs[j].lens|
    ensures Cut(fs, j) + i < |Assemble(fs).lac| && Assemble(fs).lac[Cut(fs, j) + i].val == fs[j].lens[i]
  {
    PageOfAssembly(fs, j);
    assert Slice(Assemble(fs), Cut(fs, j), Cut(fs, j + 1)).lac[i] == FullSegs(fs[j]).lac[i];
  }

  lemma CompletedIsLastClosed(fs: seq<Fields>, j: nat, k: nat)
    requires AllValid(fs) && j < |fs| && k <= |fs[j].lens|
    ensures Cut(fs, j) + |fs[j].lens| == Cut(fs, j + 1) <= |Assemble(fs).lac|
    ensures Completed(fs[j].lens[k..]) == LastClosed(Assemble(fs).lac, Cut(fs, j) + k, Cut(fs, j + 1)) - (Cut(fs, j) + k)
  {
    hide Assemble, Cut, Slice;
    PageOfAssembly(fs, j);
    var lens, s := fs[j].lens, Cut(fs, j);
    forall i: nat | i < |lens| ensures Assemble(fs).lac[s + i].val == lens[i] {
      PageValues(fs, j, i);
    }
    LastClosedIsCompleted(Assemble(fs).lac, s + k, s + |lens|, lens[k..]);
  }

  lemma LastClosedIsCompleted(lac: seq<Lacing>, a: nat, s: nat, lens: seq<byte>)
    requires a <= s <= |lac| && |lens| == s - a && forall i :: 0 <= i < |lens| ==> lac[a + i].val == lens[i]
    ensures Completed(lens) == LastClosed(lac, a, s) - a
  {
    var c, n := Completed(lens), LastClosed(lac, a, s) - a;
    assert c > 0 ==> lac[a + (c - 1)].val == lens[c - 1];
    assert n > 0 ==> lac[a + (n - 1)].val == lens[n - 1];
  }

  ghost predicate ClosedAt(g: Segs, s: nat)
    requires s <= |g.lac|
  {
    s == 0 || Ends(g.lac[s - 1])
  }

  lemma ContinuedAt(fs: seq<Fields>, serialno: int, j: nat)
    requires Coherent(fs, serialno) && j < |fs|
    ensures Cut(fs, j) <= |Assemble(fs).lac| && (fs[j].continued <==> !ClosedAt(Assemble(fs), Cut(fs, j)))
  {
    hide Assemble, Slice;
    assert CoherentAt(fs, serialno, j);
    PrefixOfAssembly(fs, j);
    LastOfSlice(Assemble(fs), Cut(fs, j));
  }

  lemma LastOfSlice(g: Segs, s: nat)
    requires g.Valid() && s <= |g.lac|
    ensures Slice(g, 0, s).Closed() <==> ClosedAt(g, s)
  {
  }

  lemma SplitAtPacket(r: Decoder)
    requires r.Consistent()
    ensures var done := Slice(r.segs, 0, r.packet);
            && done.Valid() && done.Closed() && Events(done, |done.lac|) == r.Pending()
            && r.segs == Append(done, Slice(r.segs, r.packet, |r.segs.lac|))
  {
    hide Off, EventAt;
    var n := |r.segs.lac|;
    SliceIsValid(r.segs, 0, r.packet);
    SliceIsValid(r.segs, r.packet, n);
    AppendOfSlices(r.segs, 0, r.packet, n);
    WholeSlice(r.segs);
    EventsOfFirst(Slice(r.segs, 0, r.packet), Slice(r.segs, r.packet, n), r.packet);
  }

  /** The decoder's tables continue with the next page: nothing of it is dropped. */
  lemma AdmitJoined(r: Decoder, fs: seq<Fields>, serialno: int, j: nat, a: nat)
    requires Coherent(fs, serialno) && j < |fs| && r.Consistent()
    requires Cut(fs, j) <= |Assemble(fs).lac|
    requires a <= Cut(fs, j) && ClosedAt(Assemble(fs), a)
    requires forall i :: a <= i < Cut(fs, j) ==> !Ends(Assemble(fs).lac[i])
    requires Slice(r.segs, r.packet, |r.segs.lac|) == Slice(Assemble(fs), a, Cut(fs, j))
    requires !Orphan(r, fs[j])
    ensures Cut(fs, j) <= Cut(fs, j + 1) <= |Assemble(fs).lac|
    ensures Admit(r, fs[j]).Consistent()
    ensures Admit(r, fs[j]).Pending() == r.Pending() + StreamEvents(Assemble(fs), a, Cut(fs, j + 1))
    ensures var d, n := Admit(r, fs[j]), LastClosed(Assemble(fs).lac, a, Cut(fs, j + 1));
            Slice(d.segs, d.packet, |d.segs.lac|) == Slice(Assemble(fs), n, Cut(fs, j + 1))
  {
    hide Assemble, Cut, Orphan, Events, Decoder.Consistent, Slice, Completed, MarkLast, Append, Kept, Decoder.Pending;
    var f, g, s, e := fs[j], Assemble(fs), Cut(fs, j), Cut(fs, j + 1);
    PendingIsEvents(r);
    var done := Slice(r.segs, 0, r.packet);
    KeptIsSlice(r, fs, serialno, j);
    CompletedIsLastClosed(fs, j, 0);
    assert CoherentAt(fs, serialno, j);
    assert f.lens[0..] == f.lens;
    MarkOfAppend(r.segs, Kept(r, f));
    SplitAtPacket(r);
    AppendAssociates(done, Slice(g, a, s), Slice(g, s, e));
    AppendOfSlices(g, a, s, e);
    LengthOfSlice(g, a, s);
    LengthOfAppend(done, Slice(g, a, s));
    LengthOfPrefix(r);
    LastClosedOverOpen(g.lac, a, s, e);
    AdmitKeepsConsistent(r, f);
    Absorb(Admit(r, f), done, g, a, e);
  }

  lemma LengthOfPrefix(r: Decoder)
    requires r.Consistent()
    ensures |Slice(r.segs, 0, r.packet).lac| == r.packet
  {
  }

  lemma LastClosedOverOpen(lac: seq<Lacing>, a: nat, s: nat, e: nat)
    requires a <= s <= e <= |lac| && forall i :: a <= i < s ==> !Ends(lac[i])
    ensures LastClosed(lac, a, e) == if LastClosed(lac, s, e) > s then LastClosed(lac, s, e) else if a < s then a else s
  {
  }

  /** The decoder stands at a loss: the page's leading segments are dropped up to the end of the lost packet. */
  lemma AdmitOrphan(r: Decoder, fs: seq<Fields>, serialno: int, j: nat)
    requires Coherent(fs, serialno) && j < |fs| && r.Consistent() && r.packet == |r.segs.lac|
    requires Orphan(r, fs[j])
    ensures Cut(fs, j) + Skipped(fs[j].lens) <= Cut(fs, j + 1) <= |Assemble(fs).lac|
    ensures Admit(r, fs[j]).Consistent()
    ensures Admit(r, fs[j]).Pending()
         == r.Pending() + StreamEvents(Assemble(fs), Cut(fs, j) + Skipped(fs[j].lens), Cut(fs, j + 1))
    ensures var d, k := Admit(r, fs[j]), Skipped(fs[j].lens);
            if k < |fs[j].lens| then
              var n := LastClosed(Assemble(fs).lac, Cut(fs, j) + k, Cut(fs, j + 1));
              Slice(d.segs, d.packet, |d.segs.lac|) == Slice(Assemble(fs), n, Cut(fs, j + 1))
            else d.packet == |d.segs.lac| && d.segs == MarkIf(fs[j].eos, r.segs)
  {
    hide Assemble, Cut, Orphan, Events, Decoder.Consistent, Slice, Completed, MarkLast, Append, Kept, Decoder.Pending, Skipped;
    var f, g, s, e, k := fs[j], Assemble(fs), Cut(fs, j), Cut(fs, j + 1), Skipped(fs[j].lens);
    PendingIsEvents(r);
    KeptIsSlice(r, fs, serialno, j);
    CompletedIsLastClosed(fs, j, k);
    assert CoherentAt(fs, serialno, j);
    AdmitKeepsConsistent(r, f);
    AllClosed(r);
    if k < |f.lens| {
      MarkOfAppend(r.segs, Kept(r, f));
      SkipEndsPacket(fs, j);
      Absorb(Admit(r, f), r.segs, g, s + k, e);
    } else {
      NothingKept(r, f);
      if f.eos {
        MarkedHoleIsHole(r, f);
      }
      PendingIsEvents(Admit(r, f));
      assert StreamEvents(g, e, e) == [];
    }
  }

  lemma AllClosed(r: Decoder)
    requires r.Consistent() && r.packet == |r.segs.lac|
    ensures r.segs.Closed() && r.Pending() == Events(r.segs, |r.segs.lac|)
  {
  }

  lemma SkipEndsPacket(fs: seq<Fields>, j: nat)
    requires AllValid(fs) && j < |fs| && Skipped(fs[j].lens) < |fs[j].lens|
    ensures Cut(fs, j) + Skipped(fs[j].lens) <= |Assemble(fs).lac|
    ensures ClosedAt(Assemble(fs), Cut(fs, j) + Skipped(fs[j].lens))
  {
    hide Assemble, Cut;
    PageValues(fs, j, Skipped(fs[j].lens) - 1);
  }

  lemma NothingKept(r: Decoder, f: Fields)
    requires f.Valid() && Kept(r, f) == NONE && r.packet == |r.segs.lac|
    ensures Admit(r, f).segs == MarkIf(f.eos, r.segs) && Admit(r, f).packet == |r.segs.lac|
  {
    hide Kept;
    AppendNone(r.segs);
    assert f.lens[|f.lens|..] == [];
  }

  /** The last-page flag on a loss marker changes nothing a reader sees. */
  lemma MarkedHoleIsHole(r: Decoder, f: Fields)
    requires r.Consistent() && Orphan(r, f)
    ensures MarkLast(r.segs).Valid() && Events(MarkLast(r.segs), |r.segs.lac|) == Events(r.segs, |r.segs.lac|)
  {
    hide Off, EventAt;
    var s := r.segs;
    OffAfterMark(s, |s.lac|);
    if s.lac != [] {
      var n := |s.lac| - 1;
      SliceIsValid(s, 0, n);
      SliceIsValid(s, n, n + 1);
      AppendOfSlices(s, 0, n, n + 1);
      WholeSlice(s);
      MarkOfAppend(Slice(s, 0, n), Slice(s, n, n + 1));
      OffAfterMark(Slice(s, n, n + 1), 1);
      EventsOfFirst(Slice(s, 0, n), Slice(s, n, n + 1), n);
      EventsOfFirst(Slice(s, 0, n), MarkLast(Slice(s, n, n + 1)), n);
      HoleEvent(s, n);
      HoleEvent(MarkLast(s), n);
    }
  }

  lemma HoleEvent(s: Segs, n: nat)
    requires s.Valid() && n < |s.lac| && s.lac[n].hole
    ensures EventAt(s, n) == Hole
  {
  }

  lemma {:induction false} WholeAreStream(fs: seq<Fields>, D: seq<nat>, lo: nat, from: nat, hi: nat)
    requires AllValid(fs) && lo <= hi <= |Assemble(fs).lac|
    requires forall e :: lo <= e < hi && Ends(Assemble(fs).lac[e]) ==> (Whole(fs, D, e) <==> e >= from)
    requires forall e :: from <= e < lo ==> !Ends(Assemble(fs).lac[e])
    ensures WholeEvents(fs, D, lo, hi) == StreamEvents(Assemble(fs), from, hi)
    decreases hi
  {
    hide Assemble, EventAt, Whole;
    if lo == hi {
      if from <= lo {
        NoStreamEvents(Assemble(fs), from, from, lo);
      }
    } else {
      WholeAreStream(fs, D, lo, from, hi - 1);
    }
  }

  lemma PageAlone(fs: seq<Fields>, D: seq<nat>, j: nat, b: nat, s: nat)
    requires AllValid(fs) && j < |fs| && j in D && Cut(fs, j) <= b <= s <= Cut(fs, j + 1)
    ensures Delivered(fs, D, b, s)
  {
    hide Cut;
    forall p: nat | p < |fs| && Cut(fs, p) < s && b < Cut(fs, p + 1) ensures p == j {
      if p < j {
        CutIsMonotone(fs, p + 1, j);
      } else if j < p {
        CutIsMonotone(fs, j + 1, p);
      }
    }
  }

  lemma PageJoins(fs: seq<Fields>, D: seq<nat>, serialno: int, j: nat, a: nat, s: nat)
    requires Coherent(fs, serialno) && j < |fs| && j in D && a < Cut(fs, j) < s <= Cut(fs, j + 1)
    ensures Delivered(fs, D, a, s) <==> Delivered(fs, D, a, Cut(fs, j))
  {
    hide Cut;
    forall p: nat | p < |fs| && Cut(fs, p) < s && a < Cut(fs, p + 1) && p != j ensures Cut(fs, p) < Cut(fs, j) {
      if j < p {
        CutIsMonotone(fs, j + 1, p);
      } else {
        assert CoherentAt(fs, serialno, p);
        CutIsMonotone(fs, p, p + 1);
        CutIsMonotone(fs, p + 1, j);
      }
    }
  }

  lemma {:induction false} StartIs(lac: seq<Lacing>, b: nat, e: nat)
    requires b <= e < |lac| && (b == 0 || Ends(lac[b - 1])) && forall i :: b <= i < e ==> !Ends(lac[i])
    ensures Start(lac, e) == b
  {
    if b < e {
      StartIs(lac, b, e - 1);
    }
  }

  lemma StartIsAtLeast(lac: seq<Lacing>, b: nat, e: nat)
    requires b <= e < |lac| && (b == 0 || Ends(lac[b - 1]))
    ensures b <= Start(lac, e)
  {
  }

  /** On a page whose leading packet is open and has arrived so far (or that has none), every packet is whole. */
  lemma JoinedPageIsWhole(fs: seq<Fields>, D: seq<nat>, serialno: int, j: nat, a: nat, e: nat)
    requires Coherent(fs, serialno) && j < |fs| && j in D
    requires a <= Cut(fs, j) <= e < Cut(fs, j + 1) <= |Assemble(fs).lac|
    requires ClosedAt(Assemble(fs), a) && forall i :: a <= i < Cut(fs, j) ==> !Ends(Assemble(fs).lac[i])
    requires a < Cut(fs, j) ==> Delivered(fs, D, a, Cut(fs, j))
    ensures Whole(fs, D, e)
  {
    hide Assemble, Cut;
    var lac := Assemble(fs).lac;
    var b := Start(lac, e);
    StartIsAtLeast(lac, a, e);
    if b < Cut(fs, j) {
      assert b == a;
      PageJoins(fs, D, serialno, j, a, e + 1);
    } else {
      PageAlone(fs, D, j, b, e + 1);
    }
  }

  lemma AlignedAfterJoin(d: Decoder, fs: seq<Fields>, D: seq<nat>, serialno: int, j: nat, a: nat)
    requires Coherent(fs, serialno) && j < |fs| && j in D && d.Consistent()
    requires a <= Cut(fs, j + 1) <= |Assemble(fs).lac| && ClosedAt(Assemble(fs), a)
    requires a < Cut(fs, j) < Cut(fs, j + 1) ==> Delivered(fs, D, a, Cut(fs, j))
    requires a < Cut(fs, j + 1) || ClosedAt(Assemble(fs), Cut(fs, j + 1))
    requires Slice(d.segs, d.packet, |d.segs.lac|)
          == Slice(Assemble(fs), LastClosed(Assemble(fs).lac, a, Cut(fs, j + 1)), Cut(fs, j + 1))
    requires Cut(fs, j) < Cut(fs, j + 1)
    ensures Aligned(d, fs, D, Cut(fs, j + 1))
  {
    hide Assemble, Cut, Delivered, Slice;
    var g, s := Assemble(fs), Cut(fs, j + 1);
    var n := LastClosed(g.lac, a, s);
    LengthOfSlice(g, n, s);
    LengthOfSlice(d.segs, d.packet, |d.segs.lac|);
    if n < s {
      StartIs(g.lac, n, s - 1);
      TailIsDelivered(fs, D, serialno, j, a, n);
    }
  }

  lemma TailIsDelivered(fs: seq<Fields>, D: seq<nat>, serialno: int, j: nat, a: nat, n: nat)
    requires Coherent(fs, serialno) && j < |fs| && j in D && a <= n < Cut(fs, j + 1) && Cut(fs, j) < Cut(fs, j + 1)
    requires a < Cut(fs, j) ==> Delivered(fs, D, a, Cut(fs, j))
    ensures Delivered(fs, D, n, Cut(fs, j + 1))
  {
    hide Cut, Delivered;
    if n < Cut(fs, j) {
      DeliveredSuffix(fs, D, a, n, Cut(fs, j));
      PageJoins(fs, D, serialno, j, n, Cut(fs, j + 1));
    } else {
      PageAlone(fs, D, j, n, Cut(fs, j + 1));
    }
  }

  lemma DeliveredSuffix(fs: seq<Fields>, D: seq<nat>, a: nat, n: nat, s: nat)
    requires AllValid(fs) && a <= n && Delivered(fs, D, a, s)
    ensures Delivered(fs, D, n, s)
  {
  }

  lemma JoinedStep(r: Decoder, fs: seq<Fields>, D: seq<nat>, serialno: int, j: nat, a: nat)
    requires Coherent(fs, serialno) && j < |fs| && j in D && r.Consistent()
    requires Cut(fs, j) <= |Assemble(fs).lac| && a <= Cut(fs, j) && ClosedAt(Assemble(fs), a)
    requires forall i :: a <= i < Cut(fs, j) ==> !Ends(Assemble(fs).lac[i])
    requires a < Cut(fs, j) ==> Delivered(fs, D, a, Cut(fs, j))
    requires Slice(r.segs, r.packet, |r.segs.lac|) == Slice(Assemble(fs), a, Cut(fs, j))
    requires !Orphan(r, fs[j])
    ensures Cut(fs, j + 1) <= |Assemble(fs).lac| && Aligned(Admit(r, fs[j]), fs, D, Cut(fs, j + 1))
    ensures Admit(r, fs[j]).Pending() == r.Pending() + Page(fs, D, j)
  {
    hide Assemble, Cut, Admit, Orphan, Slice, Decoder.Pending, Decoder.Consistent, StreamEvents, WholeEvents, LastClosed,
      EventAt, Delivered, Aligned;
    assert CoherentAt(fs, serialno, j);
    PageOfAssembly(fs, j);
    AdmitJoined(r, fs, serialno, j, a);
    AlignedAfterJoin(Admit(r, fs[j]), fs, D, serialno, j, a);
    JoinedPageIsStream(fs, D, serialno, j, a);
  }

  lemma JoinedPageIsStream(fs: seq<Fields>, D: seq<nat>, serialno: int, j: nat, a: nat)
    requires Coherent(fs, serialno) && j < |fs| && j in D
    requires Cut(fs, j) <= Cut(fs, j + 1) <= |Assemble(fs).lac| && a <= Cut(fs, j) && ClosedAt(Assemble(fs), a)
    requires forall i :: a <= i < Cut(fs, j) ==> !Ends(Assemble(fs).lac[i])
    requires a < Cut(fs, j) ==> Delivered(fs, D, a, Cut(fs, j))
    ensures WholeEvents(fs, D, Cut(fs, j), Cut(fs, j + 1)) == StreamEvents(Assemble(fs), a, Cut(fs, j + 1))
  {
    hide Assemble, Cut, StreamEvents, WholeEvents, Delivered, CoherentAt;
    forall e | Cut(fs, j) <= e < Cut(fs, j + 1) && Ends(Assemble(fs).lac[e]) ensures Whole(fs, D, e) {
      JoinedPageIsWhole(fs, D, serialno, j, a, e);
    }
    WholeAreStream(fs, D, Cut(fs, j), a, Cut(fs, j + 1));
  }

  /** On a page whose leading packet has lost its beginning, exactly the packets after that one are whole. */
  lemma OrphanPageIsWholeAfter(fs: seq<Fields>, D: seq<nat>, serialno: int, j: nat, e: nat)
    requires Coherent(fs, serialno) && j < |fs| && j in D
    requires 0 < Cut(fs, j) <= e < Cut(fs, j + 1) <= |Assemble(fs).lac| && Ends(Assemble(fs).lac[e])
    requires !ClosedAt(Assemble(fs), Cut(fs, j))
    requires !Delivered(fs, D, Start(Assemble(fs).lac, Cut(fs, j) - 1), Cut(fs, j))
    ensures Whole(fs, D, e) <==> e >= Cut(fs, j) + Skipped(fs[j].lens)
  {
    hide Assemble, Cut, Skipped;
    var lac, s, k := Assemble(fs).lac, Cut(fs, j), Skipped(fs[j].lens);
    assert CoherentAt(fs, serialno, j);
    PageOfAssembly(fs, j);
    forall i | s <= i < s + k - 1 ensures !Ends(lac[i]) {
      PageValues(fs, j, i - s);
    }
    if e < s + k {
      StartIs(lac, Start(lac, s - 1), e);
      PageJoins(fs, D, serialno, j, Start(lac, s - 1), e + 1);
    } else {
      SkipEndsPacket(fs, j);
      StartIsAtLeast(lac, s + k, e);
      PageAlone(fs, D, j, Start(lac, e), e + 1);
    }
  }

  lemma AlignedAfterOrphan(d: Decoder, r: Decoder, fs: seq<Fields>, D: seq<nat>, serialno: int, j: nat)
    requires Coherent(fs, serialno) && j + 1 < |fs| && j in D && d.Consistent()
    requires 0 < Cut(fs, j) < Cut(fs, j + 1) <= |Assemble(fs).lac|
    requires !ClosedAt(Assemble(fs), Cut(fs, j))
    requires !Delivered(fs, D, Start(Assemble(fs).lac, Cut(fs, j) - 1), Cut(fs, j))
    requires Skipped(fs[j].lens) == |fs[j].lens| && Orphan(r, fs[j])
    requires d.packet == |d.segs.lac| && d.segs == MarkIf(fs[j].eos, r.segs)
    ensures Aligned(d, fs, D, Cut(fs, j + 1))
  {
    hide Assemble, Cut, Skipped, Decoder.Consistent, Delivered, Slice;
    var lac, s, e := Assemble(fs).lac, Cut(fs, j), Cut(fs, j + 1);
    assert CoherentAt(fs, serialno, j);
    PageOfAssembly(fs, j);
    if !Ends(lac[e - 1]) {
      forall i | s <= i < e ensures !Ends(lac[i]) {
        PageValues(fs, j, i - s);
      }
      StartIs(lac, Start(lac, s - 1), e - 1);
      PageJoins(fs, D, serialno, j, Start(lac, s - 1), e);
    }
  }

  lemma OrphanStep(r: Decoder, fs: seq<Fields>, D: seq<nat>, serialno: int, j: nat)
    requires Coherent(fs, serialno) && j < |fs| && j in D && r.Consistent() && r.packet == |r.segs.lac|
    requires 0 < Cut(fs, j) <= |Assemble(fs).lac| && !ClosedAt(Assemble(fs), Cut(fs, j))
    requires !Delivered(fs, D, Start(Assemble(fs).lac, Cut(fs, j) - 1), Cut(fs, j))
    requires Orphan(r, fs[j])
    ensures Admit(r, fs[j]).Consistent() && Cut(fs, j + 1) <= |Assemble(fs).lac|
    ensures Admit(r, fs[j]).Pending() == r.Pending() + Page(fs, D, j)
    ensures j + 1 < |fs| ==> Aligned(Admit(r, fs[j]), fs, D, Cut(fs, j + 1))
  {
    hide Assemble, Cut, Admit, Orphan, Slice, Decoder.Pending, StreamEvents, WholeEvents, LastClosed, Skipped, Delivered, Start;
    var s, k := Cut(fs, j), Skipped(fs[j].lens);
    assert CoherentAt(fs, serialno, j);
    PageOfAssembly(fs, j);
    AdmitOrphan(r, fs, serialno, j);
    OrphanPageEvents(fs, D, serialno, j);
    if k < |fs[j].lens| {
      SkipEndsPacket(fs, j);
      AlignedAfterJoin(Admit(r, fs[j]), fs, D, serialno, j, s + k);
    } else if j + 1 < |fs| {
      AlignedAfterOrphan(Admit(r, fs[j]), r, fs, D, serialno, j);
    }
  }

  lemma OrphanPageEvents(fs: seq<Fields>, D: seq<nat>, serialno: int, j: nat)
    requires Coherent(fs, serialno) && j < |fs| && j in D
    requires 0 < Cut(fs, j) <= Cut(fs, j + 1) <= |Assemble(fs).lac| && !ClosedAt(Assemble(fs), Cut(fs, j))
    requires !Delivered(fs, D, Start(Assemble(fs).lac, Cut(fs, j) - 1), Cut(fs, j))
    ensures Page(fs, D, j) == StreamEvents(Assemble(fs), Cut(fs, j) + Skipped(fs[j].lens), Cut(fs, j + 1))
  {
    hide Assemble, Cut, StreamEvents, WholeEvents, Skipped, Delivered, Start, Whole;
    var s, k := Cut(fs, j), Skipped(fs[j].lens);
    forall e | s <= e < Cut(fs, j + 1) && Ends(Assemble(fs).lac[e]) ensures Whole(fs, D, e) <==> e >= s + k {
      OrphanPageIsWholeAfter(fs, D, serialno, j, e);
    }
    WholeAreStream(fs, D, s, s + k, Cut(fs, j + 1));
  }

  lemma EmptySlice(s: Segs, i: nat)
    requires s.Valid() && i <= |s.lac|
    ensures Slice(s, i, i) == NONE
  {
    OffIsMonotone(s.lac, i, |s.lac|);
    assert s.lac[i..i] == [] && s.gran[i..i] == [] && s.body[Off(s.lac, i)..Off(s.lac, i)] == [];
  }

  lemma LastOfOpen(d: Decoder, g: Segs, a: nat, s: nat)
    requires d.Consistent() && g.Valid() && a < s <= |g.lac| && Slice(d.segs, d.packet, |d.segs.lac|) == Slice(g, a, s)
    ensures d.segs.lac != [] && d.segs.lac[|d.segs.lac| - 1] == g.lac[s - 1]
  {
    var x, y := Slice(d.segs, d.packet, |d.segs.lac|).lac, Slice(g, a, s).lac;
    assert |x| == |y| && x[|x| - 1] == y[|y| - 1];
  }

  lemma AdmitStep(r: Decoder, fs: seq<Fields>, D: seq<nat>, serialno: int, j: nat)
    requires Coherent(fs, serialno) && j < |fs| && j in D
    requires Cut(fs, j) <= |Assemble(fs).lac| && Aligned(r, fs, D, Cut(fs, j))
    ensures Admit(r, fs[j]).Consistent() && Cut(fs, j + 1) <= |Assemble(fs).lac|
    ensures Admit(r, fs[j]).Pending() == r.Pending() + Page(fs, D, j)
    ensures j + 1 < |fs| ==> Aligned(Admit(r, fs[j]), fs, D, Cut(fs, j + 1))
  {
    hide Assemble, Cut, Admit, Slice, Decoder.Pending, Page, Delivered;
    var g, s := Assemble(fs), Cut(fs, j);
    ContinuedAt(fs, serialno, j);
    if ClosedAt(g, s) {
      EmptySlice(g, s);
      EmptySlice(r.segs, r.packet);
      JoinedStep(r, fs, D, serialno, j, s);
    } else {
      var a := Start(g.lac, s - 1);
      if Delivered(fs, D, a, s) {
        LastOfOpen(r, g, a, s);
        JoinedStep(r, fs, D, serialno, j, a);
      } else {
        OrphanStep(r, fs, D, serialno, j);
      }
    }
  }

  // ----- Resynchronising -----

  lemma MissingPage(fs: seq<Fields>, D: seq<nat>, serialno: int, j: nat)
    requires Coherent(fs, serialno) && j < |fs| && j > 0 && j - 1 !in D
    requires 0 < Cut(fs, j) <= |Assemble(fs).lac|
    ensures !Delivered(fs, D, Start(Assemble(fs).lac, Cut(fs, j) - 1), Cut(fs, j))
  {
    hide Assemble, Cut;
    assert CoherentAt(fs, serialno, j - 1);
    CutIsMonotone(fs, j - 1, j);
    assert Cut(fs, j - 1 + 1) == Cut(fs, j);
  }

  lemma LossIsHole(d: Decoder)
    requires d.Consistent() && d.packet == |d.segs.lac|
    ensures d.(segs := Append(d.segs, LOSS), packet := d.packet + 1).Consistent()
    ensures d.(segs := Append(d.segs, LOSS), packet := d.packet + 1).Pending() == d.Pending() + [Hole]
  {
    hide Off, EventAt;
    AddLoss(d);
    LossIsValid();
    EventsOfAppend(d.segs, LOSS, 1);
    HoleEvent(LOSS, 0);
    assert Events(LOSS, 0) == [];
  }

  lemma DropOpen(d: Decoder)
    requires d.Consistent()
    ensures d.(segs := Slice(d.segs, 0, d.packet)).Consistent()
    ensures d.(segs := Slice(d.segs, 0, d.packet)).Pending() == d.Pending()
    ensures |Slice(d.segs, 0, d.packet).lac| == d.packet
  {
    hide EventAt;
    SplitAtPacket(d);
  }

  ghost predicate Expecting(d: Decoder, fs: seq<Fields>, D: seq<nat>, fromZero: bool, t: nat)
    requires AllValid(fs) && Subset(fs, D) && t <= |D|
  {
    && d.Consistent()
    && if t == 0 then d.segs == NONE && d.packet == 0 && d.pageno == (if fromZero then 0 else -1)
       else d.pageno == D[t - 1] + 1 &&
            (D[t - 1] + 1 < |fs| ==>
              Cut(fs, D[t - 1] + 1) <= |Assemble(fs).lac| && Aligned(d, fs, D, Cut(fs, D[t - 1] + 1)))
  }

  lemma ResyncStep(d: Decoder, fs: seq<Fields>, D: seq<nat>, serialno: int, fromZero: bool, t: nat)
    requires Coherent(fs, serialno) && Subset(fs, D) && t < |D| && Expecting(d, fs, D, fromZero, t)
    ensures var r := Resync(d, fs[D[t]]);
            && r.Consistent() && Cut(fs, D[t]) <= |Assemble(fs).lac| && Aligned(r, fs, D, Cut(fs, D[t]))
            && r.Pending() == d.Pending() + (if Gap(D, fromZero, t) then [Hole] else [])
  {
    hide Assemble, Cut, Slice, Delivered, Decoder.Pending, Append;
    var j := D[t];
    var s := Cut(fs, j);
    assert CoherentAt(fs, serialno, j);
    ContinuedAt(fs, serialno, j);
    DropOpen(d);
    var kept := d.(segs := Slice(d.segs, 0, d.packet));
    LossIsHole(kept);
    LastOfLoss(kept.segs);
    if j > 0 && (t == 0 || D[t - 1] != j - 1) && s > 0 {
      NotDelivered(fs, D, t);
      MissingPage(fs, D, serialno, j);
    }
    if t == 0 {
      EmptySlice(NONE, 0);
      FirstCut(fs);
    }
  }

  lemma FirstCut(fs: seq<Fields>)
    requires AllValid(fs)
    ensures Cut(fs, 0) == 0
  {
    assert fs[..0] == [];
  }

  lemma LastOfLoss(s: Segs)
    ensures Append(s, LOSS).lac != [] && Append(s, LOSS).lac[|Append(s, LOSS).lac| - 1] == HOLE
    ensures |Append(s, LOSS).lac| == |s.lac| + 1
  {
  }

  lemma NotDelivered(fs: seq<Fields>, D: seq<nat>, t: nat)
    requires Subset(fs, D) && t < |D| && D[t] > 0 && (t > 0 ==> D[t - 1] != D[t] - 1)
    ensures D[t] - 1 !in D
  {
    forall u | 0 <= u < |D| ensures D[u] != D[t] - 1 {
      if u < t {
        assert u < t - 1 ==> D[u] < D[t - 1];
      }
    }
  }

  // ----- Whole runs -----

  /** A page arrives, or the reader asks for a packet. */
  datatype Action = Submit(page: nat) | Take

  function Submitted(run: seq<Action>): seq<nat> {
    if run == [] then []
    else
      var last := run[|run| - 1];
      Submitted(run[..|run| - 1]) + (if last.Submit? then [last.page] else [])
  }

  ghost predicate InRange(fs: seq<Fields>, run: seq<Action>) {
    forall i :: 0 <= i < |run| && run[i].Submit? ==> run[i].page < |fs|
  }

  /** The decoder after a run, and everything the reader was handed. */
  function Decode(d: Decoder, fs: seq<Fields>, run: seq<Action>): (r: (Decoder, seq<Event>))
    requires d.Consistent() && AllValid(fs) && InRange(fs, run)
    ensures r.0.Consistent()
  {
    if run == [] then (d, [])
    else
      var (e, out) := Decode(d, fs, run[..|run| - 1]);
      match run[|run| - 1]
      case Submit(j) =>
        PageInKeepsConsistent(e, fs[j]);
        (PageIn(e, fs[j]), out)
      case Take =>
        PacketOutPops(e);
        var (next, event) := PacketOut(e);
        (next, if event.Some? then out + [event.value] else out)
  }

  lemma TakeKeepsExpecting(d: Decoder, fs: seq<Fields>, D: seq<nat>, fromZero: bool, t: nat)
    requires AllValid(fs) && Subset(fs, D) && t <= |D| && Expecting(d, fs, D, fromZero, t)
    ensures Expecting(PacketOut(d).0, fs, D, fromZero, t)
  {
    hide Assemble, Cut, Delivered, Start, Slice, Decoder.Consistent, PacketOut;
    PacketOutPops(d);
    if d.packet > 0 {
      TakeKeepsOpen(d);
    } else {
      NothingToTake(d);
    }
  }

  lemma NothingToTake(d: Decoder)
    requires d.Consistent() && d.packet == 0
    ensures PacketOut(d).0 == d
  {
  }

  lemma TakeKeepsOpen(d: Decoder)
    requires d.Consistent() && d.packet > 0
    ensures var e := PacketOut(d).0;
            && e.Consistent() && e.pageno == d.pageno
            && Slice(e.segs, e.packet, |e.segs.lac|) == Slice(d.segs, d.packet, |d.segs.lac|)
            && |e.segs.lac| - e.packet == |d.segs.lac| - d.packet
            && (e.segs.lac != [] ==> e.segs.lac[|e.segs.lac| - 1] == d.segs.lac[|d.segs.lac| - 1])
  {
    hide Off, HeadEvent, LastOfHead, Slice, Decoder.Consistent;
    var n := LastOfHead(d);
    DropHeadKeepsConsistent(d, n);
    RestOfTables(d, n + 1);
    SliceWithin(d.segs, n + 1, |d.segs.lac|, d.packet);
  }

  lemma RestOfTables(d: Decoder, i: nat)
    requires d.Consistent() && i <= d.packet
    ensures d.segs.Valid() && d.packet <= |d.segs.lac| && Slice(d.segs, i, |d.segs.lac|).lac == d.segs.lac[i..]
  {
    hide Off;
  }

  lemma SubmitStep(d: Decoder, fs: seq<Fields>, D: seq<nat>, serialno: int, fromZero: bool, t: nat)
    requires Coherent(fs, serialno) && Subset(fs, D) && t < |D| && Expecting(d, fs, D, fromZero, t)
    requires d.serialno == serialno
    ensures var e := PageIn(d, fs[D[t]]);
            && Expecting(e, fs, D, fromZero, t + 1) && e.serialno == serialno
            && e.Pending() == d.Pending() + (if Gap(D, fromZero, t) then [Hole] else []) + Page(fs, D, D[t])
  {
    hide Assemble, Cut, Aligned, Resync, Admit, Page, Gap, Decoder.Pending, Decoder.Consistent;
    var j := D[t];
    assert CoherentAt(fs, serialno, j);
    ResyncStep(d, fs, D, serialno, fromZero, t);
    AdmitStep(Resync(d, fs[j]), fs, D, serialno, j);
    ResyncSerial(d, fs[j]);
    SameTablesSameReading(Admit(Resync(d, fs[j]), fs[j]), PageIn(d, fs[j]), fs, D, j);
  }

  lemma SameTablesSameReading(d: Decoder, e: Decoder, fs: seq<Fields>, D: seq<nat>, j: nat)
    requires AllValid(fs) && j < |fs| && d.Consistent() && e.segs == d.segs && e.packet == d.packet
    ensures e.Consistent() && e.Pending() == d.Pending()
    ensures Cut(fs, j + 1) <= |Assemble(fs).lac| && Aligned(d, fs, D, Cut(fs, j + 1)) ==> Aligned(e, fs, D, Cut(fs, j + 1))
  {
    hide Assemble, Cut, Slice, Delivered;
  }

  lemma ResyncSerial(d: Decoder, f: Fields)
    requires d.Consistent() && f.Valid()
    ensures Resync(d, f).serialno == d.serialno && Admit(Resync(d, f), f).serialno == d.serialno
  {
  }

  lemma {:induction false} LossInvariant(d: Decoder, fs: seq<Fields>, D: seq<nat>, serialno: int, fromZero: bool,
                                        run: seq<Action>, t: nat)
    requires Coherent(fs, serialno) && Subset(fs, D) && InRange(fs, run) && t <= |D| && Submitted(run) == D[..t]
    requires Expecting(d, fs, D, fromZero, 0) && d.serialno == serialno
    ensures var (e, out) := Decode(d, fs, run);
            && Expecting(e, fs, D, fromZero, t) && e.serialno == serialno
            && out + e.Pending() == Expected(fs, D, fromZero, t)
    decreases |run|
  {
    hide Page, PageIn, PacketOut, Expecting, Decoder.Consistent, Decoder.Pending, Gap, Assemble, CoherentAt;
    NothingPending(d, fs, D, fromZero);
    if run != [] {
      var before, last := run[..|run| - 1], run[|run| - 1];
      match last
      case Submit(j) =>
        SubmittedSplit(run, D, t);
        LossInvariant(d, fs, D, serialno, fromZero, before, t - 1);
        var (e, out) := Decode(d, fs, before);
        SubmitStep(e, fs, D, serialno, fromZero, t - 1);
        Seqs.ConcatAssociates(out, e.Pending(), if Gap(D, fromZero, t - 1) then [Hole] else []);
        Seqs.ConcatAssociates(out, e.Pending() + (if Gap(D, fromZero, t - 1) then [Hole] else []), Page(fs, D, j));
      case Take =>
        LossInvariant(d, fs, D, serialno, fromZero, before, t);
        var (e, out) := Decode(d, fs, before);
        TakeKeepsExpecting(e, fs, D, fromZero, t);
        PacketOutPops(e);
        TakeKeepsSerial(e);
        if PacketOut(e).1.Some? {
          Seqs.ConcatAssociates(out, [PacketOut(e).1.value], PacketOut(e).0.Pending());
        }
    }
  }

  lemma SubmittedSplit(run: seq<Action>, D: seq<nat>, t: nat)
    requires run != [] && run[|run| - 1].Submit? && t <= |D| && Submitted(run) == D[..t]
    ensures t > 0 && Submitted(run[..|run| - 1]) == D[..t - 1] && D[t - 1] == run[|run| - 1].page
  {
    assert Submitted(run) == Submitted(run[..|run| - 1]) + [run[|run| - 1].page];
    assert D[..t - 1] == D[..t][..t - 1];
    assert D[..t][t - 1] == run[|run| - 1].page;
  }

  lemma TakeKeepsSerial(d: Decoder)
    requires d.Consistent()
    ensures PacketOut(d).0.serialno == d.serialno
  {
  }

  lemma NothingPending(d: Decoder, fs: seq<Fields>, D: seq<nat>, fromZero: bool)
    requires AllValid(fs) && Subset(fs, D) && Expecting(d, fs, D, fromZero, 0)
    ensures d.Consistent() && d.Pending() == []
  {
  }

  /** Deliver any subset of a stream's pages, in order, to a fresh or reset decoder, and read packets at any moments:
      what the reader was handed, followed by what it can still read, is exactly the packets that lie wholly on
      delivered pages, with one loss marker for each gap. No part of two packets is ever joined. */
  lemma LossSafety(fs: seq<Fields>, serialno: int, fromZero: bool, run: seq<Action>)
    requires Coherent(fs, serialno) && InRange(fs, run) && Subset(fs, Submitted(run))
    ensures var start := if fromZero then Initial(serialno) else Reset(Initial(serialno));
            && start.Consistent()
            && var (e, out) := Decode(start, fs, run);
               out + e.Pending() == Expected(fs, Submitted(run), fromZero, |Submitted(run)|)
  {
    var start := if fromZero then Initial(serialno) else Reset(Initial(serialno));
    var D := Submitted(run);
    assert D[..|D|] == D;
    LossInvariant(start, fs, D, serialno, fromZero, run, |D|);
  }
}
