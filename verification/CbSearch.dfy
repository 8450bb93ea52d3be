/** CbSearch: the search for a sequence of codebook indices, keeping the N best as it goes from subvector to subvector. */
module CbSearch {
  import BitOps
  import opened FixedPoint
  import opened NBest
  import opened Vq
  import opened CbShape
  import opened CbSurvivors

  /** What a search is over: the codebook, its weighted responses and their energies, the target, and the impulse
      response. */
  datatype Search = Search(p: Params, rows: seq<int16>, energy: seq<int>, target: seq<int16>, r: seq<int16>) {
    ghost predicate Valid() {
      && p.Valid() && |target| == |r| == p.nb * p.subvect
      && |energy| == p.Size() && Book().Valid()
    }

    ghost function Book(): Codebook { Codebook(rows, energy, p.subvect) }
  }

  ghost predicate Path(s: Search, path: seq<nat>) {
    s.Valid() && Indexes(s.p, path) && |path| <= s.p.nb
  }

  // ----- What a sequence of indices leaves of the target, and what it costs -----

  /** The response to one shape, d samples on from its start: its first t samples against the impulse response. */
  ghost function Response(s: Search, index: nat, d: nat, t: nat): int
    requires s.p.Valid() && index < s.p.Indices() && t <= s.p.subvect <= d < |s.r|
  {
    if t == 0 then 0
    else Response(s, index, d, t - 1) + RoundShift(Mult16(Gain(s.p, index, t - 1), s.r[d - (t - 1)]), 13)
  }

  /** The responses to all of the shapes so far, at sample n. */
  ghost function Responses(s: Search, path: seq<nat>, n: nat): int
    requires Path(s, path) && |path| * s.p.subvect <= n < |s.r|
    decreases |path|
  {
    if path == [] then 0
    else
      var k := |path| - 1;
      assert |path| * s.p.subvect == k * s.p.subvect + s.p.subvect && 0 <= k * s.p.subvect;
      Responses(s, path[..k], n) + Response(s, path[k], n - k * s.p.subvect, s.p.subvect)
  }

  /** What is left of the target at sample n. */
  ghost function Residual(s: Search, path: seq<nat>, n: nat): int16
    requires Path(s, path) && |path| * s.p.subvect <= n < |s.r|
  {
    Wrap16(s.target[n] - Responses(s, path, n))
  }

  lemma SegmentFits(s: Search, i: nat)
    requires s.Valid() && i < s.p.nb
    ensures 0 <= i * s.p.subvect && i * s.p.subvect + s.p.subvect == (i + 1) * s.p.subvect <= |s.r|
  {
    RowsFit(i, s.p.nb, s.p.subvect);
  }

  /** The next subvector to be matched. */
  ghost function Segment(s: Search, path: seq<nat>): (x: seq<int16>)
    requires Path(s, path) && |path| < s.p.nb
    ensures |x| == s.p.subvect
  {
    seq<int16>(s.p.subvect, m requires 0 <= m < s.p.subvect => SegmentAt(s, path, m))
  }

  ghost function SegmentAt(s: Search, path: seq<nat>, m: nat): int16
    requires Path(s, path) && |path| < s.p.nb && m < s.p.subvect
  {
    SegmentFits(s, |path|);
    Residual(s, path, |path| * s.p.subvect + m)
  }

  ghost function Norm(x: seq<int16>): int {
    Dot(x, x, 0, |x|)
  }

  /** Matching a subvector by an index: half the energies of both, less the inner product, signed. */
  ghost function StepCost(s: Search, x: seq<int16>, index: nat): int
    requires s.Valid() && |x| == s.p.subvect && index < s.p.Indices()
  {
    var product := Product(x, s.Book(), s.p.Row(index));
    s.energy[s.p.Row(index)] / 2 - (if s.p.Sign(index) == 1 then product else -product) + Norm(x) / 2
  }

  ghost function PathCost(s: Search, path: seq<nat>): int
    requires Path(s, path)
    decreases |path|
  {
    if path == [] then 0
    else
      var k := |path| - 1;
      PathCost(s, path[..k]) + StepCost(s, Segment(s, path[..k]), path[k])
  }

  // ----- One step of the search -----

  /** A path that has survived so far, and the distance recorded for it. */
  datatype Survivor = Survivor(path: seq<nat>, dist: int)

  ghost predicate Surviving(s: Search, vs: seq<Survivor>, i: nat) {
    forall j :: 0 <= j < |vs| ==> Path(s, vs[j].path) && |vs[j].path| == i
  }

  /** Survivor j extended by codebook entry e, with the better sign. */
  ghost function Extension(s: Search, v: Survivor, j: nat, e: nat): Cand
    requires Path(s, v.path) && |v.path| < s.p.nb && e < s.p.Size()
  {
    var x := Segment(s, v.path);
    Moved(Candidate(x, s.Book(), s.p.signed, e), v.dist + Norm(x) / 2, j)
  }

  /** All extensions of one survivor. */
  ghost function ExtensionsOf(s: Search, v: Survivor, j: nat): set<Cand>
    requires Path(s, v.path) && |v.path| < s.p.nb
  {
    set e | 0 <= e < s.p.Size() :: Extension(s, v, j, e)
  }

  /** All extensions of the first n survivors. */
  ghost function Extensions(s: Search, vs: seq<Survivor>, i: nat, n: nat): set<Cand>
    requires Surviving(s, vs, i) && i < s.p.nb && n <= |vs|
  {
    if n == 0 then {} else Extensions(s, vs, i, n - 1) + ExtensionsOf(s, vs[n - 1], n - 1)
  }

  /** The survivor a candidate becomes. */
  ghost function Extended(vs: seq<Survivor>, c: Cand): Survivor {
    Survivor(if c.parent < |vs| then vs[c.parent].path + [c.index] else [], c.dist)
  }

  /** What a place that no candidate took stands for: the first survivor with the first shape, at the largest distance. */
  ghost function Free(vs: seq<Survivor>): Survivor
    requires |vs| > 0
  {
    Survivor(vs[0].path + [0], VERY_LARGE32)
  }

  /** The survivors that a list of candidates makes, n of them. */
  ghost function Following(vs: seq<Survivor>, l: seq<Cand>, n: nat): (a: seq<Survivor>)
    requires |vs| > 0
    ensures |a| == n
  {
    seq(n, r requires 0 <= r < n => if r < |l| then Extended(vs, l[r]) else Free(vs))
  }

  /** The survivors of one step: of all extensions of all survivors before, the n of least distance, in order. With marked
      places, an extension at the largest distance or beyond it is not taken, and places may stay free. */
  ghost predicate Survive(s: Search, before: seq<Survivor>, i: nat, n: nat, marked: bool, l: seq<Cand>,
                          after: seq<Survivor>)
  {
    && Surviving(s, before, i) && i < s.p.nb && |before| > 0
    && Best(l, Offered(Extensions(s, before, i, |before|), marked), n) && (!marked ==> |l| == n)
    && after == Following(before, l, n)
  }

  ghost function Offered(all: set<Cand>, marked: bool): set<Cand> {
    if marked then Below(all, VERY_LARGE32) else all
  }

  /** The distance of an extension is that of its survivor and the cost of the step, and the other sign would cost no
      less. */
  lemma ExtensionCost(s: Search, v: Survivor, j: nat, e: nat)
    requires Path(s, v.path) && |v.path| < s.p.nb && e < s.p.Size()
    ensures var c, x := Extension(s, v, j, e), Segment(s, v.path);
            && c.parent == j && c.entry == e && c.index < s.p.Indices() && s.p.Row(c.index) == e
            && c.dist == v.dist + StepCost(s, x, c.index)
            && c.dist <= v.dist + StepCost(s, x, e)
            && (s.p.signed ==> c.dist <= v.dist + StepCost(s, x, e + s.p.Size()))
  {
    hide Segment, Product, Norm, BitOps.Pow2;
  }

  lemma OneStepMore(s: Search, path: seq<nat>, index: nat)
    requires Path(s, path) && |path| < s.p.nb && index < s.p.Indices()
    ensures Path(s, path + [index])
    ensures PathCost(s, path + [index]) == PathCost(s, path) + StepCost(s, Segment(s, path), index)
  {
    hide StepCost;
    assert (path + [index])[..|path|] == path;
  }

  lemma {:induction false} ParentsOfExtensions(s: Search, vs: seq<Survivor>, i: nat, n: nat)
    requires Surviving(s, vs, i) && i < s.p.nb && n <= |vs|
    ensures forall a :: a in Extensions(s, vs, i, n) ==> a.parent < n
  {
    if n > 0 {
      hide Extension, BitOps.Pow2, StepCost;
      ParentsOfExtensions(s, vs, i, n - 1);
      forall a | a in ExtensionsOf(s, vs[n - 1], n - 1) ensures a.parent == n - 1 {
        var e :| 0 <= e < s.p.Size() && a == Extension(s, vs[n - 1], n - 1, e);
        ExtensionCost(s, vs[n - 1], n - 1, e);
      }
    }
  }

  lemma FoundAreExtensions(s: Search, v: Survivor, j: nat, found: seq<Cand>, n: nat, t: seq<Cand>)
    requires Path(s, v.path) && |v.path| < s.p.nb && |t| == |found|
    requires Best(found, Candidates(Segment(s, v.path), s.Book(), s.p.signed, s.p.Size()), n)
    requires forall k :: 0 <= k < |t| ==> t[k] == Moved(found[k], v.dist + Norm(Segment(s, v.path)) / 2, j)
    ensures Best(t, ExtensionsOf(s, v, j), n) && Ascending(t)
  {
    hide Candidates, ExtensionsOf, Segment, Norm;
    var x, so_far := Segment(s, v.path), v.dist + Norm(Segment(s, v.path)) / 2;
    var all := Candidates(x, s.Book(), s.p.signed, s.p.Size());
    MovedCandidates(s, v, j);
    MovedKeepsBest(found, all, n, so_far, j);
    assert t == seq(|found|, k requires 0 <= k < |found| => Moved(found[k], so_far, j));
  }

  lemma MovedCandidates(s: Search, v: Survivor, j: nat)
    requires Path(s, v.path) && |v.path| < s.p.nb
    ensures var all := Candidates(Segment(s, v.path), s.Book(), s.p.signed, s.p.Size());
            && (set c | c in all :: Moved(c, v.dist + Norm(Segment(s, v.path)) / 2, j)) == ExtensionsOf(s, v, j)
            && forall c :: c in all ==> c.parent == 0
  {
    hide Candidate, Segment, Norm, BitOps.Pow2, Moved;
    TheirEntries(Segment(s, v.path), s.Book(), s.p.signed);
    var x, so_far := Segment(s, v.path), v.dist + Norm(Segment(s, v.path)) / 2;
    var all := Candidates(x, s.Book(), s.p.signed, s.p.Size());
    var there := set c | c in all :: Moved(c, so_far, j);
    forall a | a in there ensures a in ExtensionsOf(s, v, j) {
      var c :| c in all && a == Moved(c, so_far, j);
      var e :| 0 <= e < s.p.Size() && c == Candidate(x, s.Book(), s.p.signed, e);
      assert a == Extension(s, v, j, e);
    }
    forall a | a in ExtensionsOf(s, v, j) ensures a in there {
      var e :| 0 <= e < s.p.Size() && a == Extension(s, v, j, e);
      assert Candidate(x, s.Book(), s.p.signed, e) in all;
    }
  }

  method HalfNorm(x: seq<int16>) returns (t: int)
    ensures t == Norm(x) / 2
  {
    t := 0;
    for m := 0 to |x|
      invariant t == Dot(x, x, 0, m)
    {
      t := t + Mult16(x[m], x[m]);
    }
    t := t / 2;
  }

  /** The work arrays of one search. */
  class Work {
    const n: nat
    const ndist: array<int>
    const odist: array<int>
    const best_nind: array<nat>
    const best_ntarget: array<nat>
    const best_index: array<nat>
    const best_dist: array<int>

    constructor (n: nat)
      ensures this.n == n && Valid() && fresh(ndist) && fresh(odist) && fresh(best_nind) && fresh(best_ntarget)
      ensures fresh(best_index) && fresh(best_dist)
    {
      this.n := n;
      ndist, odist, best_dist := new int[n], new int[n], new int[n];
      best_nind, best_ntarget, best_index := new nat[n], new nat[n], new nat[n];
    }

    ghost predicate Valid() {
      && ndist.Length == odist.Length == best_dist.Length == n
      && best_nind.Length == best_ntarget.Length == best_index.Length == n
      && ndist != odist && ndist != best_dist && odist != best_dist
      && best_nind != best_ntarget && best_nind != best_index && best_ntarget != best_index
    }

    ghost predicate Listed(l: seq<Cand>)
      requires Valid()
      reads ndist, best_nind, best_ntarget
    {
      Lists(l, ndist[..], best_nind[..], best_ntarget[..])
    }
  }

  /** One survivor of the subvector before: search the codebook for what it leaves, and offer what is found. */
  method ExtendOne(w: Work, x: seq<int16>, p: Params, resp: array<int16>, energy: array<int>, j: nat, so_far: int,
                   ghost s: Search, ghost vs: seq<Survivor>, ghost i: nat, ghost l: seq<Cand>)
    returns (ghost r: seq<Cand>)
    requires w.Valid() && 0 < w.n <= s.p.Size() && s.Valid() && p == s.p
    requires energy != w.ndist && energy != w.best_dist && resp[..] == s.rows && energy[..] == s.energy
    requires Surviving(s, vs, i) && i < s.p.nb && j < |vs|
    requires x == Segment(s, vs[j].path) && so_far == vs[j].dist
    requires w.Listed(l) && Best(l, Below(Extensions(s, vs, i, j), VERY_LARGE32), w.n)
    modifies w.ndist, w.best_nind, w.best_ntarget, w.best_index, w.best_dist
    ensures w.Listed(r) && Best(r, Below(Extensions(s, vs, i, j + 1), VERY_LARGE32), w.n)
  {
    hide Best, Holds, Lists, Candidates, Segment, Norm, ExtensionsOf, Below;
    var tener := HalfNorm(x);
    ghost var found := VqNBest(x, resp, energy, p.signed, w.n, w.best_index, w.best_dist);
    var n := w.n;
    ghost var t := seq(n, k requires 0 <= k < n => Moved(found[k], so_far + tener, j));
    FoundAreExtensions(s, vs[j], j, found, n, t);
    ParentsOfExtensions(s, vs, i, j);
    r := OfferAll(w.ndist, w.best_nind, w.best_ntarget, n, so_far + tener, j, w.best_index, w.best_dist, found, t, l,
                  Extensions(s, vs, i, j));
    BestOfOneMore(r, Extensions(s, vs, i, j), t, ExtensionsOf(s, vs[j], j), n);
  }

  lemma BestOfOneMore(r: seq<Cand>, all: set<Cand>, t: seq<Cand>, others: set<Cand>, n: nat)
    requires Best(t, others, n) && Best(r, Below(all + Elements(t), VERY_LARGE32), n)
    ensures Best(r, Below(all + others, VERY_LARGE32), n)
  {
    hide Best, Below, Elements;
    var near := t[..Near(t, VERY_LARGE32)];
    BestBelow(t, others, n, VERY_LARGE32);
    BelowOfUnion(all, Elements(t), VERY_LARGE32);
    BelowOfUnion(all, others, VERY_LARGE32);
    BestOfTheRest(r, Below(all, VERY_LARGE32), near, Below(others, VERY_LARGE32), n);
  }

  // ----- The tables of survivors -----

  /** Row j of a table of targets, as far as it still matters. */
  ghost predicate TargetRow(ot: array2<int16>, j: nat, s: Search, path: seq<nat>)
    requires Path(s, path) && j < ot.Length0 && ot.Length1 == |s.r|
    reads ot
  {
    forall m :: |path| * s.p.subvect <= m < |s.r| ==> ot[j, m] == Residual(s, path, m)
  }

  /** Row j of a table of indices, as far as it has been filled. */
  ghost predicate IndexRow(oind: array2<nat>, j: nat, path: seq<nat>)
    requires j < oind.Length0 && |path| <= oind.Length1
    reads oind
  {
    forall q :: 0 <= q < |path| ==> oind[j, q] == path[q]
  }

  /** The subvector at a place in a row. */
  method SegmentOf(ot: array2<int16>, j: nat, from: nat, len: nat, ghost s: Search, ghost path: seq<nat>)
    returns (x: seq<int16>)
    requires Path(s, path) && |path| < s.p.nb && j < ot.Length0 && ot.Length1 == |s.r| && TargetRow(ot, j, s, path)
    requires from == |path| * s.p.subvect && len == s.p.subvect
    ensures x == Segment(s, path)
  {
    hide Residual;
    SegmentFits(s, |path|);
    x := [];
    for m := 0 to len
      invariant |x| == m && forall k :: 0 <= k < m ==> x[k] == SegmentAt(s, path, k)
    {
      x := x + [ot[j, from + m]];
    }
  }

  /** What has come of survivors so far. */
  ghost predicate Tables(w: Work, ot: array2<int16>, oind: array2<nat>, s: Search, vs: seq<Survivor>, i: nat)
    reads w.odist, ot, oind
  {
    && w.Valid() && s.Valid() && Surviving(s, vs, i) && i <= s.p.nb && |vs| <= w.n
    && ot.Length0 == oind.Length0 == w.n && ot.Length1 == |s.r| && oind.Length1 == s.p.nb
    && (forall j :: 0 <= j < |vs| ==> TargetRow(ot, j, s, vs[j].path) && IndexRow(oind, j, vs[j].path))
    && (forall j :: 0 <= j < |vs| ==> w.odist[j] == vs[j].dist)
  }

  /** The search for subvector i: all survivors but, at the start, where they are the same, the first only. */
  method ExtendAll(w: Work, p: Params, resp: array<int16>, energy: array<int>, ot: array2<int16>, i: nat,
                   ghost oind: array2<nat>, ghost s: Search, ghost vs: seq<Survivor>)
    returns (ghost l: seq<Cand>)
    requires Tables(w, ot, oind, s, vs, i) && i < s.p.nb && |vs| == (if i == 0 then 1 else w.n)
    requires 0 < w.n <= s.p.Size() && p == s.p && energy != w.ndist && energy != w.best_dist
    requires energy != w.odist && resp[..] == s.rows && energy[..] == s.energy
    modifies w.ndist, w.best_nind, w.best_ntarget, w.best_index, w.best_dist
    ensures w.Listed(l) && Best(l, Below(Extensions(s, vs, i, |vs|), VERY_LARGE32), w.n)
  {
    hide Best, Lists, Segment, Extensions, Residual, Below;
    for j := 0 to w.n
      invariant forall k :: 0 <= k < j ==> w.ndist[k] == VERY_LARGE32
    {
      w.ndist[j] := VERY_LARGE32;
    }
    for j := 0 to w.n
      invariant forall k :: 0 <= k < w.n ==> w.ndist[k] == VERY_LARGE32
      invariant forall k :: 0 <= k < j ==> w.best_nind[k] == 0 && w.best_ntarget[k] == 0
    {
      w.best_nind[j], w.best_ntarget[j] := 0, 0;
    }
    l := [];
    NoExtensions(w, s, vs, i);
    var j := 0;
    while j < w.n
      invariant 0 <= j <= |vs| && (i == 0 ==> j == 0)
      invariant w.Listed(l) && Best(l, Below(Extensions(s, vs, i, j), VERY_LARGE32), w.n)
    {
      var x := SegmentOf(ot, j, i * p.subvect, p.subvect, s, vs[j].path);
      l := ExtendOne(w, x, p, resp, energy, j, w.odist[j], s, vs, i, l);
      j := j + 1;
      if i == 0 {
        break;
      }
    }
  }

  lemma NoExtensions(w: Work, s: Search, vs: seq<Survivor>, i: nat)
    requires w.Valid() && Surviving(s, vs, i) && i < s.p.nb
    requires forall k :: 0 <= k < w.n ==> w.ndist[k] == VERY_LARGE32 && w.best_nind[k] == 0 && w.best_ntarget[k] == 0
    ensures w.Listed([]) && Best([], Below(Extensions(s, vs, i, 0), VERY_LARGE32), w.n)
  {
  }

  // ----- Following the survivors -----

  /** What is left of the target at sample m when t samples of a new shape have been taken away too. */
  ghost function Partial(s: Search, path: seq<nat>, index: nat, m: nat, t: nat): int16
    requires Path(s, path) && |path| < s.p.nb && index < s.p.Indices() && t <= s.p.subvect
    requires |path| * s.p.subvect + s.p.subvect <= m < |s.r|
  {
    Wrap16(s.target[m] - Responses(s, path, m) - Response(s, index, m - |path| * s.p.subvect, t))
  }

  lemma PartialStep(s: Search, path: seq<nat>, index: nat, m: nat, t: nat)
    requires Path(s, path) && |path| < s.p.nb && index < s.p.Indices() && t < s.p.subvect
    requires |path| * s.p.subvect + s.p.subvect <= m < |s.r| && 0 <= |path| * s.p.subvect
    ensures Partial(s, path, index, m, t + 1) ==
            Wrap16(Partial(s, path, index, m, t)
                   - RoundShift(Mult16(Gain(s.p, index, t), s.r[m - |path| * s.p.subvect - t]), 13))
  {
    hide RoundShift, Mult16, Gain, Responses;
    var d := m - |path| * s.p.subvect;
    WrapOfWrap(s.target[m] - Responses(s, path, m) - Response(s, index, d, t),
               RoundShift(Mult16(Gain(s.p, index, t), s.r[d - t]), 13));
  }

  lemma WrapOfWrap(a: int, b: int)
    ensures Wrap16(Wrap16(a) - b) == Wrap16(a - b)
  {
  }

  lemma PartialEnds(s: Search, path: seq<nat>, index: nat, m: nat)
    requires Path(s, path) && |path| < s.p.nb && index < s.p.Indices()
    requires |path| * s.p.subvect + s.p.subvect <= m < |s.r| && 0 <= |path| * s.p.subvect
    ensures Partial(s, path, index, m, 0) == Residual(s, path, m)
    ensures Path(s, path + [index]) && |path + [index]| * s.p.subvect == |path| * s.p.subvect + s.p.subvect
    ensures Partial(s, path, index, m, s.p.subvect) == Residual(s, path + [index], m)
  {
    hide Wrap16;
    var longer := path + [index];
    assert longer[..|path|] == path;
    SegmentFits(s, |path|);
    assert Responses(s, longer, m) == Responses(s, path, m) + Response(s, index, m - |path| * s.p.subvect, s.p.subvect);
  }

  ghost predicate PartialRow(nt: array2<int16>, j: nat, s: Search, path: seq<nat>, index: nat, t: nat)
    requires Path(s, path) && |path| < s.p.nb && index < s.p.Indices() && t <= s.p.subvect
    requires j < nt.Length0 && nt.Length1 == |s.r|
    reads nt
  {
    forall m :: |path| * s.p.subvect + s.p.subvect <= m < |s.r| ==> nt[j, m] == Partial(s, path, index, m, t)
  }

  /** target_update on a row. */
  method TargetUpdate(nt: array2<int16>, j: nat, from: nat, g: int16, r: seq<int16>, q: nat)
    requires j < nt.Length0 && nt.Length1 == |r| && q <= from <= |r|
    modifies nt
    ensures forall a, b :: 0 <= a < nt.Length0 && 0 <= b < nt.Length1 ==>
      nt[a, b] == if a == j && from <= b then Wrap16(old(nt[a, b]) - RoundShift(Mult16(g, r[q + b - from]), 13))
                  else old(nt[a, b])
  {
    for n := 0 to |r| - from
      invariant forall a, b :: 0 <= a < nt.Length0 && 0 <= b < nt.Length1 ==>
        nt[a, b] == if a == j && from <= b < from + n
                    then Wrap16(old(nt[a, b]) - RoundShift(Mult16(g, r[q + b - from]), 13)) else old(nt[a, b])
    {
      nt[j, from + n] := Wrap16(nt[j, from + n] as int - RoundShift(Mult16(g, r[q + n]), 13));
    }
  }

  /** Take the response to a shape out of the rest of the target, a sample of the shape at a time. */
  method TakeShape(nt: array2<int16>, j: nat, from: nat, p: Params, r: seq<int16>, index: nat,
                   ghost s: Search, ghost path: seq<nat>)
    requires Path(s, path) && |path| < s.p.nb && index < s.p.Indices() && p == s.p && r == s.r
    requires j < nt.Length0 && nt.Length1 == |r| && from == |path| * p.subvect + p.subvect <= |r|
    requires forall m :: from <= m < |r| ==> nt[j, m] == Residual(s, path, m)
    modifies nt
    ensures Path(s, path + [index]) && TargetRow(nt, j, s, path + [index])
    ensures forall a, b :: 0 <= a < nt.Length0 && 0 <= b < nt.Length1 && a != j ==> nt[a, b] == old(nt[a, b])
  {
    hide Residual, Partial, RoundShift, Mult16;
    SegmentFits(s, |path|);
    forall m | from <= m < |r| ensures nt[j, m] == Partial(s, path, index, m, 0) {
      PartialEnds(s, path, index, m);
    }
    assert PartialRow(nt, j, s, path, index, 0);
    for m := 0 to p.subvect
      invariant PartialRow(nt, j, s, path, index, m)
      invariant forall a, b :: 0 <= a < nt.Length0 && 0 <= b < nt.Length1 && a != j ==> nt[a, b] == old(nt[a, b])
    {
      forall b | from <= b < |r|
        ensures Partial(s, path, index, b, m + 1) ==
          Wrap16(nt[j, b] - RoundShift(Mult16(Gain(p, index, m), r[p.subvect - m + b - from]), 13))
      {
        PartialStep(s, path, index, b, m);
      }
      TargetUpdate(nt, j, from, Gain(p, index, m), r, p.subvect - m);
    }
    PathGrows(s, path, index);
    forall m | from <= m < |r| ensures nt[j, m] == Residual(s, path + [index], m) {
      PartialEnds(s, path, index, m);
    }
  }

  lemma PathGrows(s: Search, path: seq<nat>, index: nat)
    requires Path(s, path) && |path| < s.p.nb && index < s.p.Indices()
    ensures Path(s, path + [index]) && |path + [index]| * s.p.subvect == |path| * s.p.subvect + s.p.subvect
  {
    SegmentFits(s, |path|);
  }

  /** Survivor j of the new list: what is left of its target, and its indices. */
  method Follow(ot: array2<int16>, nt: array2<int16>, oind: array2<nat>, nind: array2<nat>, j: nat, parent: nat,
                index: nat, i: nat, p: Params, r: seq<int16>, ghost s: Search, ghost path: seq<nat>)
    requires Path(s, path) && |path| == i < s.p.nb && index < s.p.Indices() && p == s.p && r == s.r
    requires ot != nt && oind != nind && j < nt.Length0 == nind.Length0 && parent < ot.Length0 == oind.Length0
    requires ot.Length1 == nt.Length1 == |r| && oind.Length1 == nind.Length1 == p.nb
    requires TargetRow(ot, parent, s, path) && IndexRow(oind, parent, path)
    modifies nt, nind
    ensures Path(s, path + [index]) && TargetRow(nt, j, s, path + [index]) && IndexRow(nind, j, path + [index])
    ensures forall k: nat, q: seq<nat> :: k < nt.Length0 && k != j && Path(s, q) && old(TargetRow(nt, k, s, q)) ==>
      TargetRow(nt, k, s, q)
    ensures forall k: nat, q: seq<nat> :: k < nt.Length0 && k != j && |q| <= p.nb && old(IndexRow(nind, k, q)) ==>
      IndexRow(nind, k, q)
  {
    hide Residual, Indexes;
    SegmentFits(s, i);
    var from := (i + 1) * p.subvect;
    CopyTarget(ot, nt, parent, j, from);
    TakeShape(nt, j, from, p, r, index, s, path);
    CopyIndices(oind, nind, parent, j);
    nind[j, i] := index;
    assert IndexRow(nind, j, path + [index]);
  }

  method CopyTarget(ot: array2<int16>, nt: array2<int16>, parent: nat, j: nat, from: nat)
    requires ot != nt && j < nt.Length0 && parent < ot.Length0 && from <= ot.Length1 == nt.Length1
    modifies nt
    ensures forall k :: from <= k < nt.Length1 ==> nt[j, k] == ot[parent, k]
    ensures forall a, b :: 0 <= a < nt.Length0 && 0 <= b < nt.Length1 && a != j ==> nt[a, b] == old(nt[a, b])
  {
    for m := from to nt.Length1
      invariant forall k :: from <= k < m ==> nt[j, k] == ot[parent, k]
      invariant forall a, b :: 0 <= a < nt.Length0 && 0 <= b < nt.Length1 && a != j ==> nt[a, b] == old(nt[a, b])
    {
      nt[j, m] := ot[parent, m];
    }
  }

  method CopyIndices(oind: array2<nat>, nind: array2<nat>, parent: nat, j: nat)
    requires oind != nind && j < nind.Length0 && parent < oind.Length0 && oind.Length1 == nind.Length1
    modifies nind
    ensures forall k :: 0 <= k < nind.Length1 ==> nind[j, k] == oind[parent, k]
    ensures forall a, b :: 0 <= a < nind.Length0 && 0 <= b < nind.Length1 && a != j ==> nind[a, b] == old(nind[a, b])
  {
    for q := 0 to nind.Length1
      invariant forall k :: 0 <= k < q ==> nind[j, k] == oind[parent, k]
      invariant forall a, b :: 0 <= a < nind.Length0 && 0 <= b < nind.Length1 && a != j ==> nind[a, b] == old(nind[a, b])
    {
      nind[j, q] := oind[parent, q];
    }
  }

  // ----- The whole search -----

  /** What follows from being one of the extensions. */
  lemma {:induction false} ExtensionsAre(s: Search, vs: seq<Survivor>, i: nat, n: nat, c: Cand)
    requires Surviving(s, vs, i) && i < s.p.nb && n <= |vs| && c in Extensions(s, vs, i, n)
    ensures c.parent < n && c.index < s.p.Indices()
    ensures c.dist == vs[c.parent].dist + StepCost(s, Segment(s, vs[c.parent].path), c.index)
    ensures Path(s, Extended(vs, c).path) && |Extended(vs, c).path| == i + 1
  {
    hide Extension, BitOps.Pow2, StepCost, Segment;
    if c in ExtensionsOf(s, vs[n - 1], n - 1) {
      var e :| 0 <= e < s.p.Size() && c == Extension(s, vs[n - 1], n - 1, e);
      ExtensionCost(s, vs[n - 1], n - 1, e);
    } else {
      ExtensionsAre(s, vs, i, n - 1, c);
    }
  }

  /** Survivor r of the new ones, as the arrays hold it: parent, index and distance. */
  ghost predicate Named(vs: seq<Survivor>, after: seq<Survivor>, s: Search, r: nat, parent: nat, index: nat, dist: int)
    requires r < |after|
  {
    parent < |vs| && index < s.p.Indices() && after[r] == Survivor(vs[parent].path + [index], dist)
  }

  ghost predicate AllNamed(w: Work, s: Search, vs: seq<Survivor>, after: seq<Survivor>)
    requires w.Valid() && |after| == w.n
    reads w.ndist, w.best_nind, w.best_ntarget
  {
    forall r :: 0 <= r < w.n ==> Named(vs, after, s, r, w.best_ntarget[r], w.best_nind[r], w.ndist[r])
  }

  /** The arrays name the survivors, free places included. */
  lemma ListedAreNamed(w: Work, s: Search, vs: seq<Survivor>, i: nat, l: seq<Cand>)
    requires w.Valid() && s.Valid() && Surviving(s, vs, i) && i < s.p.nb && |vs| > 0
    requires w.Listed(l) && Best(l, Below(Extensions(s, vs, i, |vs|), VERY_LARGE32), w.n)
    ensures AllNamed(w, s, vs, Following(vs, l, w.n)) && Surviving(s, Following(vs, l, w.n), i + 1)
  {
    hide Named, Path, Following, Best, Below, Extensions, Work.Listed;
    var after := Following(vs, l, w.n);
    forall r | 0 <= r < w.n
      ensures Named(vs, after, s, r, w.best_ntarget[r], w.best_nind[r], w.ndist[r])
      ensures Path(s, after[r].path) && |after[r].path| == i + 1
    {
      PlaceIsNamed(w, s, vs, i, l, r);
    }
  }

  lemma PlaceIsNamed(w: Work, s: Search, vs: seq<Survivor>, i: nat, l: seq<Cand>, r: nat)
    requires w.Valid() && s.Valid() && Surviving(s, vs, i) && i < s.p.nb && |vs| > 0 && r < w.n
    requires w.Listed(l) && Best(l, Below(Extensions(s, vs, i, |vs|), VERY_LARGE32), w.n)
    ensures var after := Following(vs, l, w.n);
            && Named(vs, after, s, r, w.best_ntarget[r], w.best_nind[r], w.ndist[r])
            && Path(s, after[r].path) && |after[r].path| == i + 1
  {
    hide StepCost, Segment, Extensions;
    assert w.ndist[..][r] == w.ndist[r] && w.best_nind[..][r] == w.best_nind[r] && w.best_ntarget[..][r] == w.best_ntarget[r];
    if r < |l| {
      assert l[r] in Below(Extensions(s, vs, i, |vs|), VERY_LARGE32);
      ExtensionsAre(s, vs, i, |vs|, l[r]);
    } else {
      PathGrows(s, vs[0].path, 0);
    }
  }

  /** The new survivors, one by one, and then in the place of the old. */
  method FollowAll(w: Work, ot: array2<int16>, nt: array2<int16>, oind: array2<nat>, nind: array2<nat>, i: nat, p: Params,
                   r: seq<int16>, ghost s: Search, ghost vs: seq<Survivor>, ghost l: seq<Cand>)
    requires Tables(w, ot, oind, s, vs, i) && i < s.p.nb && p == s.p && r == s.r && ot != nt && oind != nind
    requires nt.Length0 == nind.Length0 == w.n && nt.Length1 == |r| && nind.Length1 == p.nb && |vs| > 0
    requires w.Listed(l) && Best(l, Below(Extensions(s, vs, i, |vs|), VERY_LARGE32), w.n)
    modifies nt, nind, oind, w.odist
    ensures Tables(w, nt, oind, s, Following(vs, l, w.n), i + 1)
    ensures i + 1 == s.p.nb && w.n > 0 ==> IndexRow(nind, 0, Following(vs, l, w.n)[0].path)
  {
    hide Best, Residual, Path, Extensions, TargetRow, IndexRow, Below, Following, Work.Listed;
    ghost var after := Following(vs, l, w.n);
    ListedAreNamed(w, s, vs, i, l);
    FollowEach(w, ot, nt, oind, nind, i, p, r, s, vs, after);
    CopyBack(w, oind, nind, after);
    CopyDistances(w);
    assert forall k :: 0 <= k < w.n ==> Named(vs, after, s, k, w.best_ntarget[k], w.best_nind[k], w.ndist[k]);
  }

  method CopyDistances(w: Work)
    requires w.Valid()
    modifies w.odist
    ensures forall k :: 0 <= k < w.n ==> w.odist[k] == w.ndist[k]
  {
    for j := 0 to w.n
      invariant forall k :: 0 <= k < j ==> w.odist[k] == w.ndist[k]
    {
      w.odist[j] := w.ndist[j];
    }
  }

  method FollowEach(w: Work, ot: array2<int16>, nt: array2<int16>, oind: array2<nat>, nind: array2<nat>, i: nat, p: Params,
                    r: seq<int16>, ghost s: Search, ghost vs: seq<Survivor>, ghost after: seq<Survivor>)
    requires Tables(w, ot, oind, s, vs, i) && i < s.p.nb && p == s.p && r == s.r && ot != nt && oind != nind
    requires nt.Length0 == nind.Length0 == w.n && nt.Length1 == |r| && nind.Length1 == p.nb
    requires |after| == w.n && AllNamed(w, s, vs, after) && Surviving(s, after, i + 1)
    modifies nt, nind
    ensures forall k :: 0 <= k < w.n ==> TargetRow(nt, k, s, after[k].path) && IndexRow(nind, k, after[k].path)
  {
    hide Residual, Indexes, TargetRow, IndexRow;
    for j := 0 to w.n
      invariant forall k :: 0 <= k < j ==> TargetRow(nt, k, s, after[k].path) && IndexRow(nind, k, after[k].path)
    {
      var parent, index := w.best_ntarget[j], w.best_nind[j];
      assert Named(vs, after, s, j, parent, index, w.ndist[j]);
      assert TargetRow(ot, parent, s, vs[parent].path) && IndexRow(oind, parent, vs[parent].path);
      Follow(ot, nt, oind, nind, j, parent, index, i, p, r, s, vs[parent].path);
      assert TargetRow(nt, j, s, after[j].path) && IndexRow(nind, j, after[j].path);
    }
  }

  method CopyBack(w: Work, oind: array2<nat>, nind: array2<nat>, ghost after: seq<Survivor>)
    requires oind != nind && oind.Length0 == nind.Length0 == w.n == |after| && oind.Length1 == nind.Length1
    requires forall k :: 0 <= k < w.n ==> |after[k].path| <= nind.Length1 && IndexRow(nind, k, after[k].path)
    modifies oind
    ensures forall k :: 0 <= k < w.n ==> IndexRow(oind, k, after[k].path)
  {
    for j := 0 to w.n
      invariant forall k :: 0 <= k < j ==> IndexRow(oind, k, after[k].path)
    {
      CopyIndices(nind, oind, j, j);
    }
  }
}
