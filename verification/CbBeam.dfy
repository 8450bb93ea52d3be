/** CbBeam: whole runs of the codebook search, as the survivors after each subvector. */
module CbBeam {
  import opened NBest
  import opened CbSurvivors
  import opened CbSearch

  ghost const START := Survivor([], 0)

  ghost predicate Step(s: Search, before: seq<Survivor>, i: nat, n: nat, marked: bool, after: seq<Survivor>) {
    exists l :: Survive(s, before, i, n, marked, l, after)
  }

  /** The survivors after each of the first i subvectors, beginning with the empty path. */
  ghost predicate Beam(s: Search, n: nat, marked: bool, beams: seq<seq<Survivor>>, i: nat) {
    && |beams| == i + 1 && beams[0] == [START]
    && forall k :: 0 <= k < i ==> Step(s, beams[k], k, n, marked, beams[k + 1])
  }

  lemma BeamBegins(s: Search, n: nat, marked: bool)
    ensures Beam(s, n, marked, [[START]], 0)
  {
  }

  lemma BeamGrows(s: Search, n: nat, marked: bool, beams: seq<seq<Survivor>>, i: nat, after: seq<Survivor>)
    requires Beam(s, n, marked, beams, i) && |beams| == i + 1 && Step(s, beams[i], i, n, marked, after)
    ensures Beam(s, n, marked, beams + [after], i + 1)
  {
    hide Step;
  }

  // ----- The run is determined -----

  lemma StepIsDetermined(s: Search, before: seq<Survivor>, i: nat, n: nat, marked: bool,
                         a: seq<Survivor>, b: seq<Survivor>)
    requires Step(s, before, i, n, marked, a) && Step(s, before, i, n, marked, b)
    ensures a == b
  {
    hide Best, Extensions, Following, Offered;
    var l: seq<Cand> :| Survive(s, before, i, n, marked, l, a);
    var m: seq<Cand> :| Survive(s, before, i, n, marked, m, b);
    BestIsUnique(l, m, Offered(Extensions(s, before, i, |before|), marked), n);
  }

  /** The run of the search is determined by what it is over and by the number of survivors. */
  lemma {:induction false} BeamIsDetermined(s: Search, n: nat, marked: bool, a: seq<seq<Survivor>>, b: seq<seq<Survivor>>,
                                            i: nat)
    requires Beam(s, n, marked, a, i) && Beam(s, n, marked, b, i)
    ensures a == b
    decreases i
  {
    hide Step;
    if i > 0 {
      BeamIsDetermined(s, n, marked, a[..i], b[..i], i - 1);
      assert a[i - 1] == a[..i][i - 1] == b[..i][i - 1] == b[i - 1];
      assert Step(s, a[i - 1], i - 1, n, marked, a[i - 1 + 1]) && Step(s, b[i - 1], i - 1, n, marked, b[i - 1 + 1]);
      StepIsDetermined(s, a[i - 1], i - 1, n, marked, a[i], b[i]);
      assert a == a[..i] + [a[i]] && b == b[..i] + [b[i]];
    }
  }

  // ----- Distances -----

  /** Every recorded distance is the cost of its own path. */
  ghost predicate Honest(s: Search, vs: seq<Survivor>, i: nat)
    requires Surviving(s, vs, i)
  {
    forall j :: 0 <= j < |vs| ==> vs[j].dist == PathCost(s, vs[j].path)
  }

  lemma ListedSurvivor(s: Search, before: seq<Survivor>, i: nat, n: nat, marked: bool, l: seq<Cand>,
                       after: seq<Survivor>, r: nat)
    requires Survive(s, before, i, n, marked, l, after) && r < n
    ensures Surviving(s, before, i) && |after| == n && Path(s, after[r].path) && |after[r].path| == i + 1 && |before| > 0
    ensures r >= |l| ==> marked && after[r] == Free(before)
    ensures r < |l| ==>
      && l[r].parent < |before| && l[r].index < s.p.Indices() && l[r].dist == after[r].dist
      && after[r].path == before[l[r].parent].path + [l[r].index]
      && after[r].dist == before[l[r].parent].dist + StepCost(s, Segment(s, before[l[r].parent].path), l[r].index)
  {
    hide StepCost, Segment, Extensions;
    if r < |l| {
      assert l[r] in Offered(Extensions(s, before, i, |before|), marked);
      ExtensionsAre(s, before, i, |before|, l[r]);
    } else {
      assert after[r] == Free(before);
      PathGrows(s, before[0].path, 0);
    }
  }

  lemma StepSurvives(s: Search, before: seq<Survivor>, i: nat, n: nat, marked: bool, after: seq<Survivor>)
    requires Step(s, before, i, n, marked, after)
    ensures Surviving(s, before, i) && i < s.p.nb && |before| > 0 && |after| == n && Surviving(s, after, i + 1)
  {
    hide Survive, Path;
    var l: seq<Cand> :| Survive(s, before, i, n, marked, l, after);
    WhatSurvives(s, before, i, n, marked, l, after);
    forall r | 0 <= r < n ensures Path(s, after[r].path) && |after[r].path| == i + 1 {
      ListedSurvivor(s, before, i, n, marked, l, after, r);
    }
  }

  lemma WhatSurvives(s: Search, before: seq<Survivor>, i: nat, n: nat, marked: bool, l: seq<Cand>, after: seq<Survivor>)
    requires Survive(s, before, i, n, marked, l, after)
    ensures Surviving(s, before, i) && i < s.p.nb && |before| > 0 && |after| == n && after == Following(before, l, n)
    ensures Best(l, Offered(Extensions(s, before, i, |before|), marked), n) && (!marked ==> |l| == n)
  {
    hide Path, Extensions;
  }

  /** A distance recorded is the sum of the step costs along its own path, unless a place has stayed free. */
  lemma DistanceIsCost(s: Search, before: seq<Survivor>, i: nat, n: nat, marked: bool, after: seq<Survivor>, r: nat)
    requires Step(s, before, i, n, marked, after) && r < n && Surviving(s, before, i) && Honest(s, before, i)
    ensures |after| == n && |before| > 0 && Path(s, after[r].path)
    ensures after[r].dist == PathCost(s, after[r].path) || (marked && after[r] == Free(before))
  {
    hide StepCost, Segment, PathCost, Survive, Free;
    var l: seq<Cand> :| Survive(s, before, i, n, marked, l, after);
    ListedSurvivor(s, before, i, n, marked, l, after, r);
    WhatSurvives(s, before, i, n, marked, l, after);
    if r < |l| {
      OneStepMore(s, before[l[r].parent].path, l[r].index);
    }
  }

  /** The best of the survivors is no farther than any one-step extension, with any index, of any survivor before it. */
  lemma BestCostsLeast(s: Search, before: seq<Survivor>, i: nat, n: nat, marked: bool, after: seq<Survivor>,
                       j: nat, index: nat)
    requires Step(s, before, i, n, marked, after) && 0 < n && j < |before| && index < s.p.Indices()
    ensures Surviving(s, before, i) && i < s.p.nb && |after| == n
    ensures after[0].dist <= before[j].dist + StepCost(s, Segment(s, before[j].path), index)
  {
    hide Survive, StepCost, Segment, Extensions, Extension, Best, Offered, Following;
    var l: seq<Cand> :| Survive(s, before, i, n, marked, l, after);
    WhatSurvives(s, before, i, n, marked, l, after);
    ListedSurvivor(s, before, i, n, marked, l, after, 0);
    var e := s.p.Row(index);
    ExtensionCost(s, before[j], j, e);
    EntryIsExtension(s, before, i, |before|, j, e);
    FirstIsLeast(l, Extensions(s, before, i, |before|), n, marked, Extension(s, before[j], j, e));
  }

  lemma FirstIsLeast(l: seq<Cand>, all: set<Cand>, n: nat, marked: bool, c: Cand)
    requires Best(l, Offered(all, marked), n) && n > 0 && (!marked ==> |l| == n) && c in all
    ensures |l| > 0 ==> l[0].dist <= c.dist
    ensures |l| == 0 ==> marked && VERY_LARGE32 <= c.dist
  {
    if c in l {
      var k :| 0 <= k < |l| && l[k] == c;
      assert k == 0 || Less(l[0], l[k]);
    } else if c in Offered(all, marked) {
      assert Beyond(l, n, c);
      assert n == 1 || Less(l[0], l[n - 1]);
    } else if |l| > 0 {
      assert l[0] in Offered(all, marked);
    }
  }

  lemma {:induction false} EntryIsExtension(s: Search, vs: seq<Survivor>, i: nat, n: nat, j: nat, e: nat)
    requires Surviving(s, vs, i) && i < s.p.nb && j < n <= |vs| && e < s.p.Size()
    ensures Extension(s, vs[j], j, e) in Extensions(s, vs, i, n)
  {
    hide Extension, Segment;
    if j < n - 1 {
      EntryIsExtension(s, vs, i, n - 1, j, e);
    } else {
      assert Extension(s, vs[j], j, e) in ExtensionsOf(s, vs[j], j);
    }
  }

  // ----- The mark of a free place -----

  lemma FullIsPlain(l: seq<Cand>, all: set<Cand>, n: nat)
    requires Best(l, Below(all, VERY_LARGE32), n) && |l| == n > 0
    ensures Best(l, all, n)
  {
    assert l[n - 1] in Below(all, VERY_LARGE32);
    forall i | 0 <= i < n ensures l[i] in all {
      assert l[i] in Below(all, VERY_LARGE32);
    }
    forall c | c in all && c !in l ensures Beyond(l, n, c) {
      if c.dist < VERY_LARGE32 {
        assert c in Below(all, VERY_LARGE32);
      }
    }
  }

  lemma PlainIsFull(l: seq<Cand>, all: set<Cand>, n: nat)
    requires Best(l, all, n) && |l| == n > 0 && l[n - 1].dist < VERY_LARGE32
    ensures Best(l, Below(all, VERY_LARGE32), n)
  {
    forall i | 0 <= i < n ensures l[i] in Below(all, VERY_LARGE32) {
      assert i == n - 1 || Less(l[i], l[n - 1]);
    }
  }

  /** A step leaves no place free exactly if the n-th best total formed is below the mark, and the survivors are then
      those without a mark. */
  lemma MarkIsIdle(s: Search, before: seq<Survivor>, i: nat, n: nat, m: seq<Survivor>, p: seq<Survivor>)
    requires Step(s, before, i, n, true, m) && Step(s, before, i, n, false, p) && n > 0
    ensures |m| == |p| == n && (m[n - 1].dist < VERY_LARGE32 <==> p[n - 1].dist < VERY_LARGE32)
    ensures m[n - 1].dist < VERY_LARGE32 ==> m == p
  {
    hide Step, Survive;
    StepSurvives(s, before, i, n, true, m);
    StepSurvives(s, before, i, n, false, p);
    if m[n - 1].dist < VERY_LARGE32 {
      MarkedIsPlain(s, before, i, n, m);
      StepIsDetermined(s, before, i, n, false, m, p);
    } else if p[n - 1].dist < VERY_LARGE32 {
      PlainIsMarked(s, before, i, n, p);
      StepIsDetermined(s, before, i, n, true, m, p);
    }
  }

  lemma MarkedIsPlain(s: Search, before: seq<Survivor>, i: nat, n: nat, after: seq<Survivor>)
    requires Step(s, before, i, n, true, after) && n > 0 && |after| == n && after[n - 1].dist < VERY_LARGE32
    ensures Step(s, before, i, n, false, after)
  {
    hide Extensions, Best;
    var l: seq<Cand> :| Survive(s, before, i, n, true, l, after);
    WhatSurvives(s, before, i, n, true, l, after);
    ShortEnough(l, Below(Extensions(s, before, i, |before|), VERY_LARGE32), n);
    ListedSurvivor(s, before, i, n, true, l, after, n - 1);
    FullIsPlain(l, Extensions(s, before, i, |before|), n);
    assert Survive(s, before, i, n, false, l, after);
  }

  lemma PlainIsMarked(s: Search, before: seq<Survivor>, i: nat, n: nat, after: seq<Survivor>)
    requires Step(s, before, i, n, false, after) && n > 0 && |after| == n && after[n - 1].dist < VERY_LARGE32
    ensures Step(s, before, i, n, true, after)
  {
    hide Extensions, Best;
    var l: seq<Cand> :| Survive(s, before, i, n, false, l, after);
    WhatSurvives(s, before, i, n, false, l, after);
    PlainIsFull(l, Extensions(s, before, i, |before|), n);
    assert Survive(s, before, i, n, true, l, after);
  }

  lemma ShortEnough(l: seq<Cand>, all: set<Cand>, n: nat)
    requires Best(l, all, n)
    ensures |l| <= n
  {
  }

  /** A run in which no place has stayed free is the run without a mark, and every distance is the cost of its path. */
  lemma {:induction false} BeamIsPlain(s: Search, n: nat, beams: seq<seq<Survivor>>, i: nat)
    requires Beam(s, n, true, beams, i) && n > 0 && s.Valid()
    requires forall k :: 1 <= k <= i ==> |beams[k]| == n && beams[k][n - 1].dist < VERY_LARGE32
    ensures Beam(s, n, false, beams, i) && Surviving(s, beams[i], i) && Honest(s, beams[i], i)
    decreases i
  {
    hide Step, PathCost;
    if i == 0 {
      AtTheStart(s);
    } else {
      BeamIsPlain(s, n, beams[..i], i - 1);
      assert beams[..i][i - 1] == beams[i - 1] && beams[i - 1 + 1] == beams[i];
      assert Step(s, beams[i - 1], i - 1, n, true, beams[i - 1 + 1]);
      MarkedIsPlain(s, beams[i - 1], i - 1, n, beams[i]);
      StepSurvives(s, beams[i - 1], i - 1, n, false, beams[i]);
      forall r | 0 <= r < n ensures beams[i][r].dist == PathCost(s, beams[i][r].path) {
        DistanceIsCost(s, beams[i - 1], i - 1, n, false, beams[i], r);
      }
      BeamGrows(s, n, false, beams[..i], i - 1, beams[i]);
      assert beams == beams[..i] + [beams[i]];
    }
  }

  /** And the other way round: a run without a mark in which every distance stays below the mark is the run with it. */
  lemma PlainIsBeam(s: Search, n: nat, beams: seq<seq<Survivor>>, i: nat)
    requires Beam(s, n, false, beams, i) && n > 0
    requires forall k :: 1 <= k <= i ==> |beams[k]| == n && beams[k][n - 1].dist < VERY_LARGE32
    ensures Beam(s, n, true, beams, i)
  {
    hide Step;
    forall k | 0 <= k < i ensures Step(s, beams[k], k, n, true, beams[k + 1]) {
      PlainIsMarked(s, beams[k], k, n, beams[k + 1]);
    }
  }

  lemma AtTheStart(s: Search)
    requires s.Valid()
    ensures Path(s, []) && PathCost(s, []) == 0 && forall m :: 0 <= m < |s.r| ==> Residual(s, [], m) == s.target[m]
  {
  }
}
