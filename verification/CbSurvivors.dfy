/** CbSurvivors: the lists of best totals that the codebook search keeps for one subvector. */
module CbSurvivors {
  import opened NBest
  import Vq

  const VERY_LARGE32 := 0x7fff_ffff

  /** The mark of a free place is the greatest signed 32-bit value. */
  lemma MarkIsGreatest()
    ensures VERY_LARGE32 == 0x8000_0000 - 1
  {
  }

  /** The list as the three arrays hold it; the places not taken are at the largest distance, with zero indices. */
  ghost predicate Lists(l: seq<Cand>, ndist: seq<int>, nind: seq<nat>, ntarget: seq<nat>) {
    && |l| <= |ndist| == |nind| == |ntarget|
    && (forall r :: 0 <= r < |l| ==> ndist[r] == l[r].dist && nind[r] == l[r].index && ntarget[r] == l[r].parent)
    && (forall r :: |l| <= r < |ndist| ==> ndist[r] == VERY_LARGE32 && nind[r] == 0 && ntarget[r] == 0)
  }

  /** Move what stands from place m on one place down. */
  method ShiftDown(ndist: array<int>, nind: array<nat>, ntarget: array<nat>, n: nat, m: nat)
    requires m < n == ndist.Length == nind.Length == ntarget.Length && nind != ntarget
    modifies ndist, nind, ntarget
    ensures forall q :: 0 <= q <= m ==> ndist[q] == old(ndist[q]) && nind[q] == old(nind[q]) && ntarget[q] == old(ntarget[q])
    ensures forall q :: m < q < n ==>
      ndist[q] == old(ndist[q - 1]) && nind[q] == old(nind[q - 1]) && ntarget[q] == old(ntarget[q - 1])
  {
    var k := n - 1;
    while k > m
      invariant m <= k < n
      invariant forall q :: 0 <= q <= k ==> ndist[q] == old(ndist[q]) && nind[q] == old(nind[q]) && ntarget[q] == old(ntarget[q])
      invariant forall q :: k < q < n ==>
        ndist[q] == old(ndist[q - 1]) && nind[q] == old(nind[q - 1]) && ntarget[q] == old(ntarget[q - 1])
    {
      ndist[k] := ndist[k - 1];
      nind[k] := nind[k - 1];
      ntarget[k] := ntarget[k - 1];
      k := k - 1;
    }
  }

  /** Make room at place m and put a candidate there. */
  method Enter(ndist: array<int>, nind: array<nat>, ntarget: array<nat>, n: nat, m: nat, err: int, index: nat, j: nat,
               ghost c: Cand, ghost l: seq<Cand>)
    requires m < n == ndist.Length == nind.Length == ntarget.Length && nind != ntarget && m <= |l|
    requires c.dist == err && c.index == index && c.parent == j && Lists(l, ndist[..], nind[..], ntarget[..])
    modifies ndist, nind, ntarget
    ensures Lists(Inserted(l, m, c, n), ndist[..], nind[..], ntarget[..])
  {
    ShiftDown(ndist, nind, ntarget, n, m);
    ndist[m] := err;
    nind[m] := index;
    ntarget[m] := j;
  }

  /** The first place whose distance is larger. */
  method PlaceFor(ndist: array<int>, n: nat, err: int, ghost l: seq<Cand>) returns (m: nat)
    requires 0 < n == ndist.Length && |l| <= n && err < ndist[n - 1]
    requires forall r :: 0 <= r < |l| ==> ndist[r] == l[r].dist
    requires forall r :: |l| <= r < n ==> ndist[r] > err
    requires forall i, j :: 0 <= i <= j < |l| ==> l[i].dist <= l[j].dist
    ensures m < n && m <= |l| && (forall k :: 0 <= k < m ==> l[k].dist <= err) && (m < |l| ==> err < l[m].dist)
  {
    m := 0;
    while !(err < ndist[m])
      invariant 0 <= m < n && m <= |l| && forall k :: 0 <= k < m ==> l[k].dist <= err
      decreases n - m
    {
      m := m + 1;
    }
  }

  /** One candidate: it goes before the first that is farther, if there is a place for it. What reaches the mark of a free
      place is never taken. */
  method Offer(ndist: array<int>, nind: array<nat>, ntarget: array<nat>, n: nat, err: int, index: nat, j: nat,
               ghost c: Cand, ghost l: seq<Cand>, ghost all: set<Cand>) returns (ghost r: seq<Cand>)
    requires 0 < n == ndist.Length == nind.Length == ntarget.Length && nind != ntarget
    requires c.dist == err && c.index == index && c.parent == j
    requires Lists(l, ndist[..], nind[..], ntarget[..]) && Best(l, Below(all, VERY_LARGE32), n)
    requires c !in all && forall a :: a in all && a.dist == c.dist ==> Less(a, c)
    modifies ndist, nind, ntarget
    ensures Lists(r, ndist[..], nind[..], ntarget[..]) && Best(r, Below(all + {c}, VERY_LARGE32), n)
  {
    hide Best, Less;
    Vq.DistancesAscend(l, Below(all, VERY_LARGE32));
    AllBelow(l, all, n);
    BelowOfUnion(all, {c}, VERY_LARGE32);
    if err < ndist[n - 1] {
      var m := PlaceFor(ndist, n, err, l);
      Enter(ndist, nind, ntarget, n, m, err, index, j, c, l);
      InsertKeepsBest(l, Below(all, VERY_LARGE32), n, m, c);
      r := Inserted(l, m, c, n);
      assert Below({c}, VERY_LARGE32) == {c};
    } else {
      r := l;
      if err < VERY_LARGE32 {
        InsertKeepsBest(l, Below(all, VERY_LARGE32), n, n, c);
        assert Inserted(l, n, c, n) == l;
        assert Below({c}, VERY_LARGE32) == {c};
      } else {
        assert Below(all, VERY_LARGE32) + Below({c}, VERY_LARGE32) == Below(all, VERY_LARGE32);
      }
    }
  }

  lemma AllBelow(l: seq<Cand>, all: set<Cand>, n: nat)
    requires Best(l, Below(all, VERY_LARGE32), n)
    ensures |l| <= n && forall k :: 0 <= k < |l| ==> l[k].dist < VERY_LARGE32
  {
    forall k | 0 <= k < |l| ensures l[k].dist < VERY_LARGE32 {
      assert l[k] in Below(all, VERY_LARGE32);
    }
  }

  /** All the candidates that one search of the codebook has found for survivor j. */
  method OfferAll(ndist: array<int>, nind: array<nat>, ntarget: array<nat>, n: nat, so_far: int, j: nat,
                  best_index: array<nat>, best_dist: array<int>, ghost found: seq<Cand>,
                  ghost t: seq<Cand>, ghost l: seq<Cand>, ghost all: set<Cand>) returns (ghost r: seq<Cand>)
    requires 0 < n == ndist.Length == nind.Length == ntarget.Length == best_index.Length == best_dist.Length == |t| == |found|
    requires nind != ntarget && nind != best_index && ntarget != best_index && ndist != best_dist
    requires Lists(l, ndist[..], nind[..], ntarget[..]) && Best(l, Below(all, VERY_LARGE32), n)
    requires Vq.Holds(found, best_index[..], best_dist[..])
    requires forall k :: 0 <= k < n ==> t[k] == Moved(found[k], so_far, j)
    requires Ascending(t) && forall a :: a in all ==> a.parent < j
    modifies ndist, nind, ntarget
    ensures Lists(r, ndist[..], nind[..], ntarget[..]) && Best(r, Below(all + Elements(t), VERY_LARGE32), n)
  {
    hide Best, Lists, Ascending, Moved, Below;
    r := l;
    var k := 0;
    StartsWith(all, t);
    while k < n
      invariant 0 <= k <= n && Lists(r, ndist[..], nind[..], ntarget[..])
      invariant Best(r, Below(all + Elements(t[..k]), VERY_LARGE32), n)
    {
      ComesLater(all, t, k, j, so_far, found);
      r := Offer(ndist, nind, ntarget, n, so_far + best_dist[k], best_index[k], j, t[k], r, all + Elements(t[..k]));
      k := k + 1;
    }
    assert t[..n] == t;
  }

  lemma StartsWith(all: set<Cand>, t: seq<Cand>)
    ensures all + Elements(t[..0]) == all
  {
  }

  lemma ComesLater(all: set<Cand>, t: seq<Cand>, k: nat, j: nat, so_far: int, found: seq<Cand>)
    requires k < |t| == |found| && Ascending(t) && t[k] == Moved(found[k], so_far, j)
    requires forall i :: 0 <= i < |t| ==> t[i] == Moved(found[i], so_far, j)
    requires forall a :: a in all ==> a.parent < j
    ensures var seen := all + Elements(t[..k]);
            && t[k] !in seen && (forall a :: a in seen && a.dist == t[k].dist ==> Less(a, t[k]))
            && seen + {t[k]} == all + Elements(t[..k + 1])
    ensures t[k].dist == so_far + found[k].dist && t[k].index == found[k].index && t[k].parent == j
  {
    forall i | 0 <= i < k ensures Less(t[i], t[k]) {
    }
    assert t[..k + 1] == t[..k] + [t[k]];
  }
}
