/** Vq: the search of a codebook for the entries nearest to a vector. */
module Vq {
  import opened FixedPoint
  import opened NBest

  /** The inner product of a vector with the row of a table that begins at an offset, len terms. */
  ghost function Dot(x: seq<int16>, rows: seq<int16>, at: nat, len: nat): int
    requires len <= |x| && at + len <= |rows|
  {
    if len == 0 then 0 else Dot(x, rows, at, len - 1) + Mult16(x[len - 1], rows[at + len - 1])
  }

  /** A table of entries with their energies. */
  datatype Codebook = Codebook(rows: seq<int16>, energy: seq<int>, len: nat) {
    ghost predicate Valid() { |rows| == |energy| * len }
  }

  lemma RowFits(cb: Codebook, i: nat)
    requires cb.Valid() && i < |cb.energy|
    ensures 0 <= i * cb.len <= i * cb.len + cb.len <= |cb.rows|
  {
    assert (i + 1) * cb.len <= |cb.energy| * cb.len;
  }

  ghost function Product(x: seq<int16>, cb: Codebook, i: nat): int
    requires cb.Valid() && |x| == cb.len && i < |cb.energy|
  {
    RowFits(cb, i);
    Dot(x, cb.rows, i * cb.len, cb.len)
  }

  /** Entry i as a candidate; where the sign is free, the better of the two, the negative one being sent as i plus the
      number of entries. */
  ghost function Candidate(x: seq<int16>, cb: Codebook, signed: bool, i: nat): Cand
    requires cb.Valid() && |x| == cb.len && i < |cb.energy|
  {
    var p := Product(x, cb, i);
    var half := cb.energy[i] / 2;
    if signed && p <= 0 then Cand(half + p, 0, i, i + |cb.energy|) else Cand(half - p, 0, i, i)
  }

  /** The first n entries. */
  ghost function Candidates(x: seq<int16>, cb: Codebook, signed: bool, n: nat): set<Cand>
    requires cb.Valid() && |x| == cb.len && n <= |cb.energy|
  {
    set i | 0 <= i < n :: Candidate(x, cb, signed, i)
  }

  /** The list as the two arrays hold it. */
  ghost predicate Holds(l: seq<Cand>, nbest: seq<nat>, dist: seq<int>) {
    |l| <= |nbest| == |dist| && forall r :: 0 <= r < |l| ==> dist[r] == l[r].dist && nbest[r] == l[r].index
  }

  /** The tail of both searches: make room for the new entry and put it in, if it is near enough. used is the number of
      entries kept so far, or more. */
  method Keep(nbest: array<nat>, dist: array<int>, n: nat, used: nat, ghost c: Cand, index: nat, d: int,
              ghost l: seq<Cand>, ghost all: set<Cand>) returns (ghost r: seq<Cand>)
    requires 0 < n == nbest.Length == dist.Length && c.dist == d && c.index == index
    requires Holds(l, nbest[..], dist[..]) && Best(l, all, n) && |l| == (if used < n then used else n)
    requires c !in all && forall a :: a in all && a.dist == c.dist ==> Less(a, c)
    modifies nbest, dist
    ensures Holds(r, nbest[..], dist[..]) && Best(r, all + {c}, n) && |r| == if used < n then used + 1 else n
  {
    hide Best, Less, Inserted;
    ghost var ids, dists := nbest[..], dist[..];
    if used < n || d < dist[n - 1] {
      var k := MakeRoom(nbest, dist, n, used, d, l);
      dist[k] := d;
      nbest[k] := index;
      DistancesAscend(l, all);
      InsertKeepsBest(l, all, n, k, c);
      r := Inserted(l, k, c, n);
      HoldsInserted(l, k, c, n, ids, dists, nbest[..], dist[..]);
    } else {
      DistancesAscend(l, all);
      InsertKeepsBest(l, all, n, n, c);
      r := Inserted(l, n, c, n);
      NotInserted(l, c, n);
    }
  }

  lemma NotInserted(l: seq<Cand>, c: Cand, n: nat)
    requires |l| == n
    ensures Inserted(l, n, c, n) == l
  {
  }

  lemma HoldsInserted(l: seq<Cand>, k: nat, c: Cand, n: nat, ids: seq<nat>, dists: seq<int>, ids1: seq<nat>, dists1: seq<int>)
    requires Holds(l, ids, dists) && k <= |l| <= n && k < n == |ids| == |dists| == |ids1| == |dists1|
    requires forall q :: 0 <= q < k ==> dists1[q] == dists[q] && ids1[q] == ids[q]
    requires forall q :: k < q < n ==> dists1[q] == dists[q - 1] && ids1[q] == ids[q - 1]
    requires dists1[k] == c.dist && ids1[k] == c.index
    ensures Holds(Inserted(l, k, c, n), ids1, dists1)
  {
  }

  /** The insertion loop: what is farther than d moves down one place. */
  method MakeRoom(nbest: array<nat>, dist: array<int>, n: nat, used: nat, d: int, ghost l: seq<Cand>) returns (k: nat)
    requires 0 < n == nbest.Length == dist.Length && Holds(l, nbest[..], dist[..])
    requires |l| == (if used < n then used else n) && (used >= n ==> d < l[n - 1].dist)
    modifies nbest, dist
    ensures k < n && k <= |l| && (k > 0 ==> l[k - 1].dist <= d) && (k < |l| ==> d < l[k].dist)
    ensures forall q :: 0 <= q < k ==> dist[q] == old(dist[q]) && nbest[q] == old(nbest[q])
    ensures forall q :: k < q < n ==> dist[q] == old(dist[q - 1]) && nbest[q] == old(nbest[q - 1])
  {
    k := n - 1;
    while k >= 1 && (k > used || d < dist[k - 1])
      invariant 0 <= k < n
      invariant forall q :: 0 <= q <= k ==> dist[q] == old(dist[q]) && nbest[q] == old(nbest[q])
      invariant forall q :: k < q < n ==> dist[q] == old(dist[q - 1]) && nbest[q] == old(nbest[q - 1])
      invariant k < |l| ==> d < l[k].dist
    {
      dist[k] := dist[k - 1];
      nbest[k] := nbest[k - 1];
      k := k - 1;
    }
  }

  lemma DistancesAscend(l: seq<Cand>, all: set<Cand>)
    requires exists n :: Best(l, all, n)
    ensures forall i, j :: 0 <= i <= j < |l| ==> l[i].dist <= l[j].dist
  {
    forall i, j | 0 <= i <= j < |l| ensures l[i].dist <= l[j].dist {
      assert i == j || Less(l[i], l[j]);
    }
  }

  /** vq_nbest and, where the sign is free, vq_nbest_sign: the n best entries, nearest first, ties to the lower entry. */
  method VqNBest(x: seq<int16>, rows: array<int16>, energy: array<int>, signed: bool, n: nat,
                 nbest: array<nat>, dist: array<int>) returns (ghost l: seq<Cand>)
    requires 0 < n == nbest.Length == dist.Length && dist != energy
    requires Codebook(rows[..], energy[..], |x|).Valid()
    modifies nbest, dist
    ensures Best(l, Candidates(x, Codebook(rows[..], energy[..], |x|), signed, energy.Length), n)
    ensures Holds(l, nbest[..], dist[..]) && |l| == if energy.Length < n then energy.Length else n
  {
    hide Best, Holds, Candidate, Product;
    ghost var cb := Codebook(rows[..], energy[..], |x|);
    l := [];
    NothingIsBest(x, cb, signed, n, nbest[..], dist[..]);
    var i, used := 0, 0;
    while i < energy.Length
      invariant 0 <= i <= energy.Length && used == i && rows[..] == cb.rows && energy[..] == cb.energy
      invariant Best(l, Candidates(x, cb, signed, i), n) && Holds(l, nbest[..], dist[..])
      invariant |l| == if used < n then used else n
    {
      RowFits(cb, i);
      var d := InnerProduct(x, rows, i * |x|);
      var c := i;
      if signed && d <= 0 {
        c := i + energy.Length;
      } else {
        d := -d;
      }
      d := d + energy[i] / 2;
      CandidateIs(x, cb, signed, i);
      NextCandidate(x, cb, signed, i);
      l := Keep(nbest, dist, n, used, Candidate(x, cb, signed, i), c, d, l, Candidates(x, cb, signed, i));
      i, used := i + 1, used + 1;
    }
  }

  lemma NothingIsBest(x: seq<int16>, cb: Codebook, signed: bool, n: nat, nbest: seq<nat>, dist: seq<int>)
    requires cb.Valid() && |x| == cb.len && |nbest| == |dist|
    ensures Best([], Candidates(x, cb, signed, 0), n) && Holds([], nbest, dist)
  {
  }

  lemma NextCandidate(x: seq<int16>, cb: Codebook, signed: bool, i: nat)
    requires cb.Valid() && |x| == cb.len && i < |cb.energy|
    ensures var all, c := Candidates(x, cb, signed, i), Candidate(x, cb, signed, i);
            && c !in all && (forall a :: a in all && a.dist == c.dist ==> Less(a, c))
            && Candidates(x, cb, signed, i + 1) == all + {c}
  {
    hide Product, Candidate;
    TheirEntries(x, cb, signed);
  }

  lemma TheirEntries(x: seq<int16>, cb: Codebook, signed: bool)
    requires cb.Valid() && |x| == cb.len
    ensures forall i :: 0 <= i < |cb.energy| ==> Candidate(x, cb, signed, i).entry == i && Candidate(x, cb, signed, i).parent == 0
  {
    hide Product;
  }

  lemma CandidateIs(x: seq<int16>, cb: Codebook, signed: bool, i: nat)
    requires cb.Valid() && |x| == cb.len && i < |cb.energy|
    ensures 0 <= i * cb.len + cb.len <= |cb.rows|
    ensures var c, p := Candidate(x, cb, signed, i), Dot(x, cb.rows, i * cb.len, cb.len);
            && c.dist == (if signed && p <= 0 then p else -p) + cb.energy[i] / 2
            && c.index == if signed && p <= 0 then i + |cb.energy| else i
  {
    hide Dot;
    RowFits(cb, i);
  }

  method InnerProduct(x: seq<int16>, rows: array<int16>, at: nat) returns (d: int)
    requires at + |x| <= rows.Length
    ensures d == Dot(x, rows[..], at, |x|)
  {
    d := 0;
    for j := 0 to |x|
      invariant d == Dot(x, rows[..], at, j)
    {
      d := d + Mult16(x[j], rows[at + j]);
    }
  }
}
