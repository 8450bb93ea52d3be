/** NBest: what it means for a short list to hold the best candidates, and what keeps it so. */
module NBest {
  /** A candidate: its distance, the survivor it extends, the codebook entry, and the index that is sent for it. */
  datatype Cand = Cand(dist: int, parent: nat, entry: nat, index: nat)

  /** Smaller distances first; on a tie the earlier survivor, and then the earlier entry. */
  ghost predicate Less(a: Cand, b: Cand) {
    || a.dist < b.dist
    || (a.dist == b.dist && (a.parent < b.parent || (a.parent == b.parent && a.entry < b.entry)))
  }

  ghost predicate Ascending(l: seq<Cand>) {
    forall i, j :: 0 <= i < j < |l| ==> Less(l[i], l[j])
  }

  ghost function Elements(l: seq<Cand>): set<Cand> {
    set c | c in l
  }

  /** l holds the n least of the candidates, in order. */
  ghost predicate Best(l: seq<Cand>, all: set<Cand>, n: nat) {
    && |l| <= n && Ascending(l)
    && (forall i :: 0 <= i < |l| ==> l[i] in all)
    && (forall c :: c in all && c !in l ==> Beyond(l, n, c))
  }

  /** There is no place left for c. */
  ghost predicate Beyond(l: seq<Cand>, n: nat, c: Cand) {
    |l| == n && (n > 0 ==> Less(l[n - 1], c))
  }

  /** A list of room n with c put in at m. */
  ghost function Inserted(l: seq<Cand>, m: nat, c: Cand, n: nat): (r: seq<Cand>)
    requires m <= |l| <= n
    ensures |r| == if |l| < n then |l| + 1 else n
    ensures forall k :: 0 <= k < |r| ==> r[k] == if k < m then l[k] else if k == m then c else l[k - 1]
  {
    var full := l[..m] + [c] + l[m..];
    if |full| <= n then full else full[..n]
  }

  /** Put after everything that is not farther, a new candidate leaves the list right, if it comes after its equals. */
  lemma InsertKeepsBest(l: seq<Cand>, all: set<Cand>, n: nat, m: nat, c: Cand)
    requires Best(l, all, n) && c !in all && m <= |l|
    requires forall a :: a in all && a.dist == c.dist ==> Less(a, c)
    requires forall k :: 0 <= k < m ==> l[k].dist <= c.dist
    requires m < |l| ==> c.dist < l[m].dist
    ensures Best(Inserted(l, m, c, n), all + {c}, n)
  {
    var r := Inserted(l, m, c, n);
    forall i, j | 0 <= i < j < |r| ensures Less(r[i], r[j]) {
      if j == m {
        assert l[i] in all;
      } else if i == m {
        assert j - 1 == m || Less(l[m], l[j - 1]);
      }
    }
    forall x | x in all + {c} && x !in r ensures Beyond(r, n, x) {
      StillBeyond(l, all, n, m, c, x);
    }
  }

  lemma StillBeyond(l: seq<Cand>, all: set<Cand>, n: nat, m: nat, c: Cand, x: Cand)
    requires Best(l, all, n) && m <= |l| && x in all + {c} && x !in Inserted(l, m, c, n)
    requires forall a :: a in all && a.dist == c.dist ==> Less(a, c)
    requires forall k :: 0 <= k < m ==> l[k].dist <= c.dist
    requires m < |l| ==> c.dist < l[m].dist
    ensures Beyond(Inserted(l, m, c, n), n, x)
  {
    var r := Inserted(l, m, c, n);
    WhatIsInserted(l, m, c, n);
    if x == c {
      assert m == n;
      if n > 0 {
        assert r[n - 1] == l[n - 1] && l[n - 1] in all;
      }
    } else if x in l {
      var k :| 0 <= k < |l| && l[k] == x;
      assert k == n - 1 >= m && |l| == n;
      if m < n - 1 {
        assert r[n - 1] == l[n - 2] && Less(l[n - 2], l[n - 1]);
      } else {
        assert r[n - 1] == c;
      }
    } else if n > 0 {
      assert Less(l[n - 1], x);
      if m < n - 1 {
        assert r[n - 1] == l[n - 2] && Less(l[n - 2], l[n - 1]);
      } else if m == n - 1 {
        assert r[n - 1] == c;
      }
    }
  }

  lemma WhatIsInserted(l: seq<Cand>, m: nat, c: Cand, n: nat)
    requires m <= |l| <= n
    ensures m < n ==> c in Inserted(l, m, c, n)
    ensures forall k :: 0 <= k < m ==> l[k] in Inserted(l, m, c, n)
    ensures forall k :: m <= k < |l| && k < n - 1 ==> l[k] in Inserted(l, m, c, n)
  {
    var r := Inserted(l, m, c, n);
    assert m < n ==> r[m] == c;
    forall k | 0 <= k < m ensures l[k] in r {
      assert r[k] == l[k];
    }
    forall k | m <= k < |l| && k < n - 1 ensures l[k] in r {
      assert r[k + 1] == l[k];
    }
  }

  /** If a list is right for some candidates and the best of some others, it is right for all of those others too. */
  lemma BestOfTheRest(l: seq<Cand>, all: set<Cand>, t: seq<Cand>, others: set<Cand>, n: nat)
    requires Best(t, others, n) && Best(l, all + Elements(t), n)
    ensures Best(l, all + others, n)
  {
    forall c | c in all + others && c !in l ensures Beyond(l, n, c) {
      if c !in all + Elements(t) {
        assert Beyond(t, n, c);
        if n > 0 {
          LastIsBefore(l, all, t, n, c);
        } else {
          assert |l| == 0;
        }
      }
    }
    forall i | 0 <= i < |l| ensures l[i] in all + others {
      assert l[i] in all + Elements(t);
    }
  }

  lemma LastIsBefore(l: seq<Cand>, all: set<Cand>, t: seq<Cand>, n: nat, c: Cand)
    requires n > 0 && |t| == n && Ascending(t) && Less(t[n - 1], c) && Best(l, all + Elements(t), n)
    ensures |l| == n && Less(l[n - 1], c)
  {
    if k :| 0 <= k < n && t[k] !in l {
      assert Beyond(l, n, t[k]);
      assert k == n - 1 || Less(t[k], t[n - 1]);
    } else {
      SizeOfAscending(t);
      SizeOfAscending(l);
      var a, b := Elements(t), Elements(l);
      forall x | x in a ensures x in b {
        var k :| 0 <= k < n && t[k] == x;
      }
      SubsetOfSameSize(a, b);
      assert l[n - 1] in a;
      var k :| 0 <= k < n && t[k] == l[n - 1];
      assert k == n - 1 || Less(t[k], t[n - 1]);
    }
  }

  lemma {:induction false} SizeOfAscending(l: seq<Cand>)
    requires Ascending(l)
    ensures |Elements(l)| == |l|
    decreases |l|
  {
    if l != [] {
      var n := |l| - 1;
      SizeOfAscending(l[..n]);
      assert Elements(l) == Elements(l[..n]) + {l[n]};
      assert l[n] !in l[..n];
    }
  }

  lemma {:induction false} SubsetOfSameSize(a: set<Cand>, b: set<Cand>)
    requires a <= b && |b| <= |a|
    ensures a == b
    decreases |a|
  {
    if a != {} {
      var x :| x in a;
      SubsetOfSameSize(a - {x}, b - {x});
      assert a == (a - {x}) + {x} && b == (b - {x}) + {x};
    }
  }

  /** The n best are determined, order and all. */
  lemma {:induction false} BestIsUnique(l: seq<Cand>, m: seq<Cand>, all: set<Cand>, n: nat)
    requires Best(l, all, n) && Best(m, all, n)
    ensures l == m
  {
    forall k: nat | k < |l| && k < |m| ensures l[k] == m[k] {
      SamePrefix(l, m, all, n, k);
    }
    AtLeastAsLong(l, m, all, n);
    AtLeastAsLong(m, l, all, n);
  }

  lemma AtLeastAsLong(l: seq<Cand>, m: seq<Cand>, all: set<Cand>, n: nat)
    requires Best(l, all, n) && Best(m, all, n)
    ensures |l| >= |m|
  {
    if |l| < n {
      SizeOfAscending(l);
      SizeOfAscending(m);
      var a, b := Elements(l), Elements(m);
      assert b <= a;
      SubsetIsSmaller(b, a);
    }
  }

  lemma {:induction false} SubsetIsSmaller(a: set<Cand>, b: set<Cand>)
    requires a <= b
    ensures |a| <= |b|
    decreases |a|
  {
    if a != {} {
      var x :| x in a;
      SubsetIsSmaller(a - {x}, b - {x});
    }
  }

  lemma {:induction false} SamePrefix(l: seq<Cand>, m: seq<Cand>, all: set<Cand>, n: nat, k: nat)
    requires Best(l, all, n) && Best(m, all, n) && k < |l| && k < |m|
    ensures l[k] == m[k]
    decreases k
  {
    forall j: nat | j < k ensures l[j] == m[j] {
      SamePrefix(l, m, all, n, j);
    }
    NotLater(l, m, all, n, k);
    NotLater(m, l, all, n, k);
  }

  lemma AllDiffer(l: seq<Cand>)
    requires Ascending(l)
    ensures forall i, j :: 0 <= i < j < |l| ==> l[i] != l[j]
  {
  }

  lemma NotLater(l: seq<Cand>, m: seq<Cand>, all: set<Cand>, n: nat, k: nat)
    requires Best(l, all, n) && Best(m, all, n) && k < |l| && k < |m|
    requires forall j :: 0 <= j < k ==> l[j] == m[j]
    ensures m[k] == l[k] || Less(m[k], l[k])
  {
    assert l[k] in all;
    if l[k] in m {
      var j :| 0 <= j < |m| && m[j] == l[k];
      AllDiffer(l);
      assert j >= k;
    } else {
      assert Beyond(m, n, l[k]);
      assert k == n - 1 || Less(m[k], m[n - 1]);
    }
  }

  // ----- Candidates below a limit -----

  ghost function Below(all: set<Cand>, limit: int): set<Cand> {
    set c | c in all && c.dist < limit
  }

  /** How many of an ascending list are below the limit: they come first. */
  ghost function Near(l: seq<Cand>, limit: int): (k: nat)
    ensures k <= |l| && (k > 0 ==> l[k - 1].dist < limit) && forall i :: k <= i < |l| ==> l[i].dist >= limit
  {
    if l == [] || l[|l| - 1].dist < limit then |l| else Near(l[..|l| - 1], limit)
  }

  lemma NearAreBelow(l: seq<Cand>, limit: int)
    requires Ascending(l)
    ensures forall i :: 0 <= i < Near(l, limit) ==> l[i].dist < limit
    ensures Elements(l[..Near(l, limit)]) == Below(Elements(l), limit)
  {
    var k := Near(l, limit);
    forall i | 0 <= i < k ensures l[i].dist < limit {
      assert i == k - 1 || Less(l[i], l[k - 1]);
    }
    forall c | c in l && c.dist < limit ensures c in l[..k] {
      var i :| 0 <= i < |l| && l[i] == c;
      assert l[..k][i] == c;
    }
  }

  /** The part of the n best that is below the limit is the n best of what is below it. */
  lemma BestBelow(l: seq<Cand>, all: set<Cand>, n: nat, limit: int)
    requires Best(l, all, n)
    ensures Best(l[..Near(l, limit)], Below(all, limit), n)
    ensures Elements(l[..Near(l, limit)]) == Below(Elements(l), limit)
  {
    var near := l[..Near(l, limit)];
    NearAreBelow(l, limit);
    forall c | c in Below(all, limit) && c !in near ensures Beyond(near, n, c) {
      assert c !in Elements(near);
      assert c !in l;
    }
  }

  lemma BelowOfUnion(a: set<Cand>, b: set<Cand>, limit: int)
    ensures Below(a + b, limit) == Below(a, limit) + Below(b, limit)
  {
  }

  /** The candidate as an extension of a survivor that has come so far. */
  ghost function Moved(c: Cand, so_far: int, parent: nat): Cand {
    Cand(so_far + c.dist, parent, c.entry, c.index)
  }

  lemma MovedKeepsBest(l: seq<Cand>, all: set<Cand>, n: nat, so_far: int, parent: nat)
    requires Best(l, all, n) && forall c :: c in all ==> c.parent == 0
    ensures Best(seq(|l|, i requires 0 <= i < |l| => Moved(l[i], so_far, parent)),
                 set c | c in all :: Moved(c, so_far, parent), n)
  {
    var r := seq(|l|, i requires 0 <= i < |l| => Moved(l[i], so_far, parent));
    var there := set c | c in all :: Moved(c, so_far, parent);
    forall i, j | 0 <= i < j < |r| ensures Less(r[i], r[j]) {
      assert Less(l[i], l[j]) && l[i] in all && l[j] in all;
    }
    forall i | 0 <= i < |l| ensures Moved(l[i], so_far, parent) in r {
      assert r[i] == Moved(l[i], so_far, parent);
    }
    forall d | d in there && d !in r ensures Beyond(r, n, d) {
      var c :| c in all && d == Moved(c, so_far, parent);
      assert Beyond(l, n, c);
      assert n > 0 ==> l[n - 1] in all;
    }
  }
}
