/** Qmf: the two halves of the quadrature mirror filter bank against their definitions. */
module Qmf {
  import opened BitOps
  import opened FixedPoint
  import opened Filters

  // ----- Synthesis -----

  ghost function Evens(a: seq<int16>): (e: seq<int16>)
    ensures |e| == |a| / 2
  {
    seq(|a| / 2, j requires 0 <= j < |a| / 2 => a[2 * j])
  }

  ghost function Odds(a: seq<int16>): (e: seq<int16>)
    ensures |e| == |a| / 2
  {
    seq(|a| / 2, j requires 0 <= j < |a| / 2 => a[2 * j + 1])
  }

  /** The samples before the frame, oldest first, as the memory holds them: every second entry, newest first. */
  ghost function Past(mem: seq<int16>, m: nat): (p: seq<int16>)
    requires |mem| >= 2 * m
    ensures |p| == m
  {
    seq(m, i requires 0 <= i < m => mem[2 * (m - 1 - i) + 1])
  }

  /** The memory's other entries, which play no part. */
  ghost function Unused(mem: seq<int16>, m: nat): (p: seq<int16>)
    requires |mem| >= 2 * m
  {
    seq(m, i requires 0 <= i < m => mem[2 * i]) + mem[2 * m..]
  }

  /** The least coefficient has no negative in 16 bits: the sum of the samples that meet it. */
  ghost function Lost(c: seq<int16>, s: seq<int16>, i: nat, t: nat): int
    requires t <= i <= |s| && t <= |c|
  {
    if t == 0 then 0 else Lost(c, s, i, t - 1) + if c[t - 1] == -0x8000 then s[i - t] else 0
  }

  /** The polyphase definition, sample k of the output, s1 and s2 being the past and the frame of each band:
      y[2n] = sum of a[2j] (x1 - x2)[n - j] and y[2n + 1] = sum of a[2j + 1] (x1 + x2)[n - j]. */
  ghost function SynthSum(a: seq<int16>, s1: seq<int16>, s2: seq<int16>, k: nat): int
    requires |s1| == |s2| && |a| / 2 + k / 2 < |s1|
  {
    var m := |a| / 2;
    var at := m + k / 2 + 1;
    if k % 2 == 0 then Taps(Evens(a), s1, at, 0, m) - Taps(Evens(a), s2, at, 0, m)
    else Taps(Odds(a), s1, at, 0, m) + Taps(Odds(a), s2, at, 0, m)
  }

  ghost function SynthLost(a: seq<int16>, s2: seq<int16>, k: nat): int
    requires |a| / 2 + k / 2 < |s2|
  {
    if k % 2 == 0 then Lost(Evens(a), s2, |a| / 2 + k / 2 + 1, |a| / 2) else 0
  }

  ghost function Synth(a: seq<int16>, s1: seq<int16>, s2: seq<int16>, k: nat): int16
    requires |s1| == |s2| && |a| / 2 + k / 2 < |s1|
  {
    Saturate(RoundShift(SynthSum(a, s1, s2, k), 15) - 2 * SynthLost(a, s2, k))
  }

  /** An output in plain terms: the even coefficients on the difference of the bands, the odd ones on their sum, newest
      sample first, rounded at 15 bits and kept within 16. */
  lemma SynthIs(a: seq<int16>, s1: seq<int16>, s2: seq<int16>, k: nat, c: seq<int16>)
    requires |s1| == |s2| && |a| / 2 + k / 2 < |s1|
    requires |c| == |a| / 2 && forall j :: 0 <= j < |c| ==> c[j] == a[2 * j + k % 2] && c[j] != -0x8000
    ensures var at := |a| / 2 + k / 2 + 1;
            var low, high := Taps(c, s1, at, 0, |c|), Taps(c, s2, at, 0, |c|);
            var r := ((if k % 2 == 0 then low - high else low + high) + 0x4000) / 0x8000;
            Synth(a, s1, s2, k) == if r > 32767 then 32767 else if r < -32767 then -32767 else r
  {
    hide Taps, Lost, RoundShift;
    FifteenBits(SynthSum(a, s1, s2, k));
    if k % 2 == 0 {
      assert c == Evens(a);
      NothingLost(Evens(a), s2, |a| / 2 + k / 2 + 1, |a| / 2);
    } else {
      assert c == Odds(a);
    }
  }

  lemma FifteenBits(x: int)
    ensures RoundShift(x, 15) == (x + 0x4000) / 0x8000
  {
    RoundOne();
  }

  // Carrying the memory from frame to frame.

  lemma {:induction false} TapsOfDrop(c: seq<int16>, s: seq<int16>, d: nat, i: nat, j: nat, t: nat)
    requires d <= |s| && t <= i <= |s| - d && j + t <= |c|
    ensures Taps(c, s[d..], i, j, t) == Taps(c, s, d + i, j, t)
  {
    if t > 0 {
      TapsOfDrop(c, s, d, i, j, t - 1);
    }
  }

  lemma {:induction false} LostOfDrop(c: seq<int16>, s: seq<int16>, d: nat, i: nat, t: nat)
    requires d <= |s| && t <= i <= |s| - d && t <= |c|
    ensures Lost(c, s[d..], i, t) == Lost(c, s, d + i, t)
  {
    if t > 0 {
      LostOfDrop(c, s, d, i, t - 1);
    }
  }

  lemma {:induction false} LostOfPrefix(c: seq<int16>, s: seq<int16>, r: seq<int16>, i: nat, t: nat)
    requires t <= i <= |s| && i <= |r| && t <= |c| && forall k :: 0 <= k < i ==> s[k] == r[k]
    ensures Lost(c, s, i, t) == Lost(c, r, i, t)
  {
    if t > 0 {
      LostOfPrefix(c, s, r, i, t - 1);
    }
  }

  /** What is left of a line after d samples have gone by. */
  ghost function Later(past: seq<int16>, x: seq<int16>): (p: seq<int16>)
    ensures |p| == |past|
  {
    (past + x)[|x|..]
  }

  /** Two frames, the memories carried between them, are one long frame. */
  lemma SynthFrames(a: seq<int16>, p1: seq<int16>, p2: seq<int16>,
                    x1: seq<int16>, x2: seq<int16>, u1: seq<int16>, u2: seq<int16>, k: nat)
    requires |p1| == |p2| == |a| / 2 && |x1| == |x2| && |u1| == |u2| && k < 2 * |x1| + 2 * |u1|
    ensures Synth(a, p1 + (x1 + u1), p2 + (x2 + u2), k) ==
            if k < 2 * |x1| then Synth(a, p1 + x1, p2 + x2, k)
            else Synth(a, Later(p1, x1) + u1, Later(p2, x2) + u2, k - 2 * |x1|)
    ensures Later(Later(p1, x1), u1) == Later(p1, x1 + u1)
  {
    hide Taps, Lost, RoundShift;
    var m := |a| / 2;
    var l1, l2 := p1 + (x1 + u1), p2 + (x2 + u2);
    if k < 2 * |x1| {
      SynthOfPrefix(a, l1, l2, p1 + x1, p2 + x2, k);
    } else {
      var d := |x1|;
      assert l1[d..] == Later(p1, x1) + u1;
      assert l2[d..] == Later(p2, x2) + u2;
      SynthOfDrop(a, l1, l2, d, k - 2 * d);
    }
  }

  lemma SynthOfPrefix(a: seq<int16>, s1: seq<int16>, s2: seq<int16>, r1: seq<int16>, r2: seq<int16>, k: nat)
    requires |s1| == |s2| && |r1| == |r2| && |a| / 2 + k / 2 < |r1| <= |s1|
    requires forall i :: 0 <= i < |r1| ==> s1[i] == r1[i]
    requires forall i :: 0 <= i < |r2| ==> s2[i] == r2[i]
    ensures Synth(a, s1, s2, k) == Synth(a, r1, r2, k)
  {
    hide Taps, Lost, RoundShift;
    var m := |a| / 2;
    var at := m + k / 2 + 1;
    var c := if k % 2 == 0 then Evens(a) else Odds(a);
    TapsOfPrefix(c, s1, r1, at, 0, m);
    TapsOfPrefix(c, s2, r2, at, 0, m);
    LostOfPrefix(c, s2, r2, at, m);
  }

  lemma SynthOfDrop(a: seq<int16>, s1: seq<int16>, s2: seq<int16>, d: nat, k: nat)
    requires |s1| == |s2| && d <= |s1| && |a| / 2 + k / 2 < |s1| - d
    ensures Synth(a, s1, s2, k + 2 * d) == Synth(a, s1[d..], s2[d..], k)
  {
    hide Taps, Lost, RoundShift;
    var m := |a| / 2;
    var at := m + k / 2 + 1;
    assert (k + 2 * d) / 2 == k / 2 + d && (k + 2 * d) % 2 == k % 2;
    var c := if k % 2 == 0 then Evens(a) else Odds(a);
    TapsOfDrop(c, s1, d, at, 0, m);
    TapsOfDrop(c, s2, d, at, 0, m);
    LostOfDrop(c, s2, d, at, m);
  }

  // When the definition is met.

  lemma {:induction false} NothingLost(c: seq<int16>, s: seq<int16>, i: nat, t: nat)
    requires t <= i <= |s| && t <= |c| && forall j :: 0 <= j < |c| ==> c[j] != -0x8000
    ensures Lost(c, s, i, t) == 0
  {
    if t > 0 {
      NothingLost(c, s, i, t - 1);
    }
  }

  /** A line that is silent but for one sample. */
  ghost function Impulse(n: nat, at: nat): (s: seq<int16>)
    ensures |s| == n
  {
    seq(n, i => if i == at then 1 else 0)
  }

  lemma {:induction false} TapsOfImpulse(c: seq<int16>, n: nat, at: nat, i: nat, t: nat)
    requires t <= i <= n && t <= |c| && at < i
    ensures Taps(c, Impulse(n, at), i, 0, t) == if i - at <= t then c[i - at - 1] else 0
    ensures Lost(c, Impulse(n, at), i, t) == if i - at <= t && c[i - at - 1] == -0x8000 then 1 else 0
  {
    if t > 0 {
      TapsOfImpulse(c, n, at, i, t - 1);
      TimesUnit(c[t - 1]);
    }
  }

  lemma TimesUnit(c: int16)
    ensures Mult16(c, 1) == c && Mult16(c, 0) == 0
  {
  }

  lemma {:induction false} TapsOfSilence(c: seq<int16>, s: seq<int16>, i: nat, t: nat)
    requires t <= i <= |s| && t <= |c| && forall k :: 0 <= k < |s| ==> s[k] == 0
    ensures Taps(c, s, i, 0, t) == 0
  {
    if t > 0 {
      TapsOfSilence(c, s, i, t - 1);
      TimesUnit(c[t - 1]);
    }
  }

  ghost predicate MeetsDefinition(a: seq<int16>) {
    forall s1: seq<int16>, s2: seq<int16>, k: nat :: |s1| == |s2| && |a| / 2 + k / 2 < |s1| ==>
      Synth(a, s1, s2, k) == Saturate(RoundShift(SynthSum(a, s1, s2, k), 15))
  }

  /** The outputs are those of the definition for all signals exactly when no even coefficient is the least one. */
  lemma DefinitionIsMet(a: seq<int16>)
    ensures MeetsDefinition(a) <==> forall j :: 0 <= j < |a| / 2 ==> Evens(a)[j] != -0x8000
  {
    hide Taps, Lost, RoundShift;
    if j :| 0 <= j < |a| / 2 && Evens(a)[j] == -0x8000 {
      LeastCoefficientShows(a, j);
    } else {
      forall s1: seq<int16>, s2: seq<int16>, k: nat | |s1| == |s2| && |a| / 2 + k / 2 < |s1|
        ensures Synth(a, s1, s2, k) == Saturate(RoundShift(SynthSum(a, s1, s2, k), 15))
      {
        NothingLost(Evens(a), s2, |a| / 2 + k / 2 + 1, |a| / 2);
      }
    }
  }

  lemma LeastCoefficientShows(a: seq<int16>, j: nat)
    requires j < |a| / 2 && Evens(a)[j] == -0x8000
    ensures !MeetsDefinition(a)
  {
    hide Taps, Lost, RoundShift;
    var m := |a| / 2;
    var s1, s2 := Impulse(m + j + 1, m + j + 1), Impulse(m + j + 1, m);
    assert 2 * j / 2 == j && 2 * j % 2 == 0;
    TapsOfSilence(Evens(a), s1, m + j + 1, m);
    TapsOfImpulse(Evens(a), m + j + 1, m, m + j + 1, m);
    assert SynthSum(a, s1, s2, 2 * j) == 0x8000 && SynthLost(a, s2, 2 * j) == 1;
    RoundOne();
    assert Synth(a, s1, s2, 2 * j) == -1;
  }

  lemma RoundOne()
    ensures RoundShift(0x8000, 15) == 1 && Pow2(15) == 0x8000
  {
    assert Pow2(4) == 16;
    assert Pow2(8) == 0x100;
    assert Pow2(12) == 0x1000;
  }

  /** The memory of either bank holds the newest sample first; that of the synthesis bank has it at every second place. */
  lemma MemoryIs(mem: seq<int16>, m: nat, i: nat)
    requires i < m
    ensures 2 * m <= |mem| ==> Past(mem, m)[m - 1 - i] == mem[2 * i + 1]
    ensures m <= |mem| ==> Before(mem, m)[m - 1 - i] == mem[i]
  {
  }

  // The loops.

  ghost function Negatives(c: seq<int16>): (n: seq<int16>)
    ensures |n| == |c|
  {
    seq(|c|, j requires 0 <= j < |c| => Wrap16(-(c[j] as int)))
  }

  lemma Mult16OfNegative(a: int16, b: int16)
    ensures Mult16(Wrap16(-(a as int)), b) == -Mult16(a, b) - 0x1_0000 * if a == -0x8000 then b as int else 0
  {
  }

  lemma {:induction false} TapsOfNegatives(c: seq<int16>, s: seq<int16>, i: nat, t: nat)
    requires t <= i <= |s| && t <= |c|
    ensures Taps(Negatives(c), s, i, 0, t) == -Taps(c, s, i, 0, t) - 0x1_0000 * Lost(c, s, i, t)
  {
    if t > 0 {
      TapsOfNegatives(c, s, i, t - 1);
      Mult16OfNegative(c[t - 1], s[i - t]);
    }
  }

  lemma RoundLess(x: int, lost: int)
    ensures RoundShift(x - 0x1_0000 * lost, 15) == RoundShift(x, 15) - 2 * lost
  {
    RoundOne();
  }

  lemma TwoTaps(c: seq<int16>, s: seq<int16>, i: nat, j: nat)
    requires j + 2 <= i <= |s| && j + 2 <= |c|
    ensures Taps(c, s, i, 0, j + 2) ==
            Taps(c, s, i, 0, j) + Mult16(c[j], s[i - j - 1]) + Mult16(c[j + 1], s[i - j - 2])
  {
    assert Taps(c, s, i, 0, j + 1) == Taps(c, s, i, 0, j) + Mult16(c[j], s[i - j - 1]);
  }

  /** xx holds a line backwards. */
  ghost predicate Backwards(xx: seq<int16>, s: seq<int16>) {
    |xx| == |s| && forall q :: 0 <= q < |xx| ==> xx[q] == s[|s| - 1 - q]
  }

  method Reversed(x: array<int16>, n: nat, mem: array<int16>, m: nat) returns (xx: array<int16>)
    requires n <= x.Length && 2 * m <= mem.Length
    ensures fresh(xx) && Backwards(xx[..], Past(mem[..], m) + x[..n])
  {
    xx := new int16[m + n];
    ghost var s := Past(mem[..], m) + x[..n];
    for i := 0 to n
      invariant forall q :: 0 <= q < i ==> xx[q] == s[m + n - 1 - q]
    {
      xx[i] := x[n - 1 - i];
    }
    for i := 0 to m
      invariant forall q :: 0 <= q < n + i ==> xx[q] == s[m + n - 1 - q]
    {
      xx[n + i] := mem[2 * i + 1];
    }
  }

  method CarryOver(xx: array<int16>, mem: array<int16>, m: nat, ghost past: seq<int16>, ghost x: seq<int16>)
    requires xx != mem && 2 * m <= mem.Length && |past| == m && Backwards(xx[..], past + x)
    modifies mem
    ensures Past(mem[..], m) == Later(past, x) && Unused(mem[..], m) == Unused(old(mem[..]), m)
  {
    for i := 0 to m
      invariant forall k :: 0 <= k < i ==> mem[2 * k + 1] == xx[k]
      invariant forall k :: 0 <= k < m ==> mem[2 * k] == old(mem[2 * k])
      invariant forall k :: 2 * m <= k < mem.Length ==> mem[k] == old(mem[k])
    {
      mem[2 * i + 1] := xx[i];
    }
    ghost var left, right := Past(mem[..], m), Later(past, x);
    forall p | 0 <= p < m ensures left[p] == right[p] {
      assert mem[2 * (m - 1 - p) + 1] == xx[m - 1 - p];
    }
  }

  /** The sums of one pass, in 32 bits: outputs 2i to 2i + 3. */
  method FourSums(xx1: array<int16>, xx2: array<int16>, a: seq<int16>, m2: nat, n2: nat, i: nat,
                  ghost s1: seq<int16>, ghost s2: seq<int16>)
    returns (y0: int, y1: int, y2: int, y3: int)
    requires |a| == 2 * m2 && m2 % 2 == 0 && i + 1 < n2 && |s1| == |s2| == m2 + n2
    requires Backwards(xx1[..], s1) && Backwards(xx2[..], s2)
    ensures y0 == SynthSum(a, s1, s2, 2 * i) - 0x1_0000 * SynthLost(a, s2, 2 * i)
    ensures y1 == SynthSum(a, s1, s2, 2 * i + 1)
    ensures y2 == SynthSum(a, s1, s2, 2 * i + 2) - 0x1_0000 * SynthLost(a, s2, 2 * i + 2)
    ensures y3 == SynthSum(a, s1, s2, 2 * i + 3)
  {
    hide Taps, Mult16, Lost, Wrap16;
    ghost var even, odd, neg := Evens(a), Odds(a), Negatives(Evens(a));
    ghost var p := m2 + i + 1;
    y0, y1, y2, y3 := 0, 0, 0, 0;
    var x10, x20 := xx1[n2 - 2 - i], xx2[n2 - 2 - i];
    NoTaps(even, s1, p, 0);
    NoTaps(odd, s1, p, 0);
    NoTaps(neg, s2, p, 0);
    NoTaps(odd, s2, p, 0);
    NoTaps(even, s1, p + 1, 0);
    NoTaps(odd, s1, p + 1, 0);
    NoTaps(neg, s2, p + 1, 0);
    NoTaps(odd, s2, p + 1, 0);
    var j := 0;
    while j < m2
      invariant 0 <= j <= m2 && j % 2 == 0 && x10 == s1[p - j] && x20 == s2[p - j]
      invariant y0 == Taps(even, s1, p, 0, j) + Taps(neg, s2, p, 0, j)
      invariant y1 == Taps(odd, s1, p, 0, j) + Taps(odd, s2, p, 0, j)
      invariant y2 == Taps(even, s1, p + 1, 0, j) + Taps(neg, s2, p + 1, 0, j)
      invariant y3 == Taps(odd, s1, p + 1, 0, j) + Taps(odd, s2, p + 1, 0, j)
    {
      TwoTaps(even, s1, p, j);
      TwoTaps(neg, s2, p, j);
      TwoTaps(odd, s1, p, j);
      TwoTaps(odd, s2, p, j);
      TwoTaps(even, s1, p + 1, j);
      TwoTaps(neg, s2, p + 1, j);
      TwoTaps(odd, s1, p + 1, j);
      TwoTaps(odd, s2, p + 1, j);
      var a0, a1 := a[2 * j], a[2 * j + 1];
      var x11, x21 := xx1[n2 - 1 + j - i], xx2[n2 - 1 + j - i];
      y0 := y0 + Mult16(a0, x11) + Mult16(Wrap16(-(a0 as int)), x21);
      y1 := y1 + Mult16(a1, x11) + Mult16(a1, x21);
      y2 := y2 + Mult16(a0, x10) + Mult16(Wrap16(-(a0 as int)), x20);
      y3 := y3 + Mult16(a1, x10) + Mult16(a1, x20);
      a0, a1 := a[2 * j + 2], a[2 * j + 3];
      x10, x20 := xx1[n2 + j - i], xx2[n2 + j - i];
      y0 := y0 + Mult16(a0, x10) + Mult16(Wrap16(-(a0 as int)), x20);
      y1 := y1 + Mult16(a1, x10) + Mult16(a1, x20);
      y2 := y2 + Mult16(a0, x11) + Mult16(Wrap16(-(a0 as int)), x21);
      y3 := y3 + Mult16(a1, x11) + Mult16(a1, x21);
      assert x10 == s1[p - j - 2] && x20 == s2[p - j - 2];
      j := j + 2;
    }
    TapsOfNegatives(even, s2, p, m2);
    TapsOfNegatives(even, s2, p + 1, m2);
    assert (2 * i + 1) / 2 == i && (2 * i + 2) / 2 == i + 1 && (2 * i + 3) / 2 == i + 1;
  }

  lemma OutputOfSum(a: seq<int16>, s1: seq<int16>, s2: seq<int16>, k: nat, sum: int)
    requires |s1| == |s2| && |a| / 2 + k / 2 < |s1|
    requires sum == SynthSum(a, s1, s2, k) - 0x1_0000 * SynthLost(a, s2, k)
    ensures Saturate(RoundShift(sum, 15)) == Synth(a, s1, s2, k)
  {
    hide SynthSum, SynthLost, RoundShift;
    RoundLess(SynthSum(a, s1, s2, k), SynthLost(a, s2, k));
  }

  /** One turn of the outer loop of qmf_synth, up to the stores. */
  method FourOutputs(xx1: array<int16>, xx2: array<int16>, a: seq<int16>, m2: nat, n2: nat, i: nat,
                     ghost s1: seq<int16>, ghost s2: seq<int16>)
    returns (v0: int16, v1: int16, v2: int16, v3: int16)
    requires |a| == 2 * m2 && m2 % 2 == 0 && i + 1 < n2 && |s1| == |s2| == m2 + n2
    requires Backwards(xx1[..], s1) && Backwards(xx2[..], s2)
    ensures v0 == Synth(a, s1, s2, 2 * i) && v1 == Synth(a, s1, s2, 2 * i + 1)
    ensures v2 == Synth(a, s1, s2, 2 * i + 2) && v3 == Synth(a, s1, s2, 2 * i + 3)
  {
    hide Synth, SynthSum, SynthLost, RoundShift, Backwards;
    var y0, y1, y2, y3 := FourSums(xx1, xx2, a, m2, n2, i, s1, s2);
    NothingLostAtOdd(a, s2, 2 * i + 1);
    NothingLostAtOdd(a, s2, 2 * i + 3);
    OutputOfSum(a, s1, s2, 2 * i, y0);
    OutputOfSum(a, s1, s2, 2 * i + 1, y1);
    OutputOfSum(a, s1, s2, 2 * i + 2, y2);
    OutputOfSum(a, s1, s2, 2 * i + 3, y3);
    v0 := Saturate(RoundShift(y0, 15));
    v1 := Saturate(RoundShift(y1, 15));
    v2 := Saturate(RoundShift(y2, 15));
    v3 := Saturate(RoundShift(y3, 15));
  }

  /** The outer loop of qmf_synth. */
  method AllOutputs(xx1: array<int16>, xx2: array<int16>, a: seq<int16>, y: array<int16>, m2: nat, n2: nat,
                    ghost s1: seq<int16>, ghost s2: seq<int16>)
    requires |a| == 2 * m2 && m2 % 2 == 0 && n2 % 2 == 0 && 2 * n2 <= y.Length && |s1| == |s2| == m2 + n2
    requires y != xx1 && y != xx2 && Backwards(xx1[..], s1) && Backwards(xx2[..], s2)
    modifies y
    ensures forall k :: 0 <= k < 2 * n2 ==> y[k] == Synth(a, s1, s2, k)
    ensures y[2 * n2..] == old(y[2 * n2..])
  {
    hide Synth, Backwards;
    var i := 0;
    while i < n2
      invariant 0 <= i <= n2 && i % 2 == 0
      invariant forall k :: 0 <= k < 2 * i ==> y[k] == Synth(a, s1, s2, k)
      invariant y[2 * n2..] == old(y[2 * n2..])
    {
      var v0, v1, v2, v3 := FourOutputs(xx1, xx2, a, m2, n2, i, s1, s2);
      y[2 * i], y[2 * i + 1], y[2 * i + 2], y[2 * i + 3] := v0, v1, v2, v3;
      i := i + 2;
    }
  }

  /** qmf_synth, for a frame of 2 * n2 outputs and a filter of 2 * m2 taps. The inputs are copied before anything is
      written. */
  method QmfSynth(x1: array<int16>, x2: array<int16>, a: seq<int16>, y: array<int16>, n2: nat, m2: nat,
                  mem1: array<int16>, mem2: array<int16>)
    requires n2 % 2 == 0 && m2 % 2 == 0 && |a| == 2 * m2 && n2 <= x1.Length && n2 <= x2.Length && 2 * n2 <= y.Length
    requires 2 * m2 <= mem1.Length && 2 * m2 <= mem2.Length && mem1 != mem2 && y != mem1 && y != mem2
    modifies y, mem1, mem2
    ensures var p1, p2, u1, u2 := old(Past(mem1[..], m2)), old(Past(mem2[..], m2)), old(x1[..n2]), old(x2[..n2]);
            && (forall k :: 0 <= k < 2 * n2 ==> y[k] == Synth(a, p1 + u1, p2 + u2, k))
            && Past(mem1[..], m2) == Later(p1, u1) && Past(mem2[..], m2) == Later(p2, u2)
            && Unused(mem1[..], m2) == old(Unused(mem1[..], m2)) && Unused(mem2[..], m2) == old(Unused(mem2[..], m2))
    ensures y[2 * n2..] == old(y[2 * n2..])
  {
    hide Synth, Past, Later, Unused, Backwards;
    ghost var p1, p2, u1, u2 := Past(mem1[..], m2), Past(mem2[..], m2), x1[..n2], x2[..n2];
    var xx1 := Reversed(x1, n2, mem1, m2);
    var xx2 := Reversed(x2, n2, mem2, m2);
    AllOutputs(xx1, xx2, a, y, m2, n2, p1 + u1, p2 + u2);
    CarryOver(xx1, mem1, m2, p1, u1);
    CarryOver(xx2, mem2, m2, p2, u2);
  }

  lemma NothingLostAtOdd(a: seq<int16>, s2: seq<int16>, k: nat)
    requires |a| / 2 + k / 2 < |s2| && k % 2 == 1
    ensures SynthLost(a, s2, k) == 0
  {
  }

  // ----- Decomposition -----

  /** The samples before the frame, oldest first: the memory is the newest first. */
  ghost function Before(mem: seq<int16>, m: nat): (p: seq<int16>)
    requires m <= |mem|
    ensures |p| == m
  {
    seq(m, i requires 0 <= i < m => mem[m - 1 - i])
  }

  /** SHR16 by one bit. */
  function Half(x: int16): (h: int16)
    ensures -0x4000 <= h < 0x4000
  {
    x / 2
  }

  lemma HalfIs(x: int16)
    ensures 2 * (Half(x) as int) <= x <= 2 * (Half(x) as int) + 1
  {
  }

  ghost function Halves(x: seq<int16>): (h: seq<int16>)
    ensures |h| == |x|
  {
    seq(|x|, i requires 0 <= i < |x| => Half(x[i]))
  }

  ghost predicate AreHalves(s: seq<int16>) {
    forall i :: 0 <= i < |s| ==> -0x4000 <= s[i] < 0x4000
  }

  /** The symmetric filter of which the loop reads the second half only. */
  ghost function Symmetric(aa: seq<int16>): (c: seq<int16>)
    ensures |c| == |aa|
    ensures (forall m :: 0 <= m < |aa| ==> aa[m] == aa[|aa| - 1 - m]) ==> c == aa
  {
    seq(|aa|, m requires 0 <= m < |aa| => aa[if m < |aa| / 2 then |aa| - 1 - m else m])
  }

  /** c[0] * s[i - 1] - c[1] * s[i - 2] + ..., t terms: the mirror image of the filter c. */
  ghost function MirrorTaps(c: seq<int16>, s: seq<int16>, i: nat, t: nat): int
    requires t <= i <= |s| && t <= |c|
  {
    if t == 0 then 0
    else MirrorTaps(c, s, i, t - 1) + if t % 2 == 1 then Mult16(c[t - 1], s[i - t]) else -Mult16(c[t - 1], s[i - t])
  }

  /** The direct forms: every second output of the filter and of its mirror image. */
  ghost function LowBand(c: seq<int16>, s: seq<int16>, k: nat): int16
    requires 2 * k + |c| <= |s|
  {
    Saturate(RoundShift(Taps(c, s, 2 * k + |c|, 0, |c|), 15))
  }

  ghost function HighBand(c: seq<int16>, s: seq<int16>, k: nat): int16
    requires 2 * k + |c| <= |s|
  {
    Saturate(RoundShift(MirrorTaps(c, s, 2 * k + |c|, |c|), 15))
  }

  /** The bands in plain terms: the filter, and the filter with the sign of every second coefficient changed, at every second
      sample, newest sample first. */
  lemma BandsAre(c: seq<int16>, d: seq<int16>, s: seq<int16>, k: nat)
    requires 2 * k + |c| <= |s| && |d| == |c|
    requires forall j :: 0 <= j < |c| ==> d[j] as int == if j % 2 == 0 then c[j] as int else -(c[j] as int)
    ensures var low, high := (Taps(c, s, 2 * k + |c|, 0, |c|) + 0x4000) / 0x8000, (Taps(d, s, 2 * k + |c|, 0, |c|) + 0x4000) / 0x8000;
            && LowBand(c, s, k) == (if low > 32767 then 32767 else if low < -32767 then -32767 else low)
            && HighBand(c, s, k) == (if high > 32767 then 32767 else if high < -32767 then -32767 else high)
  {
    hide Taps, MirrorTaps, RoundShift;
    MirrorIsAlternating(c, d, s, 2 * k + |c|, |c|);
    FifteenBits(Taps(c, s, 2 * k + |c|, 0, |c|));
    FifteenBits(Taps(d, s, 2 * k + |c|, 0, |c|));
  }

  lemma {:induction false} MirrorIsAlternating(c: seq<int16>, d: seq<int16>, s: seq<int16>, i: nat, t: nat)
    requires t <= i <= |s| && t <= |c| == |d|
    requires forall j :: 0 <= j < |c| ==> d[j] as int == if j % 2 == 0 then c[j] as int else -(c[j] as int)
    ensures MirrorTaps(c, s, i, t) == Taps(d, s, i, 0, t)
  {
    hide Mult16;
    if t > 0 {
      MirrorIsAlternating(c, d, s, i, t - 1);
      Mult16Negated(c[t - 1], d[t - 1], s[i - t]);
    }
  }

  lemma Mult16Negated(a: int16, b: int16, x: int16)
    ensures b as int == -(a as int) ==> Mult16(b, x) == -Mult16(a, x)
    ensures b == a ==> Mult16(b, x) == Mult16(a, x)
  {
  }

  // Carrying the memory from frame to frame.

  lemma {:induction false} MirrorTapsOfSame(c: seq<int16>, s: seq<int16>, r: seq<int16>, d: nat, i: nat, t: nat)
    requires d <= |s| && t <= i <= |s| - d && i <= |r| && t <= |c| && forall k :: 0 <= k < i ==> s[d + k] == r[k]
    ensures MirrorTaps(c, s, d + i, t) == MirrorTaps(c, r, i, t)
  {
    if t > 0 {
      MirrorTapsOfSame(c, s, r, d, i, t - 1);
      assert s[d + (i - t)] == r[i - t];
    }
  }

  /** Two frames, the memory carried between them, are one long frame; the first is of even length, so that the second
      starts on an output. */
  lemma DecompFrames(c: seq<int16>, past: seq<int16>, x: seq<int16>, u: seq<int16>, k: nat)
    requires |past| + 1 == |c| && |x| % 2 == 0 && 2 * k < |x| + |u|
    ensures LowBand(c, past + (x + u), k) ==
            if 2 * k < |x| then LowBand(c, past + x, k) else LowBand(c, Later(past, x) + u, k - |x| / 2)
    ensures HighBand(c, past + (x + u), k) ==
            if 2 * k < |x| then HighBand(c, past + x, k) else HighBand(c, Later(past, x) + u, k - |x| / 2)
  {
    hide Taps, MirrorTaps, RoundShift;
    var l := past + (x + u);
    if 2 * k < |x| {
      TapsOfPrefix(c, l, past + x, 2 * k + |c|, 0, |c|);
      MirrorTapsOfSame(c, l, past + x, 0, 2 * k + |c|, |c|);
    } else {
      var d := |x|;
      assert l[d..] == Later(past, x) + u;
      TapsOfDrop(c, l, d, 2 * k - d + |c|, 0, |c|);
      MirrorTapsOfSame(c, l, l[d..], d, 2 * k - d + |c|, |c|);
    }
  }

  // The loops.

  /** The taps at both ends of the filter, j of each. */
  ghost function EndTaps(c: seq<int16>, s: seq<int16>, i: nat, j: nat): int
    requires i + |c| <= |s| && j <= |c|
  {
    Taps(c, s, i + |c|, 0, j) + (Taps(c, s, i + |c|, 0, |c|) - Taps(c, s, i + |c|, 0, |c| - j))
  }

  ghost function EndMirrorTaps(c: seq<int16>, s: seq<int16>, i: nat, j: nat): int
    requires i + |c| <= |s| && j <= |c|
  {
    MirrorTaps(c, s, i + |c|, j) + (MirrorTaps(c, s, i + |c|, |c|) - MirrorTaps(c, s, i + |c|, |c| - j))
  }

  /** What the loop adds up: one coefficient for both ends, the sum or difference of the two samples in 16 bits. */
  ghost function FoldedLow(aa: seq<int16>, s: seq<int16>, i: nat, j: nat): int
    requires i + |aa| <= |s| && j <= |aa|
  {
    if j == 0 then 0
    else FoldedLow(aa, s, i, j - 1) + Mult16(aa[|aa| - j], Wrap16((s[i + j - 1] as int) + (s[i + |aa| - j] as int)))
  }

  ghost function FoldedHigh(aa: seq<int16>, s: seq<int16>, i: nat, j: nat): int
    requires i + |aa| <= |s| && j <= |aa|
  {
    if j == 0 then 0
    else
      var term := Mult16(aa[|aa| - j], Wrap16((s[i + j - 1] as int) - (s[i + |aa| - j] as int)));
      FoldedHigh(aa, s, i, j - 1) + if j % 2 == 1 then -term else term
  }

  /** The samples that meet one coefficient have a sum and a difference of 16 bits. */
  ghost predicate PairFits(s: seq<int16>, i: nat, m: nat, j: nat)
    requires i + m <= |s| && j < m
  {
    && -0x8000 <= (s[i + j] as int) + (s[i + m - 1 - j] as int) < 0x8000
    && -0x8000 <= (s[i + j] as int) - (s[i + m - 1 - j] as int) < 0x8000
  }

  lemma FitsIsUnwrapped(s: seq<int16>, i: nat, m: nat, j: nat)
    requires i + m <= |s| && j < m
    ensures PairFits(s, i, m, j) <==>
            var sum, difference := (s[i + j] as int) + (s[i + m - 1 - j] as int), (s[i + j] as int) - (s[i + m - 1 - j] as int);
            Wrap16(sum) == sum && Wrap16(difference) == difference
  {
  }

  ghost predicate PairsFit(s: seq<int16>, i: nat, m: nat)
    requires i + m <= |s|
  {
    forall j :: 0 <= j < m / 2 ==> PairFits(s, i, m, j)
  }

  lemma HalvesFit(s: seq<int16>, i: nat, m: nat)
    requires i + m <= |s| && AreHalves(s)
    ensures PairsFit(s, i, m)
  {
  }

  /** The taps of both ends that one more coefficient serves. */
  lemma NextEnds(aa: seq<int16>, s: seq<int16>, i: nat, j: nat)
    requires |aa| % 2 == 0 && i + |aa| <= |s| && j < |aa| / 2
    ensures var c, a, u, v := Symmetric(aa), aa[|aa| - 1 - j], s[i + j], s[i + |aa| - 1 - j];
            && EndTaps(c, s, i, j + 1) == EndTaps(c, s, i, j) + Mult16(a, u) + Mult16(a, v)
            && EndMirrorTaps(c, s, i, j + 1) == EndMirrorTaps(c, s, i, j)
                 + if j % 2 == 0 then Mult16(a, v) - Mult16(a, u) else Mult16(a, u) - Mult16(a, v)
  {
    hide Mult16;
    var c, m := Symmetric(aa), |aa|;
    TapAt(c, s, i + m, j);
    TapAt(c, s, i + m, m - j - 1);
    assert c[j] == aa[m - 1 - j] && c[m - j - 1] == aa[m - 1 - j];
  }

  /** Where all pairs fit, the folded sums are the direct forms. */
  lemma {:induction false} FoldedIsDirect(aa: seq<int16>, s: seq<int16>, i: nat, j: nat)
    requires |aa| % 2 == 0 && i + |aa| <= |s| && j <= |aa| / 2 && PairsFit(s, i, |aa|)
    ensures FoldedLow(aa, s, i, j) == EndTaps(Symmetric(aa), s, i, j)
    ensures FoldedHigh(aa, s, i, j) == EndMirrorTaps(Symmetric(aa), s, i, j)
  {
    hide Mult16, Wrap16, EndTaps, EndMirrorTaps, Symmetric;
    if j == 0 {
      NoEnds(Symmetric(aa), s, i);
    } else {
      FoldedIsDirect(aa, s, i, j - 1);
      NextEnds(aa, s, i, j - 1);
      assert PairFits(s, i, |aa|, j - 1);
      Mult16OfSum(aa[|aa| - j], s[i + j - 1], s[i + |aa| - j]);
      Mult16OfDifference(aa[|aa| - j], s[i + j - 1], s[i + |aa| - j]);
    }
  }

  ghost predicate MeetsDirect(aa: seq<int16>, s: seq<int16>, i: nat)
    requires |aa| % 2 == 0 && i + |aa| <= |s|
  {
    && FoldedLow(aa, s, i, |aa| / 2) == Taps(Symmetric(aa), s, i + |aa|, 0, |aa|)
    && FoldedHigh(aa, s, i, |aa| / 2) == MirrorTaps(Symmetric(aa), s, i + |aa|, |aa|)
  }

  /** The folded sums are the direct forms for all filters of a length exactly if all pairs of samples fit. */
  lemma FoldingIsExact(s: seq<int16>, i: nat, m: nat)
    requires m % 2 == 0 && i + m <= |s|
    ensures (forall aa: seq<int16> :: |aa| == m ==> MeetsDirect(aa, s, i)) <==> PairsFit(s, i, m)
  {
    hide FoldedLow, FoldedHigh, EndTaps, EndMirrorTaps, Symmetric, PairFits;
    if j :| 0 <= j < m / 2 && !PairFits(s, i, m, j) {
      var aa := Unit(m, m - 1 - j);
      UnitDeviates(s, i, m, j, m / 2);
      BothEndsMeet(Symmetric(aa), s, i);
      FitsIsUnwrapped(s, i, m, j);
      assert !MeetsDirect(aa, s, i);
    } else {
      forall aa: seq<int16> | |aa| == m ensures MeetsDirect(aa, s, i) {
        FoldedIsDirect(aa, s, i, m / 2);
        BothEndsMeet(Symmetric(aa), s, i);
      }
    }
  }

  ghost function Unit(m: nat, at: nat): (u: seq<int16>)
    ensures |u| == m
  {
    seq<int16>(m, k => if k == at then 1 else 0)
  }

  /** A filter with a single coefficient shows a pair that does not fit. */
  lemma {:induction false} UnitDeviates(s: seq<int16>, i: nat, m: nat, j: nat, t: nat)
    requires m % 2 == 0 && i + m <= |s| && j < m / 2 && t <= m / 2
    ensures var aa, c := Unit(m, m - 1 - j), Symmetric(Unit(m, m - 1 - j));
            var sum, difference := (s[i + j] as int) + (s[i + m - 1 - j] as int), (s[i + j] as int) - (s[i + m - 1 - j] as int);
            var sign := if j % 2 == 0 then -1 else 1;
            && EndTaps(c, s, i, t) - FoldedLow(aa, s, i, t) == (if t > j then sum - Wrap16(sum) else 0)
            && EndMirrorTaps(c, s, i, t) - FoldedHigh(aa, s, i, t)
                 == (if t <= j then 0 else if j % 2 == 0 then Wrap16(difference) - difference else difference - Wrap16(difference))
  {
    hide Mult16, Wrap16, EndTaps, EndMirrorTaps, Symmetric;
    var aa := Unit(m, m - 1 - j);
    if t == 0 {
      NoEnds(Symmetric(aa), s, i);
    } else {
      UnitDeviates(s, i, m, j, t - 1);
      NextEnds(aa, s, i, t - 1);
      assert aa[m - t] == if t - 1 == j then 1 else 0;
      UnitTimes(s[i + t - 1]);
      UnitTimes(s[i + m - t]);
      UnitTimes(Wrap16((s[i + t - 1] as int) + (s[i + m - t] as int)));
      UnitTimes(Wrap16((s[i + t - 1] as int) - (s[i + m - t] as int)));
    }
  }

  lemma UnitTimes(v: int16)
    ensures Mult16(1, v) == v && Mult16(0, v) == 0
  {
  }

  lemma TapAt(c: seq<int16>, s: seq<int16>, i: nat, t: nat)
    requires t + 1 <= i <= |s| && t + 1 <= |c|
    ensures Taps(c, s, i, 0, t + 1) == Taps(c, s, i, 0, t) + Mult16(c[t], s[i - t - 1])
    ensures MirrorTaps(c, s, i, t + 1) == MirrorTaps(c, s, i, t)
              + if t % 2 == 0 then Mult16(c[t], s[i - t - 1]) else -Mult16(c[t], s[i - t - 1])
  {
  }

  lemma NoEnds(c: seq<int16>, s: seq<int16>, i: nat)
    requires i + |c| <= |s|
    ensures EndTaps(c, s, i, 0) == 0 && EndMirrorTaps(c, s, i, 0) == 0
  {
  }

  lemma BothEndsMeet(c: seq<int16>, s: seq<int16>, i: nat)
    requires i + |c| <= |s| && |c| % 2 == 0
    ensures EndTaps(c, s, i, |c| / 2) == Taps(c, s, i + |c|, 0, |c|)
    ensures EndMirrorTaps(c, s, i, |c| / 2) == MirrorTaps(c, s, i + |c|, |c|)
  {
    hide Taps, MirrorTaps;
    assert |c| - |c| / 2 == |c| / 2;
  }

  /** The sums of one output of each band, two coefficients to a pass. */
  method BandSums(x: array<int16>, a: array<int16>, i: nat, ghost aa: seq<int16>) returns (y1: int, y2: int)
    requires |aa| % 4 == 0 && a.Length == |aa| && forall j :: 0 <= j < |aa| ==> a[j] == aa[|aa| - 1 - j]
    requires i + |aa| <= x.Length
    ensures y1 == FoldedLow(aa, x[..], i, |aa| / 2) && y2 == FoldedHigh(aa, x[..], i, |aa| / 2)
  {
    hide Mult16, Wrap16, FoldedLow, FoldedHigh;
    var m, x2 := a.Length, a.Length - 1;
    y1, y2 := 0, 0;
    NothingFolded(aa, x[..], i);
    var j := 0;
    while j < m / 2
      invariant 0 <= j <= m / 2 && j % 2 == 0
      invariant y1 == FoldedLow(aa, x[..], i, j) && y2 == FoldedHigh(aa, x[..], i, j)
    {
      TwoFolded(aa, x[..], i, j);
      y1 := y1 + Mult16(a[j], Wrap16((x[i + j] as int) + (x[x2 + i - j] as int)));
      y2 := y2 - Mult16(a[j], Wrap16((x[i + j] as int) - (x[x2 + i - j] as int)));
      j := j + 1;
      y1 := y1 + Mult16(a[j], Wrap16((x[i + j] as int) + (x[x2 + i - j] as int)));
      y2 := y2 + Mult16(a[j], Wrap16((x[i + j] as int) - (x[x2 + i - j] as int)));
      j := j + 1;
    }
  }

  lemma NothingFolded(aa: seq<int16>, s: seq<int16>, i: nat)
    requires i + |aa| <= |s|
    ensures FoldedLow(aa, s, i, 0) == 0 && FoldedHigh(aa, s, i, 0) == 0
  {
  }

  /** One pass: an even tap and the odd tap after it. */
  lemma TwoFolded(aa: seq<int16>, s: seq<int16>, i: nat, j: nat)
    requires |aa| % 4 == 0 && i + |aa| <= |s| && j % 2 == 0 && j < |aa| / 2
    ensures j + 1 < |aa| / 2
    ensures var a, b := aa[|aa| - 1 - j], aa[|aa| - 2 - j];
            var u, v, w, z := s[i + j] as int, s[i + |aa| - 1 - j] as int, s[i + j + 1] as int, s[i + |aa| - 2 - j] as int;
            && FoldedLow(aa, s, i, j + 2) == FoldedLow(aa, s, i, j) + Mult16(a, Wrap16(u + v)) + Mult16(b, Wrap16(w + z))
            && FoldedHigh(aa, s, i, j + 2) == FoldedHigh(aa, s, i, j) - Mult16(a, Wrap16(u - v)) + Mult16(b, Wrap16(w - z))
  {
    hide Mult16, Wrap16;
    OneFolded(aa, s, i, j);
    OneFolded(aa, s, i, j + 1);
  }

  lemma OneFolded(aa: seq<int16>, s: seq<int16>, i: nat, j: nat)
    requires i + |aa| <= |s| && j < |aa|
    ensures var term := Mult16(aa[|aa| - 1 - j], Wrap16((s[i + j] as int) - (s[i + |aa| - 1 - j] as int)));
            && FoldedLow(aa, s, i, j + 1) == FoldedLow(aa, s, i, j)
                 + Mult16(aa[|aa| - 1 - j], Wrap16((s[i + j] as int) + (s[i + |aa| - 1 - j] as int)))
            && FoldedHigh(aa, s, i, j + 1) == FoldedHigh(aa, s, i, j) + if j % 2 == 0 then -term else term
  {
    hide Mult16, Wrap16;
  }

  /** The line of past and present samples the loop works on. */
  method HalvedLine(xx: array<int16>, n: nat, mem: array<int16>, m: nat) returns (x: array<int16>)
    requires n <= xx.Length && m <= mem.Length
    ensures fresh(x) && x[..] == Before(mem[..], m) + Halves(xx[..n])
  {
    x := new int16[n + m];
    ghost var s := Before(mem[..], m) + Halves(xx[..n]);
    for i := 0 to m
      invariant forall q :: 0 <= q < i ==> x[q] == s[q]
    {
      x[i] := mem[m - 1 - i];
    }
    for i := 0 to n
      invariant forall q :: 0 <= q < m + i ==> x[q] == s[q]
    {
      x[i + m] := Half(xx[i]);
    }
  }

  method KeepHalves(xx: array<int16>, n: nat, mem: array<int16>, m: nat)
    requires m <= n <= xx.Length && m <= mem.Length && xx != mem
    modifies mem
    ensures Before(mem[..], m) == Later(old(Before(mem[..], m)), Halves(xx[..n])) && mem[m..] == old(mem[m..])
  {
    for i := 0 to m
      invariant forall k :: 0 <= k < i ==> mem[k] == Half(xx[n - k - 1])
      invariant mem[m..] == old(mem[m..])
    {
      mem[i] := Half(xx[n - i - 1]);
    }
    ghost var left, right := Before(mem[..], m), Later(old(Before(mem[..], m)), Halves(xx[..n]));
    forall p | 0 <= p < m ensures left[p] == right[p] {
      assert mem[m - 1 - p] == Half(xx[n - (m - 1 - p) - 1]);
    }
  }

  method Reverse(aa: seq<int16>) returns (a: array<int16>)
    ensures fresh(a) && a.Length == |aa| && forall j :: 0 <= j < |aa| ==> a[j] == aa[|aa| - 1 - j]
  {
    var m := |aa|;
    a := new int16[m];
    for i := 0 to m
      invariant forall j :: m - i <= j < m ==> a[j] == aa[m - 1 - j]
    {
      a[m - i - 1] := aa[i];
    }
  }

  /** The outer loop of qmf_decomp. */
  method Bands(x: array<int16>, a: array<int16>, y1: array<int16>, y2: array<int16>, n: nat, ghost aa: seq<int16>)
    requires |aa| % 4 == 0 && |aa| > 0 && a.Length == |aa| && forall j :: 0 <= j < |aa| ==> a[j] == aa[|aa| - 1 - j]
    requires x.Length == |aa| - 1 + n && (n + 1) / 2 <= y1.Length && (n + 1) / 2 <= y2.Length
    requires y1 != y2 && y1 != x && y1 != a && y2 != x && y2 != a
    modifies y1, y2
    ensures forall k :: 0 <= k < (n + 1) / 2 ==> y1[k] == Low(aa, x[..], k)
    ensures forall k :: 0 <= k < (n + 1) / 2 ==> y2[k] == High(aa, x[..], k)
    ensures y1[(n + 1) / 2..] == old(y1[(n + 1) / 2..]) && y2[(n + 1) / 2..] == old(y2[(n + 1) / 2..])
  {
    hide FoldedLow, FoldedHigh, RoundShift;
    ghost var h := (n + 1) / 2;
    var i, k := 0, 0;
    while i < n
      invariant 0 <= k <= h && i == 2 * k
      invariant forall q :: 0 <= q < k ==> y1[q] == Low(aa, x[..], q)
      invariant forall q :: 0 <= q < k ==> y2[q] == High(aa, x[..], q)
      invariant y1[h..] == old(y1[h..]) && y2[h..] == old(y2[h..])
    {
      var y1k, y2k := BandSums(x, a, i, aa);
      y1[k] := Saturate(RoundShift(y1k, 15));
      y2[k] := Saturate(RoundShift(y2k, 15));
      i, k := i + 2, k + 1;
    }
  }

  /** Output k of each band. */
  ghost function Low(aa: seq<int16>, s: seq<int16>, k: nat): int16
    requires 2 * k + |aa| <= |s|
  {
    Saturate(RoundShift(FoldedLow(aa, s, 2 * k, |aa| / 2), 15))
  }

  ghost function High(aa: seq<int16>, s: seq<int16>, k: nat): int16
    requires 2 * k + |aa| <= |s|
  {
    Saturate(RoundShift(FoldedHigh(aa, s, 2 * k, |aa| / 2), 15))
  }

  /** On halved samples the outputs are those of the direct forms. */
  lemma BandsAreDirect(aa: seq<int16>, s: seq<int16>, k: nat)
    requires |aa| % 2 == 0 && 2 * k + |aa| <= |s| && AreHalves(s)
    ensures Low(aa, s, k) == LowBand(Symmetric(aa), s, k) && High(aa, s, k) == HighBand(Symmetric(aa), s, k)
  {
    hide FoldedLow, FoldedHigh, RoundShift, Taps, MirrorTaps, Symmetric, AreHalves, EndTaps, EndMirrorTaps;
    HalvesFit(s, 2 * k, |aa|);
    FoldedIsDirect(aa, s, 2 * k, |aa| / 2);
    BothEndsMeet(Symmetric(aa), s, 2 * k);
  }

  /** qmf_decomp, for any memory. The memory it leaves holds halved samples; if it held such before, as it does from rest,
      the bands are the direct filter and its mirror image. */
  method QmfDecomp(xx: array<int16>, aa: seq<int16>, y1: array<int16>, y2: array<int16>, n: nat, mem: array<int16>)
    requires |aa| % 4 == 0 && |aa| > 0 && |aa| - 1 <= n <= xx.Length && |aa| - 1 <= mem.Length
    requires (n + 1) / 2 <= y1.Length && (n + 1) / 2 <= y2.Length && y1 != y2 && mem != y1 && mem != y2 && mem != xx
    modifies y1, y2, mem
    ensures var past, u := old(Before(mem[..], |aa| - 1)), old(Halves(xx[..n]));
            && (forall k :: 0 <= k < (n + 1) / 2 ==> y1[k] == Low(aa, past + u, k))
            && (forall k :: 0 <= k < (n + 1) / 2 ==> y2[k] == High(aa, past + u, k))
            && Before(mem[..], |aa| - 1) == Later(past, u) && AreHalves(Later(past, u))
    ensures var past, u := old(Before(mem[..], |aa| - 1)), old(Halves(xx[..n]));
            AreHalves(past) ==>
              && (forall k :: 0 <= k < (n + 1) / 2 ==> y1[k] == LowBand(Symmetric(aa), past + u, k))
              && (forall k :: 0 <= k < (n + 1) / 2 ==> y2[k] == HighBand(Symmetric(aa), past + u, k))
    ensures mem[|aa| - 1..] == old(mem[|aa| - 1..])
    ensures y1[(n + 1) / 2..] == old(y1[(n + 1) / 2..]) && y2[(n + 1) / 2..] == old(y2[(n + 1) / 2..])
  {
    hide Low, High, LowBand, HighBand, Symmetric, Before, Later, Halves, AreHalves;
    ghost var past, u := Before(mem[..], |aa| - 1), Halves(xx[..n]);
    var a := Reverse(aa);
    var x := HalvedLine(xx, n, mem, |aa| - 1);
    KeepHalves(xx, n, mem, |aa| - 1);
    HalvesRemain(past, xx[..n]);
    Bands(x, a, y1, y2, n, aa);
    if AreHalves(past) {
      forall k | 0 <= k < (n + 1) / 2
        ensures Low(aa, past + u, k) == LowBand(Symmetric(aa), past + u, k)
        ensures High(aa, past + u, k) == HighBand(Symmetric(aa), past + u, k)
      {
        BandsAreDirect(aa, past + u, k);
      }
    }
  }

  lemma HalvesRemain(past: seq<int16>, x: seq<int16>)
    requires |x| >= |past|
    ensures AreHalves(past) ==> AreHalves(past + Halves(x))
    ensures AreHalves(Later(past, Halves(x)))
  {
  }
}
