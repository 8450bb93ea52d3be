/** Filters: the transposed-form filters of the fixed-point build compute plain difference equations. */
module Filters {
  import BitOps
  import opened FixedPoint

  const LPC_SHIFT := 13

  /** Coefficients of a filter of order |num|, without the leading ones. */
  datatype Filter = Filter(num: seq<int16>, den: seq<int16>) {
    ghost predicate Valid() { |num| == |den| > 0 }

    ghost function Order(): nat { |num| }
  }

  ghost function Zeros(n: nat): (z: seq<int16>)
    ensures |z| == n && forall i :: 0 <= i < n ==> z[i] == 0
  {
    seq(n, _ => 0)
  }

  ghost function AllPole(den: seq<int16>): Filter { Filter(Zeros(|den|), den) }

  ghost function AllZero(num: seq<int16>): Filter { Filter(num, Zeros(|num|)) }

  // ----- The difference equation -----

  /** c[j] * s[i - 1] + c[j + 1] * s[i - 2] + ..., t terms. */
  ghost function Taps(c: seq<int16>, s: seq<int16>, i: nat, j: nat, t: nat): int
    requires t <= i <= |s| && j + t <= |c|
  {
    if t == 0 then 0 else Taps(c, s, i, j, t - 1) + Mult16(c[j + t - 1], s[i - t])
  }

  ghost function Reach(order: nat, i: nat, j: nat): nat
    requires j <= order
  {
    if order - j <= i then order - j else i
  }

  /** What the samples before i, and the memory the run began with, put into the output j samples later: for j = 0,
      the whole feedback sum of the direct form. */
  ghost function Partial(f: Filter, m: seq<int>, x: seq<int16>, y: seq<int16>, i: nat, j: nat): int
    requires f.Valid() && |m| == f.Order() && i <= |x| && i <= |y| && j < f.Order()
  {
    var t := Reach(f.Order(), i, j);
    (if i + j < |m| then m[i + j] else 0) + Taps(f.num, x, i, j, t) - Taps(f.den, y, i, j, t)
  }

  /** y answers x: the direct form, rounded and saturated at every sample. */
  ghost predicate Solves(f: Filter, m: seq<int>, x: seq<int16>, y: seq<int16>)
    requires f.Valid() && |m| == f.Order()
  {
    |x| == |y| && forall i :: 0 <= i < |y| ==> y[i] == Saturate(x[i] + RoundShift(Partial(f, m, x, y, i, 0), LPC_SHIFT))
  }

  /** The memory left for the next frame. */
  ghost function After(f: Filter, m: seq<int>, x: seq<int16>, y: seq<int16>): seq<int>
    requires f.Valid() && |m| == f.Order() && |x| == |y|
  {
    seq(f.Order(), j requires 0 <= j < f.Order() => Partial(f, m, x, y, |x|, j))
  }

  lemma {:induction false} TapsShift(c: seq<int16>, s: seq<int16>, i: nat, j: nat, t: nat)
    requires t <= i < |s| && j + 1 + t <= |c|
    ensures Taps(c, s, i + 1, j, t + 1) == Mult16(c[j], s[i]) + Taps(c, s, i, j + 1, t)
  {
    if t > 0 {
      TapsShift(c, s, i, j, t - 1);
    } else {
      assert Taps(c, s, i + 1, j, 0) == 0;
    }
  }

  /** The recurrence the inner loops run. */
  lemma PartialStep(f: Filter, m: seq<int>, x: seq<int16>, y: seq<int16>, i: nat, j: nat)
    requires f.Valid() && |m| == f.Order() && i < |x| && i < |y| && j < f.Order()
    ensures Partial(f, m, x, y, i + 1, j) ==
            (if j + 1 < f.Order() then Partial(f, m, x, y, i, j + 1) else 0) + Mult16(f.num[j], x[i]) - Mult16(f.den[j], y[i])
  {
    hide Taps;
    var t := Reach(f.Order(), i + 1, j) - 1;
    TapsShift(f.num, x, i, j, t);
    TapsShift(f.den, y, i, j, t);
    if j + 1 == f.Order() {
      NoTaps(f.num, x, i, j + 1);
      NoTaps(f.den, y, i, j + 1);
    }
  }

  lemma NoTaps(c: seq<int16>, s: seq<int16>, i: nat, j: nat)
    requires i <= |s| && j <= |c|
    ensures Taps(c, s, i, j, 0) == 0
  {
  }

  lemma {:induction false} TapsOfPrefix(c: seq<int16>, s: seq<int16>, r: seq<int16>, i: nat, j: nat, t: nat)
    requires t <= i <= |s| && i <= |r| && j + t <= |c| && forall k :: 0 <= k < i ==> s[k] == r[k]
    ensures Taps(c, s, i, j, t) == Taps(c, r, i, j, t)
  {
    if t > 0 {
      TapsOfPrefix(c, s, r, i, j, t - 1);
    }
  }

  /** Only samples before i matter. */
  lemma PartialOfPrefix(f: Filter, m: seq<int>, x: seq<int16>, y: seq<int16>, u: seq<int16>, v: seq<int16>, i: nat, j: nat)
    requires f.Valid() && |m| == f.Order() && i <= |x| && i <= |y| && i <= |u| && i <= |v| && j < f.Order()
    requires forall k :: 0 <= k < i ==> x[k] == u[k]
    requires forall k :: 0 <= k < i ==> y[k] == v[k]
    ensures Partial(f, m, x, y, i, j) == Partial(f, m, u, v, i, j)
  {
    hide Taps;
    TapsOfPrefix(f.num, x, u, i, j, Reach(f.Order(), i, j));
    TapsOfPrefix(f.den, y, v, i, j, Reach(f.Order(), i, j));
  }

  lemma PartialAtStart(f: Filter, m: seq<int>, x: seq<int16>, y: seq<int16>, j: nat)
    requires f.Valid() && |m| == f.Order() && j < f.Order()
    ensures Partial(f, m, x, y, 0, j) == m[j]
  {
  }

  /** The equation has one solution. */
  lemma {:induction false} SolutionIsUnique(f: Filter, m: seq<int>, x: seq<int16>, y: seq<int16>, z: seq<int16>, n: nat)
    requires f.Valid() && |m| == f.Order() && Solves(f, m, x, y) && Solves(f, m, x, z) && n <= |x|
    ensures y[..n] == z[..n]
  {
    hide Partial, RoundShift;
    if n > 0 {
      SolutionIsUnique(f, m, x, y, z, n - 1);
      forall k | 0 <= k < n - 1 ensures y[k] == z[k] {
        assert y[..n - 1][k] == z[..n - 1][k];
      }
      PartialOfPrefix(f, m, x, y, x, z, n - 1, 0);
      assert y[..n] == y[..n - 1] + [y[n - 1]] && z[..n] == z[..n - 1] + [z[n - 1]];
    }
  }

  /** The memory after a first frame stands for that frame in everything that follows. */
  lemma {:induction false} PartialAcrossFrames(f: Filter, m: seq<int>, x: seq<int16>, y: seq<int16>,
                                               u: seq<int16>, v: seq<int16>, i: nat, j: nat)
    requires f.Valid() && |m| == f.Order() && |x| == |y| && i <= |u| && i <= |v| && j < f.Order()
    ensures Partial(f, m, x + u, y + v, |x| + i, j) == Partial(f, After(f, m, x, y), u, v, i, j)
    decreases i
  {
    hide Partial;
    if i == 0 {
      PartialOfPrefix(f, m, x + u, y + v, x, y, |x|, j);
      PartialAtStart(f, After(f, m, x, y), u, v, j);
    } else {
      if j + 1 < f.Order() {
        PartialAcrossFrames(f, m, x, y, u, v, i - 1, j + 1);
      }
      PartialStep(f, After(f, m, x, y), u, v, i - 1, j);
      PartialStep(f, m, x + u, y + v, |x| + i - 1, j);
    }
  }

  /** Two frames, the memory carried between them, are one long frame. */
  lemma FramesJoin(f: Filter, m: seq<int>, x: seq<int16>, y: seq<int16>, u: seq<int16>, v: seq<int16>)
    requires f.Valid() && |m| == f.Order() && Solves(f, m, x, y) && Solves(f, After(f, m, x, y), u, v)
    ensures Solves(f, m, x + u, y + v)
    ensures After(f, m, x + u, y + v) == After(f, After(f, m, x, y), u, v)
  {
    hide Partial, RoundShift;
    forall i | 0 <= i < |x + u|
      ensures (y + v)[i] == Saturate((x + u)[i] + RoundShift(Partial(f, m, x + u, y + v, i, 0), LPC_SHIFT))
    {
      if i < |x| {
        PartialOfPrefix(f, m, x + u, y + v, x, y, i, 0);
      } else {
        PartialAcrossFrames(f, m, x, y, u, v, i - |x|, 0);
      }
    }
    forall j | 0 <= j < f.Order()
      ensures After(f, m, x + u, y + v)[j] == After(f, After(f, m, x, y), u, v)[j]
    {
      PartialAcrossFrames(f, m, x, y, u, v, |u|, j);
    }
  }

  // ----- The loops -----

  /** The memory as the inner loop leaves it after j turns of sample i. */
  ghost predicate Shifted(f: Filter, m: seq<int>, x: seq<int16>, y: seq<int16>, i: nat, j: nat, mem: seq<int>)
    requires f.Valid() && |m| == f.Order() && i < |x| && i < |y| && j <= f.Order()
  {
    && |mem| >= f.Order()
    && (forall k :: 0 <= k < j ==> mem[k] == Partial(f, m, x, y, i + 1, k))
    && (forall k :: j <= k < f.Order() ==> mem[k] == Partial(f, m, x, y, i, k))
  }

  /** The memory between samples. */
  ghost predicate Settled(f: Filter, m: seq<int>, x: seq<int16>, y: seq<int16>, i: nat, mem: seq<int>)
    requires f.Valid() && |m| == f.Order() && i <= |x| && i <= |y|
  {
    |mem| >= f.Order() && forall k :: 0 <= k < f.Order() ==> mem[k] == Partial(f, m, x, y, i, k)
  }

  lemma SettledAtStart(f: Filter, m: seq<int>, x: seq<int16>, mem: seq<int>)
    requires f.Valid() && |m| == f.Order() <= |mem| && m == mem[..f.Order()]
    ensures Settled(f, m, x, [], 0, mem)
  {
    hide Partial;
    forall k | 0 <= k < f.Order() ensures mem[k] == Partial(f, m, x, [], 0, k) {
      PartialAtStart(f, m, x, [], k);
    }
  }

  lemma BeginShift(f: Filter, m: seq<int>, x: seq<int16>, y: seq<int16>, v: int16, mem: seq<int>)
    requires f.Valid() && |m| == f.Order() && |y| < |x| && Settled(f, m, x, y, |y|, mem)
    ensures Shifted(f, m, x, y + [v], |y|, 0, mem)
  {
    hide Partial;
    forall k | 0 <= k < f.Order() ensures mem[k] == Partial(f, m, x, y + [v], |y|, k) {
      PartialOfPrefix(f, m, x, y + [v], x, y, |y|, k);
    }
  }

  lemma StepShift(f: Filter, m: seq<int>, x: seq<int16>, y: seq<int16>, i: nat, j: nat, before: seq<int>, after: seq<int>)
    requires f.Valid() && |m| == f.Order() && i < |x| && i < |y| && j < f.Order() && |before| == |after|
    requires Shifted(f, m, x, y, i, j, before)
    requires forall k :: 0 <= k < |after| && k != j ==> after[k] == before[k]
    requires after[j] == (if j + 1 < f.Order() then before[j + 1] else 0) + Mult16(f.num[j], x[i]) - Mult16(f.den[j], y[i])
    ensures Shifted(f, m, x, y, i, j + 1, after)
  {
    hide Partial;
    PartialStep(f, m, x, y, i, j);
  }

  lemma EndShift(f: Filter, m: seq<int>, x: seq<int16>, y: seq<int16>, i: nat, mem: seq<int>)
    requires f.Valid() && |m| == f.Order() && i < |x| && i < |y| && Shifted(f, m, x, y, i, f.Order(), mem)
    ensures Settled(f, m, x, y, i + 1, mem)
  {
  }

  /** One more sample of the equation. */
  ghost predicate SolvesNext(f: Filter, m: seq<int>, x: seq<int16>, y: seq<int16>, v: int16)
    requires f.Valid() && |m| == f.Order() && |y| < |x|
  {
    v == Saturate(x[|y|] + RoundShift(Partial(f, m, x, y, |y|, 0), LPC_SHIFT))
  }

  lemma SolutionGrows(f: Filter, m: seq<int>, x: seq<int16>, y: seq<int16>, v: int16)
    requires f.Valid() && |m| == f.Order() && |y| < |x| && Solves(f, m, x[..|y|], y) && SolvesNext(f, m, x, y, v)
    ensures Solves(f, m, x[..|y| + 1], y + [v])
  {
    hide Partial, RoundShift;
    forall i | 0 <= i <= |y|
      ensures (y + [v])[i] == Saturate(x[i] + RoundShift(Partial(f, m, x[..|y| + 1], y + [v], i, 0), LPC_SHIFT))
    {
      if i < |y| {
        PartialOfPrefix(f, m, x[..|y| + 1], y + [v], x[..|y|], y, i, 0);
      } else {
        PartialOfPrefix(f, m, x[..|y| + 1], y + [v], x, y, i, 0);
      }
    }
  }

  /** The inner loop of filter_mem16 and the assignment after it. */
  method ShiftBoth(f: Filter, mem: array<int>, xi: int16, yi: int16,
                   ghost m: seq<int>, ghost x: seq<int16>, ghost y: seq<int16>, ghost i: nat)
    requires f.Valid() && |m| == f.Order() <= mem.Length && i < |x| && i < |y| && x[i] == xi && y[i] == yi
    requires yi != -32768 && Shifted(f, m, x, y, i, 0, mem[..])
    modifies mem
    ensures Settled(f, m, x, y, i + 1, mem[..]) && mem[f.Order()..] == old(mem[f.Order()..])
  {
    hide Shifted, Settled, Partial, Mult16;
    var ord, nyi := |f.num|, -yi;
    var j := 0;
    while j < ord - 1
      invariant 0 <= j < ord && Shifted(f, m, x, y, i, j, mem[..]) && mem[ord..] == old(mem[ord..])
    {
      ghost var before := mem[..];
      Mult16OfNegation(f.den[j], yi);
      mem[j] := mem[j + 1] + Mult16(f.num[j], xi) + Mult16(f.den[j], nyi);
      StepShift(f, m, x, y, i, j, before, mem[..]);
      j := j + 1;
    }
    ghost var before := mem[..];
    Mult16OfNegation(f.den[ord - 1], yi);
    mem[ord - 1] := Mult16(f.num[ord - 1], xi) + Mult16(f.den[ord - 1], nyi);
    StepShift(f, m, x, y, i, ord - 1, before, mem[..]);
    EndShift(f, m, x, y, i, mem[..]);
  }

  /** The inner loop of iir_mem16 and the assignment after it. */
  method ShiftPoles(den: seq<int16>, mem: array<int>, yi: int16,
                    ghost m: seq<int>, ghost x: seq<int16>, ghost y: seq<int16>, ghost i: nat)
    requires 0 < |m| == |den| <= mem.Length && i < |x| && i < |y| && y[i] == yi
    requires yi != -32768 && Shifted(AllPole(den), m, x, y, i, 0, mem[..])
    modifies mem
    ensures Settled(AllPole(den), m, x, y, i + 1, mem[..]) && mem[|den|..] == old(mem[|den|..])
  {
    hide Shifted, Settled, Partial, Mult16;
    var ord, nyi := |den|, -yi;
    ghost var f := AllPole(den);
    var j := 0;
    while j < ord - 1
      invariant 0 <= j < ord && Shifted(f, m, x, y, i, j, mem[..]) && mem[ord..] == old(mem[ord..])
    {
      ghost var before := mem[..];
      Mult16OfNegation(den[j], yi);
      Mult16OfZero(x[i]);
      mem[j] := mem[j + 1] + Mult16(den[j], nyi);
      StepShift(f, m, x, y, i, j, before, mem[..]);
      j := j + 1;
    }
    ghost var before := mem[..];
    Mult16OfNegation(den[ord - 1], yi);
    Mult16OfZero(x[i]);
    mem[ord - 1] := Mult16(den[ord - 1], nyi);
    StepShift(f, m, x, y, i, ord - 1, before, mem[..]);
    EndShift(f, m, x, y, i, mem[..]);
  }

  /** The inner loop of fir_mem16 and the assignment after it. */
  method ShiftZeros(num: seq<int16>, mem: array<int>, xi: int16,
                    ghost m: seq<int>, ghost x: seq<int16>, ghost y: seq<int16>, ghost i: nat)
    requires 0 < |m| == |num| <= mem.Length && i < |x| && i < |y| && x[i] == xi
    requires Shifted(AllZero(num), m, x, y, i, 0, mem[..])
    modifies mem
    ensures Settled(AllZero(num), m, x, y, i + 1, mem[..]) && mem[|num|..] == old(mem[|num|..])
  {
    hide Shifted, Settled, Partial, Mult16;
    var ord := |num|;
    ghost var f := AllZero(num);
    var j := 0;
    while j < ord - 1
      invariant 0 <= j < ord && Shifted(f, m, x, y, i, j, mem[..]) && mem[ord..] == old(mem[ord..])
    {
      ghost var before := mem[..];
      Mult16OfZero(y[i]);
      mem[j] := mem[j + 1] + Mult16(num[j], xi);
      StepShift(f, m, x, y, i, j, before, mem[..]);
      j := j + 1;
    }
    ghost var before := mem[..];
    Mult16OfZero(y[i]);
    mem[ord - 1] := Mult16(num[ord - 1], xi);
    StepShift(f, m, x, y, i, ord - 1, before, mem[..]);
    EndShift(f, m, x, y, i, mem[..]);
  }

  lemma Mult16OfZero(v: int16)
    ensures Mult16(0, v) == 0
  {
  }

  /** What every one of the three loops has done after i samples, whether or not input and output are one array. */
  ghost predicate Progress(f: Filter, m: seq<int>, xs: seq<int16>, ys: seq<int16>, mem: seq<int>)
    requires f.Valid() && |m| == f.Order()
  {
    |ys| <= |xs| && Solves(f, m, xs[..|ys|], ys) && Settled(f, m, xs, ys, |ys|, mem)
  }

  lemma ProgressStep(f: Filter, m: seq<int>, xs: seq<int16>, ys: seq<int16>, yi: int16, before: seq<int>, after: seq<int>)
    requires f.Valid() && |m| == f.Order() && |ys| < |xs| && Progress(f, m, xs, ys, before)
    requires yi == Saturate(xs[|ys|] + RoundShift(before[0], LPC_SHIFT))
    requires Settled(f, m, xs, ys + [yi], |ys| + 1, after)
    ensures Progress(f, m, xs, ys + [yi], after)
  {
    hide Partial, RoundShift;
    SolutionGrows(f, m, xs, ys, yi);
  }

  lemma ProgressEnds(f: Filter, m: seq<int>, xs: seq<int16>, ys: seq<int16>, mem: seq<int>)
    requires f.Valid() && |m| == f.Order() && |ys| == |xs| && Progress(f, m, xs, ys, mem)
    ensures Solves(f, m, xs, ys) && mem[..f.Order()] == After(f, m, xs, ys)
  {
    hide Partial;
    assert xs[..|ys|] == xs;
  }

  lemma NothingYet(f: Filter, m: seq<int>, xs: seq<int16>, mem: seq<int>)
    requires f.Valid() && |m| == f.Order() <= |mem| && m == mem[..f.Order()]
    ensures Progress(f, m, xs, [], mem)
  {
    SettledAtStart(f, m, xs, mem);
  }

  /** filter_mem16 */
  method FilterMem16(x: array<int16>, f: Filter, y: array<int16>, n: nat, mem: array<int>)
    requires f.Valid() && f.Order() <= mem.Length && n <= x.Length && n <= y.Length
    modifies y, mem
    ensures var m, xs := old(mem[..f.Order()]), old(x[..n]);
            Solves(f, m, xs, y[..n]) && mem[..f.Order()] == After(f, m, xs, y[..n])
    ensures y[n..] == old(y[n..]) && mem[f.Order()..] == old(mem[f.Order()..])
  {
    hide Solves, Settled, Shifted, Partial, Mult16, RoundShift;
    ghost var m, xs, ys := mem[..f.Order()], x[..n], y[..0];
    var i := 0;
    NothingYet(f, m, xs, mem[..]);
    while i < n
      invariant 0 <= i <= n && |ys| == i && y[..i] == ys && Progress(f, m, xs, ys, mem[..])
      invariant y[n..] == old(y[n..]) && mem[f.Order()..] == old(mem[f.Order()..])
      invariant x[i..n] == xs[i..]
    {
      var xi := x[i];
      var yi := Saturate(x[i] + RoundShift(mem[0], LPC_SHIFT));
      ghost var before := mem[..];
      BeginShift(f, m, xs, ys, yi, before);
      ShiftBoth(f, mem, xi, yi, m, xs, ys + [yi], i);
      ghost var rest := x[i + 1..n];
      y[i] := yi;
      assert x[i + 1..n] == rest == xs[i + 1..];
      ProgressStep(f, m, xs, ys, yi, before, mem[..]);
      ys := ys + [yi];
      i := i + 1;
    }
    ProgressEnds(f, m, xs, ys, mem[..]);
  }

  /** iir_mem16 */
  method IirMem16(x: array<int16>, den: seq<int16>, y: array<int16>, n: nat, mem: array<int>)
    requires 0 < |den| <= mem.Length && n <= x.Length && n <= y.Length
    modifies y, mem
    ensures var m, xs := old(mem[..|den|]), old(x[..n]);
            Solves(AllPole(den), m, xs, y[..n]) && mem[..|den|] == After(AllPole(den), m, xs, y[..n])
    ensures y[n..] == old(y[n..]) && mem[|den|..] == old(mem[|den|..])
  {
    hide Solves, Settled, Shifted, Partial, Mult16, RoundShift;
    ghost var f := AllPole(den);
    ghost var m, xs, ys := mem[..|den|], x[..n], y[..0];
    var i := 0;
    NothingYet(f, m, xs, mem[..]);
    while i < n
      invariant 0 <= i <= n && |ys| == i && y[..i] == ys && Progress(f, m, xs, ys, mem[..])
      invariant y[n..] == old(y[n..]) && mem[|den|..] == old(mem[|den|..])
      invariant x[i..n] == xs[i..]
    {
      var yi := Saturate(x[i] + RoundShift(mem[0], LPC_SHIFT));
      ghost var before := mem[..];
      BeginShift(f, m, xs, ys, yi, before);
      ShiftPoles(den, mem, yi, m, xs, ys + [yi], i);
      ghost var rest := x[i + 1..n];
      y[i] := yi;
      assert x[i + 1..n] == rest == xs[i + 1..];
      ProgressStep(f, m, xs, ys, yi, before, mem[..]);
      ys := ys + [yi];
      i := i + 1;
    }
    ProgressEnds(f, m, xs, ys, mem[..]);
  }

  /** fir_mem16 */
  method FirMem16(x: array<int16>, num: seq<int16>, y: array<int16>, n: nat, mem: array<int>)
    requires 0 < |num| <= mem.Length && n <= x.Length && n <= y.Length
    modifies y, mem
    ensures var m, xs := old(mem[..|num|]), old(x[..n]);
            Solves(AllZero(num), m, xs, y[..n]) && mem[..|num|] == After(AllZero(num), m, xs, y[..n])
    ensures y[n..] == old(y[n..]) && mem[|num|..] == old(mem[|num|..])
  {
    hide Solves, Settled, Shifted, Partial, Mult16, RoundShift;
    ghost var f := AllZero(num);
    ghost var m, xs, ys := mem[..|num|], x[..n], y[..0];
    var i := 0;
    NothingYet(f, m, xs, mem[..]);
    while i < n
      invariant 0 <= i <= n && |ys| == i && y[..i] == ys && Progress(f, m, xs, ys, mem[..])
      invariant y[n..] == old(y[n..]) && mem[|num|..] == old(mem[|num|..])
      invariant x[i..n] == xs[i..]
    {
      var xi := x[i];
      var yi := Saturate(x[i] + RoundShift(mem[0], LPC_SHIFT));
      ghost var before := mem[..];
      BeginShift(f, m, xs, ys, yi, before);
      ShiftZeros(num, mem, xi, m, xs, ys + [yi], i);
      ghost var rest := x[i + 1..n];
      y[i] := yi;
      assert x[i + 1..n] == rest == xs[i + 1..];
      ProgressStep(f, m, xs, ys, yi, before, mem[..]);
      ys := ys + [yi];
      i := i + 1;
    }
    ProgressEnds(f, m, xs, ys, mem[..]);
  }

  // ----- The FIR filter undoes the IIR filter -----

  ghost function Silence(n: nat): seq<int> {
    seq(n, _ => 0)
  }

  /** The feedback sum at sample i of an all-pole run from rest. */
  ghost function Feedback(den: seq<int16>, x: seq<int16>, y: seq<int16>, i: nat): int
    requires |den| > 0 && i <= |x| && i <= |y|
  {
    Partial(AllPole(den), Silence(|den|), x, y, i, 0)
  }

  /** The sum lies half way between two units, where rounding goes up whatever the sign. */
  ghost function Tie(a: int): int {
    if a % 8192 == 4096 then 1 else 0
  }

  /** How much of sample i the saturation of the all-pole filter cut off. */
  ghost function Excess(den: seq<int16>, x: seq<int16>, y: seq<int16>, i: nat): int
    requires |den| > 0 && i < |x| && i < |y|
  {
    x[i] + RoundShift(Feedback(den, x, y, i), LPC_SHIFT) - y[i]
  }

  lemma {:induction false} TapsOfZeros(n: nat, s: seq<int16>, i: nat, j: nat, t: nat)
    requires t <= i <= |s| && j + t <= n
    ensures Taps(Zeros(n), s, i, j, t) == 0
  {
    if t > 0 {
      TapsOfZeros(n, s, i, j, t - 1);
      Mult16OfZero(s[i - t]);
    }
  }

  lemma FeedForwardIsFeedbackNegated(den: seq<int16>, x: seq<int16>, y: seq<int16>, z: seq<int16>, i: nat)
    requires |den| > 0 && i <= |x| && i <= |y| && i <= |z|
    ensures Partial(AllZero(den), Silence(|den|), y, z, i, 0) == -Feedback(den, x, y, i)
  {
    hide Taps;
    TapsOfZeros(|den|, x, i, 0, Reach(|den|, i, 0));
    TapsOfZeros(|den|, z, i, 0, Reach(|den|, i, 0));
  }

  lemma ThirteenBits()
    ensures BitOps.Pow2(LPC_SHIFT) == 8192
  {
    assert BitOps.Pow2(4) == 16;
    assert BitOps.Pow2(8) == 256;
    assert BitOps.Pow2(12) == 4096;
  }

  /** At every sample, whatever happened before it: the input, one up on a tie, less what saturation cut off there.
      Nothing accumulates from one sample to the next. */
  lemma FirUndoesIir(den: seq<int16>, x: seq<int16>, y: seq<int16>, z: seq<int16>, i: nat)
    requires |den| > 0 && i < |x|
    requires Solves(AllPole(den), Silence(|den|), x, y) && Solves(AllZero(den), Silence(|den|), y, z)
    ensures z[i] == Saturate(x[i] + Tie(Feedback(den, x, y, i)) - Excess(den, x, y, i))
    ensures -32767 <= x[i] + RoundShift(Feedback(den, x, y, i), LPC_SHIFT) <= 32767 <==> Excess(den, x, y, i) == 0
  {
    hide Partial, RoundShift;
    FeedForwardIsFeedbackNegated(den, x, y, z, i);
    RoundShiftOfNegation(Feedback(den, x, y, i), LPC_SHIFT);
    ThirteenBits();
  }

  /** When exactly a sample comes back as it was. */
  lemma SampleComesBack(den: seq<int16>, x: seq<int16>, y: seq<int16>, z: seq<int16>, i: nat)
    requires |den| > 0 && i < |x|
    requires Solves(AllPole(den), Silence(|den|), x, y) && Solves(AllZero(den), Silence(|den|), y, z)
    ensures var tie, excess := Tie(Feedback(den, x, y, i)), Excess(den, x, y, i);
            z[i] == x[i] <==>
              && x[i] != -32768
              && (excess == tie || (x[i] == 32767 && excess <= tie) || (x[i] == -32767 && excess >= tie))
  {
    hide Partial, Solves, RoundShift, Feedback, Excess, Tie;
    FirUndoesIir(den, x, y, z, i);
  }

  /** iir_mem16 from rest and then fir_mem16 from rest, in place. */
  method Undo(x: array<int16>, den: seq<int16>, n: nat) returns (y: seq<int16>)
    requires 0 < |den| && n <= x.Length
    modifies x
    ensures |y| == n && x[n..] == old(x[n..])
    ensures forall i :: 0 <= i < n ==>
      x[i] == Saturate(old(x[i]) + Tie(Feedback(den, old(x[..n]), y, i)) - Excess(den, old(x[..n]), y, i))
  {
    hide Solves, Feedback, Excess, RoundShift;
    var mem := new int[|den|](_ => 0);
    ghost var xs := x[..n];
    assert mem[..|den|] == Silence(|den|);
    IirMem16(x, den, x, n, mem);
    y := x[..n];
    mem := new int[|den|](_ => 0);
    assert mem[..|den|] == Silence(|den|);
    FirMem16(x, den, x, n, mem);
    forall i | 0 <= i < n
      ensures x[i] == Saturate(xs[i] + Tie(Feedback(den, xs, y, i)) - Excess(den, xs, y, i))
    {
      assert x[..n][i] == x[i];
      SolutionLength(AllPole(den), Silence(|den|), xs, y);
      FirUndoesIir(den, xs, y, x[..n], i);
    }
  }

  lemma SolutionLength(f: Filter, m: seq<int>, x: seq<int16>, y: seq<int16>)
    requires f.Valid() && |m| == f.Order() && Solves(f, m, x, y)
    ensures |x| == |y|
  {
  }

  // ----- The perceptual weighting of what has been synthesised -----

  /** y is x through the all-pole filter and then the weighting filter, both from rest. */
  ghost predicate Perceived(ak: seq<int16>, awk1: seq<int16>, awk2: seq<int16>, x: seq<int16>, y: seq<int16>)
    requires 0 < |ak| == |awk1| == |awk2|
  {
    exists u :: Solves(AllPole(ak), Silence(|ak|), x, u) && Solves(Filter(awk1, awk2), Silence(|ak|), u, y)
  }

  /** Weighted with the synthesis filter's own coefficients above and nothing below, the signal comes back, sample by
      sample, as the FIR filter gives it back. */
  lemma WeightingUndoes(ak: seq<int16>, x: seq<int16>, y: seq<int16>, i: nat)
    requires 0 < |ak| && Perceived(ak, ak, Zeros(|ak|), x, y) && i < |x|
    ensures |y| == |x|
    ensures exists u ::
      && Solves(AllPole(ak), Silence(|ak|), x, u) && |u| == |x|
      && y[i] == Saturate(x[i] + Tie(Feedback(ak, x, u, i)) - Excess(ak, x, u, i))
  {
    hide Solves, Feedback, Excess, Tie;
    var u :| Solves(AllPole(ak), Silence(|ak|), x, u) && Solves(Filter(ak, Zeros(|ak|)), Silence(|ak|), u, y);
    SolutionLength(AllPole(ak), Silence(|ak|), x, u);
    SolutionLength(AllZero(ak), Silence(|ak|), u, y);
    FirUndoesIir(ak, x, u, y, i);
  }

  /** syn_percep_zero16 */
  method SynPercepZero16(x: array<int16>, ak: seq<int16>, awk1: seq<int16>, awk2: seq<int16>, y: array<int16>, n: nat)
    requires 0 < |ak| == |awk1| == |awk2| && n <= x.Length && n <= y.Length
    modifies y
    ensures Perceived(ak, awk1, awk2, old(x[..n]), y[..n]) && y[n..] == old(y[n..])
  {
    hide Solves;
    var mem := new int[|ak|](_ => 0);
    assert mem[..|ak|] == Silence(|ak|);
    IirMem16(x, ak, y, n, mem);
    ghost var u := y[..n];
    for i := 0 to |ak|
      invariant y[..n] == u && y[n..] == old(y[n..]) && forall k :: 0 <= k < i ==> mem[k] == 0
    {
      mem[i] := 0;
    }
    assert mem[..|ak|] == Silence(|ak|);
    FilterMem16(y, Filter(awk1, awk2), y, n, mem);
    assert Solves(AllPole(ak), Silence(|ak|), old(x[..n]), u);
  }
}
