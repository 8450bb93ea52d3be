/** CbEncoder: the two searches from end to end, and their agreement with the decoder. */
module CbEncoder {
  import opened BitOps
  import Seqs
  import opened BitStreams
  import opened FixedPoint
  import opened NBest
  import opened Vq
  import opened CbShape
  import CbSurvivors
  import opened CbSearch
  import opened CbBeam
  import opened SpeexBits
  import opened Bytes
  import Filters
  import Memory

  // ----- The weighted codebook -----

  /** Sample j of the response to entry e, up to t terms of the convolution, before scaling. */
  ghost function Convolution(p: Params, r: seq<int16>, e: nat, j: nat, t: nat): int
    requires p.Valid() && e < p.Size() && t <= j + 1 <= p.subvect && j < |r|
  {
    if t == 0 then 0
    else
      RowsFit(e, p.Size(), p.subvect);
      Convolution(p, r, e, j, t - 1) + Mult16(p.shape[e * p.subvect + t - 1], r[j - (t - 1)])
  }

  ghost function Squares(rows: seq<int16>, at: nat, len: nat): int
    requires at + len <= |rows|
  {
    if len == 0 then 0 else Squares(rows, at, len - 1) + Mult16(rows[at + len - 1], rows[at + len - 1])
  }

  ghost function Weight(p: Params, r: seq<int16>, e: nat, j: nat): int16
    requires p.Valid() && e < p.Size() && j < p.subvect && j < |r|
  {
    Wrap16(Convolution(p, r, e, j, j + 1) / 8192)
  }

  /** The first n samples of the impulse response, the last one first. */
  ghost function Backwards(r: seq<int16>, n: nat): (b: seq<int16>)
    requires n <= |r|
    ensures |b| == n
  {
    seq<int16>(n, k requires 0 <= k < n => r[n - 1 - k])
  }

  lemma {:induction false} ConvolutionIsDot(p: Params, r: seq<int16>, e: nat, j: nat, t: nat)
    requires p.Valid() && e < p.Size() && t <= j + 1 <= p.subvect && j < |r|
    ensures 0 <= e * p.subvect && e * p.subvect + p.subvect <= |p.shape|
    ensures Convolution(p, r, e, j, t) == Dot(Backwards(r, j + 1), p.shape, e * p.subvect, t)
  {
    hide Mult16, Pow2;
    RowsFit(e, p.Size(), p.subvect);
    if t > 0 {
      ConvolutionIsDot(p, r, e, j, t - 1);
      Mult16Commutes(p.shape[e * p.subvect + t - 1], r[j - (t - 1)]);
    }
  }

  lemma Mult16Commutes(a: int16, b: int16)
    ensures Mult16(a, b) == Mult16(b, a)
  {
  }

  /** A response is the inner product of the shape and the impulse response read backwards, less what 13 bits drop, as far
      as it fits 16 bits. */
  lemma WeightIsFloor(p: Params, r: seq<int16>, e: nat, j: nat)
    requires p.Valid() && e < p.Size() && j < p.subvect && j < |r|
    ensures 0 <= e * p.subvect && e * p.subvect + p.subvect <= |p.shape|
    ensures var exact, w := Dot(Backwards(r, j + 1), p.shape, e * p.subvect, j + 1), Weight(p, r, e, j);
            -0x8000 * 8192 <= exact < 0x8000 * 8192 <==> 8192 * w <= exact < 8192 * w + 8192
  {
    hide Dot, Convolution, Pow2;
    ConvolutionIsDot(p, r, e, j, j + 1);
  }

  /** The response to an impulse of one, 2 to the 13, is the shape itself. */
  lemma UnitResponse(p: Params, r: seq<int16>, e: nat, j: nat)
    requires p.Valid() && e < p.Size() && j < p.subvect && j < |r|
    requires r[0] == 8192 && forall k :: 0 < k < |r| ==> r[k] == 0
    ensures 0 <= e * p.subvect && e * p.subvect + p.subvect <= |p.shape|
    ensures Weight(p, r, e, j) == p.shape[e * p.subvect + j]
  {
    hide Convolution, Pow2;
    RowsFit(e, p.Size(), p.subvect);
    SilentTail(p, r, e, j, j);
    OneTermMore(p, r, e, j);
  }

  lemma OneTermMore(p: Params, r: seq<int16>, e: nat, j: nat)
    requires p.Valid() && e < p.Size() && j < p.subvect && j < |r|
    ensures 0 <= e * p.subvect && e * p.subvect + p.subvect <= |p.shape|
    ensures Convolution(p, r, e, j, j + 1) == Convolution(p, r, e, j, j) + p.shape[e * p.subvect + j] as int * r[0] as int
  {
    hide Pow2;
    RowsFit(e, p.Size(), p.subvect);
  }

  lemma {:induction false} SilentTail(p: Params, r: seq<int16>, e: nat, j: nat, t: nat)
    requires p.Valid() && e < p.Size() && t <= j < p.subvect && j < |r|
    requires forall k :: 0 < k < |r| ==> r[k] == 0
    ensures Convolution(p, r, e, j, t) == 0
  {
    hide Pow2;
    if t > 0 {
      SilentTail(p, r, e, j, t - 1);
      RowsFit(e, p.Size(), p.subvect);
      TimesNothing(p.shape[e * p.subvect + t - 1]);
    }
  }

  lemma TimesNothing(a: int16)
    ensures Mult16(a, 0) == 0
  {
  }

  /** What is taken out of the rest of the target for one shape is the same convolution further on, up to half a unit for
      each of its terms, which are rounded one by one. */
  lemma {:induction false} ResponseIsNear(s: Search, index: nat, d: nat, t: nat)
    requires s.p.Valid() && index < s.p.Indices() && t <= s.p.subvect <= d < |s.r|
    ensures 0 <= s.p.Row(index) * s.p.subvect && s.p.Row(index) * s.p.subvect + s.p.subvect <= |s.p.shape|
    ensures var exact := Dot(Backwards(s.r, d + 1), s.p.shape, s.p.Row(index) * s.p.subvect, t);
            var signed := if index < s.p.Size() then exact else -exact;
            -4096 * t <= signed - 8192 * Response(s, index, d, t) <= 4096 * t
  {
    hide Pow2, RoundShift, Mult16, Gain;
    ShapeFits(s.p, index);
    if t > 0 {
      ResponseIsNear(s, index, d, t - 1);
      TermIsNear(s.p, index, t - 1, s.r[d - (t - 1)]);
    }
  }

  lemma TermIsNear(p: Params, index: nat, m: nat, g: int16)
    requires p.Valid() && index < p.Indices() && m < p.subvect
    ensures 0 <= p.Row(index) * p.subvect && p.Row(index) * p.subvect + p.subvect <= |p.shape|
    ensures var exact := Mult16(g, p.shape[p.Row(index) * p.subvect + m]);
            var signed := if index < p.Size() then exact else -exact;
            -4096 <= signed - 8192 * RoundShift(Mult16(Gain(p, index, m), g), 13) <= 4096
  {
    hide Pow2, RoundShift;
    ShapeFits(p, index);
    Filters.ThirteenBits();
    var a := Mult16(Gain(p, index, m), g);
    RoundShiftIsNearest(a, 13, RoundShift(a, 13));
  }

  /** Entry e of the search's tables is the response to shape e, with its energy. */
  ghost predicate EntryWeighted(s: Search, e: nat)
    requires s.Valid() && e < s.p.Size() && s.p.nb > 0
  {
    RowFits(s.Book(), e);
    SegmentFits(s, 0);
    && (forall j :: 0 <= j < s.p.subvect ==> s.rows[e * s.p.subvect + j] == Weight(s.p, s.r, e, j))
    && s.energy[e] == Squares(s.rows, e * s.p.subvect, s.p.subvect)
  }

  ghost predicate Weighted(s: Search) {
    s.Valid() && s.p.nb > 0 && forall e :: 0 <= e < s.p.Size() ==> EntryWeighted(s, e)
  }

  ghost function Rows(p: Params, r: seq<int16>): (rows: seq<int16>)
    requires p.Valid() && p.subvect <= |r|
    ensures |rows| == p.Size() * p.subvect
  {
    seq<int16>(p.Size() * p.subvect, k requires 0 <= k < p.Size() * p.subvect => RowEntry(p, r, k))
  }

  ghost function RowEntry(p: Params, r: seq<int16>, k: nat): int16
    requires p.Valid() && p.subvect <= |r| && k < p.Size() * p.subvect
  {
    PlaceInRow(k, p.Size(), p.subvect);
    Weight(p, r, k / p.subvect, k % p.subvect)
  }

  lemma PlaceInRow(k: nat, rows: nat, len: nat)
    requires k < rows * len && len > 0
    ensures 0 <= k / len < rows && 0 <= k % len < len
  {
    var q := k / len;
    assert k == q * len + k % len;
    assert q >= rows ==> q * len >= rows * len;
  }

  lemma EntryOfRow(e: nat, j: nat, len: nat)
    requires j < len
    ensures (e * len + j) / len == e && (e * len + j) % len == j
  {
    Remainder(e * len + j, len, e, j);
  }

  /** What a search is over, given the parameters, the target and the impulse response. */
  ghost function SearchFor(p: Params, target: seq<int16>, r: seq<int16>): (s: Search)
    requires p.Valid() && |target| == |r| == p.nb * p.subvect && p.subvect <= |r|
  {
    var rows := Rows(p, r);
    Search(p, rows, seq(p.Size(), e requires 0 <= e < p.Size() => RowSquares(p, rows, e)), target, r)
  }

  ghost function RowSquares(p: Params, rows: seq<int16>, e: nat): int
    requires p.Valid() && |rows| == p.Size() * p.subvect && e < p.Size()
  {
    RowsFit(e, p.Size(), p.subvect);
    Squares(rows, e * p.subvect, p.subvect)
  }

  lemma SearchForIsWeighted(p: Params, target: seq<int16>, r: seq<int16>)
    requires p.Valid() && |target| == |r| == p.nb * p.subvect && p.nb > 0 && p.subvect <= |r|
    ensures Weighted(SearchFor(p, target, r))
  {
    hide Pow2, Weight, Squares;
    var s := SearchFor(p, target, r);
    forall e | 0 <= e < p.Size() ensures EntryWeighted(s, e) {
      RowsFit(e, p.Size(), p.subvect);
      SegmentFits(s, 0);
      forall j | 0 <= j < p.subvect ensures s.rows[e * p.subvect + j] == Weight(p, r, e, j) {
        EntryOfRow(e, j, p.subvect);
        assert s.rows[e * p.subvect + j] == RowEntry(p, r, e * p.subvect + j);
      }
      assert s.energy[e] == RowSquares(p, s.rows, e);
    }
  }

  /** The tables a search is over, sample by sample: inner products of a shape with the impulse response read backwards,
      less what 13 bits drop, and their sums of squares. */
  lemma TablesAreResponses(p: Params, target: seq<int16>, r: seq<int16>, e: nat, j: nat)
    requires p.Valid() && |target| == |r| == p.nb * p.subvect && p.nb > 0 && p.subvect <= |r| && e < p.Size() && j < p.subvect
    ensures var s := SearchFor(p, target, r);
            && s.p == p && s.target == target && s.r == r && |s.energy| == p.Size()
            && 0 <= e * p.subvect && e * p.subvect + p.subvect <= |p.shape| == |s.rows|
    ensures var s, exact := SearchFor(p, target, r), Dot(Backwards(r, j + 1), p.shape, e * p.subvect, j + 1);
            var w := s.rows[e * p.subvect + j];
            -0x8000 * 8192 <= exact < 0x8000 * 8192 <==> 8192 * w <= exact < 8192 * w + 8192
    ensures var s := SearchFor(p, target, r);
            s.energy[e] == Dot(s.rows[e * p.subvect..e * p.subvect + p.subvect], s.rows, e * p.subvect, p.subvect)
  {
    hide Pow2, Dot, Squares, Weight;
    RowsFit(e, p.Size(), p.subvect);
    WeightIsFloor(p, r, e, j);
    var s := SearchFor(p, target, r);
    SearchForIsWeighted(p, target, r);
    assert EntryWeighted(s, e);
    SquaresAreDot(s.rows, e * p.subvect, p.subvect, p.subvect);
  }

  lemma {:induction false} SquaresAreDot(rows: seq<int16>, at: nat, len: nat, n: nat)
    requires n <= len && at + len <= |rows|
    ensures Squares(rows, at, n) == Dot(rows[at..at + len], rows, at, n)
  {
    if n > 0 {
      SquaresAreDot(rows, at, len, n - 1);
    }
  }

  /** The squared distance of a vector from a signed response. */
  ghost function SquaredDistance(x: seq<int16>, rows: seq<int16>, at: nat, sign: int, len: nat): int
    requires len <= |x| && at + len <= |rows|
  {
    if len == 0 then 0
    else
      var d: int := x[len - 1] as int - sign * rows[at + len - 1];
      SquaredDistance(x, rows, at, sign, len - 1) + d * d
  }

  ghost function Distance(s: Search, x: seq<int16>, index: nat): int
    requires s.Valid() && |x| == s.p.subvect && index < s.p.Indices()
  {
    RowFits(s.Book(), s.p.Row(index));
    SquaredDistance(x, s.rows, s.p.Row(index) * s.p.subvect, s.p.Sign(index), s.p.subvect)
  }

  lemma {:induction false} SquareExpands(x: seq<int16>, rows: seq<int16>, at: nat, sign: int, len: nat)
    requires len <= |x| && at + len <= |rows| && (sign == 1 || sign == -1)
    ensures SquaredDistance(x, rows, at, sign, len) ==
            Dot(x, x, 0, len) - 2 * (if sign == 1 then Dot(x, rows, at, len) else -Dot(x, rows, at, len)) + Squares(rows, at, len)
  {
    if len > 0 {
      SquareExpands(x, rows, at, sign, len - 1);
      SquareOfDifference(x[len - 1], rows[at + len - 1], sign);
    }
  }

  lemma SquareOfDifference(a: int16, b: int16, sign: int)
    requires sign == 1 || sign == -1
    ensures var d := a as int - sign * b;
            d * d == Mult16(a, a) - 2 * (if sign == 1 then Mult16(a, b) else -Mult16(a, b)) + Mult16(b, b)
  {
    if sign == 1 {
      assert sign * b == b;
    } else {
      assert sign * b == -(b as int);
    }
  }

  /** Twice the cost of a step is the squared distance from the signed response, less what halving the two energies
      dropped: the search compares distances, up to that. */
  lemma StepCostIsDistance(s: Search, x: seq<int16>, index: nat)
    requires Weighted(s) && |x| == s.p.subvect && index < s.p.Indices()
    ensures 2 * StepCost(s, x, index) == Distance(s, x, index) - s.energy[s.p.Row(index)] % 2 - Norm(x) % 2
  {
    hide SquaredDistance, Dot, Squares, Pow2;
    var row := s.p.Row(index);
    RowFits(s.Book(), row);
    assert EntryWeighted(s, row);
    SquareExpands(x, s.rows, row * s.p.subvect, s.p.Sign(index), s.p.subvect);
  }

  /** compute_weighted_codebook */
  method WeightedCodebook(p: Params, r: seq<int16>, ghost s: Search) returns (resp: array<int16>, energy: array<int>)
    requires s.Valid() && s.p.nb > 0 && Weighted(s) && p == s.p && r == s.r
    ensures fresh(resp) && fresh(energy) && resp[..] == s.rows && energy[..] == s.energy
  {
    hide Weighted, Params.Size, Search.Valid;
    var size := p.Size();
    resp, energy := new int16[size * p.subvect], new int[size];
    TablesFit(s);
    var i, at := 0, 0;
    while i < size
      invariant 0 <= i <= size && at == i * p.subvect <= resp.Length
      invariant resp[..at] == s.rows[..at] && energy[..i] == s.energy[..i]
    {
      RowsFit(i, size, p.subvect);
      NextEntry(p, r, i, at, resp, energy, s);
      i, at := i + 1, at + p.subvect;
    }
    assert resp[..] == resp[..at];
  }

  method NextEntry(p: Params, r: seq<int16>, i: nat, at: nat, resp: array<int16>, energy: array<int>, ghost s: Search)
    requires s.Valid() && Weighted(s) && p == s.p && r == s.r && i < p.Size() && at == i * p.subvect && p.subvect <= |r|
    requires resp.Length == |s.rows| && energy.Length == |s.energy| && at + p.subvect <= resp.Length
    requires resp[..at] == s.rows[..at] && energy[..i] == s.energy[..i]
    modifies resp, energy
    ensures resp[..at + p.subvect] == s.rows[..at + p.subvect] && energy[..i + 1] == s.energy[..i + 1]
  {
    hide Weighted, Params.Size;
    var res, e := WeightEntry(p, r, i, at, s);
    StoreNext(res, resp, at, s.rows);
    energy[i] := e;
    NextAgrees(energy[..], s.energy, i);
  }

  lemma TablesFit(s: Search)
    requires s.Valid() && s.p.nb > 0
    ensures |s.rows| == s.p.Size() * s.p.subvect && |s.energy| == s.p.Size() && s.p.subvect <= |s.r|
  {
    SegmentFits(s, 0);
  }

  lemma NextAgrees<T>(a: seq<T>, b: seq<T>, i: nat)
    requires i < |a| && i < |b| && a[..i] == b[..i] && a[i] == b[i]
    ensures a[..i + 1] == b[..i + 1]
  {
  }

  method StoreNext(res: seq<int16>, a: array<int16>, at: nat, ghost all: seq<int16>)
    requires at + |res| <= a.Length == |all| && a[..at] == all[..at] && res == all[at..at + |res|]
    modifies a
    ensures a[..at + |res|] == all[..at + |res|]
  {
    Memory.Store(res, a, at);
    Seqs.JoinSlices(a[..], 0, at, at + |res|);
    Seqs.JoinSlices(all, 0, at, at + |res|);
  }

  /** One entry: its response, a sample at a time, and its energy. */
  method WeightEntry(p: Params, r: seq<int16>, i: nat, ghost at: nat, ghost s: Search) returns (res: seq<int16>, e: int)
    requires s.Valid() && Weighted(s) && p == s.p && r == s.r && i < p.Size() && at == i * p.subvect
    requires at + p.subvect <= |s.rows| && p.subvect <= |r|
    ensures res == s.rows[at..at + p.subvect] && e == s.energy[i]
  {
    hide Pow2, Squares, Convolution, Weighted;
    res, e := [], 0;
    NoSquares(s.rows, at);
    var j := 0;
    while j < p.subvect
      invariant 0 <= j <= p.subvect && res == s.rows[at..at + j] && e == Squares(s.rows, at, j)
    {
      var resj := Convolve(p, r, i, j);
      var res16 := Wrap16(resj / 8192);
      WeightIs(s, i, j, at);
      e := e + Mult16(res16, res16);
      res := res + [res16];
      j := j + 1;
    }
    EnergyIs(s, i);
  }

  lemma WeightIs(s: Search, i: nat, j: nat, at: nat)
    requires Weighted(s) && i < s.p.Size() && j < s.p.subvect && at == i * s.p.subvect && at + j < |s.rows| && j < |s.r|
    ensures s.rows[at + j] == Weight(s.p, s.r, i, j)
    ensures Squares(s.rows, at, j + 1) == Squares(s.rows, at, j) + Mult16(s.rows[at + j], s.rows[at + j])
  {
    hide Weight, Pow2;
    assert EntryWeighted(s, i);
  }

  lemma EnergyIs(s: Search, i: nat)
    requires Weighted(s) && i < s.p.Size()
    ensures 0 <= i * s.p.subvect && i * s.p.subvect + s.p.subvect <= |s.rows|
    ensures s.energy[i] == Squares(s.rows, i * s.p.subvect, s.p.subvect)
  {
    hide Weight, Pow2;
    RowFits(s.Book(), i);
    assert EntryWeighted(s, i);
  }

  lemma NoSquares(rows: seq<int16>, at: nat)
    requires at <= |rows|
    ensures Squares(rows, at, 0) == 0
  {
  }

  method Convolve(p: Params, r: seq<int16>, i: nat, j: nat) returns (resj: int)
    requires p.Valid() && i < p.Size() && j < p.subvect && j < |r|
    ensures resj == Convolution(p, r, i, j, j + 1)
  {
    hide Pow2, Mult16;
    RowsFit(i, p.Size(), p.subvect);
    resj := 0;
    for k := 0 to j + 1
      invariant resj == Convolution(p, r, i, j, k)
    {
      resj := resj + Mult16(p.shape[i * p.subvect + k], r[j - k]);
    }
  }

  // ----- The searches -----

  lemma OneFieldLess(left: nat, width: nat)
    requires left > 0
    ensures left * width == width + (left - 1) * width && (left - 1) * width >= 0
  {
  }

  lemma NextField(p: Params, ind: seq<nat>, i: nat, before: seq<bool>)
    requires p.Valid() && Indexes(p, ind) && i < |ind|
    ensures Word32(ind[i]) == ind[i] && p.Width() <= 32
    ensures before + Pack(true, Fields(p, ind)[..i]) + FieldBits(true, ind[i], p.Width())
         == before + Pack(true, Fields(p, ind)[..i + 1])
  {
    hide FieldBits, Pow2;
    var fields := Fields(p, ind);
    assert fields[..i + 1][..i] == fields[..i];
    Seqs.ConcatAssociates(before, Pack(true, fields[..i]), FieldBits(true, ind[i], p.Width()));
    EightBits();
    PowIsMonotone(p.bits, 30);
    ThirtyBits();
  }

  lemma ThirtyBits()
    ensures Pow2(30) == 0x4000_0000
  {
    EightBits();
    assert Pow2(32) == 2 * Pow2(31) && Pow2(31) == 2 * Pow2(30);
  }

  method StartTables(w: Work, ot: array2<int16>, target: array<int16>, ghost oind: array2<nat>, ghost s: Search)
    requires w.Valid() && s.Valid() && w.n > 0 && ot.Length0 == oind.Length0 == w.n
    requires ot.Length1 == |s.r| <= target.Length && oind.Length1 == s.p.nb && target[..|s.r|] == s.target
    modifies w.odist, ot
    ensures Tables(w, ot, oind, s, [START], 0)
  {
    for j := 0 to w.n
      invariant forall a, b :: 0 <= a < j && 0 <= b < ot.Length1 ==> ot[a, b] == target[b]
    {
      for m := 0 to ot.Length1
        invariant forall a, b :: 0 <= a < j && 0 <= b < ot.Length1 ==> ot[a, b] == target[b]
        invariant forall b :: 0 <= b < m ==> ot[j, b] == target[b]
      {
        ot[j, m] := target[m];
      }
    }
    for j := 0 to w.n
      invariant forall k :: 0 <= k < j ==> w.odist[k] == 0
      invariant forall a, b :: 0 <= a < w.n && 0 <= b < ot.Length1 ==> ot[a, b] == target[b]
    {
      w.odist[j] := 0;
    }
    AtTheStart(s);
    assert TargetRow(ot, 0, s, []) by {
      forall m | 0 <= m < |s.r| ensures ot[0, m] == Residual(s, [], m) {
        assert target[..|s.r|][m] == target[m];
      }
    }
  }

  /** The main loop of split_cb_search_shape_sign: all subvectors, the tables changing places after each. */
  method SearchNBest(p: Params, target: array<int16>, r: seq<int16>, resp: array<int16>, energy: array<int>, n: nat,
                     ghost s: Search) returns (ind: seq<nat>, ghost beams: seq<seq<Survivor>>)
    requires s.Valid() && 0 < n <= p.Size() && p == s.p && r == s.r
    requires |r| <= target.Length && target[..|r|] == s.target && resp[..] == s.rows && energy[..] == s.energy
    ensures Beam(s, n, true, beams, p.nb) && |beams| == p.nb + 1 && |beams[p.nb]| > 0 && ind == beams[p.nb][0].path
    ensures Path(s, ind) && |ind| == p.nb
  {
    hide Pow2, TargetRow, IndexRow, Step, Path, Beam, Best, Extensions, Following, Below;
    var w := new Work(n);
    var ot, nt := new int16[n, |r|], new int16[n, |r|];
    var oind, nind := new nat[n, p.nb], new nat[n, p.nb];
    StartTables(w, ot, target, oind, s);
    ghost var vs: seq<Survivor> := [START];
    beams := [vs];
    BeamBegins(s, n, true);
    var i := 0;
    while i < p.nb
      invariant 0 <= i <= p.nb && Tables(w, ot, oind, s, vs, i) && |vs| == (if i == 0 then 1 else n)
      invariant ot != nt && oind != nind && nt.Length0 == nind.Length0 == n && nt.Length1 == |r| && nind.Length1 == p.nb
      invariant fresh(ot) && fresh(nt) && fresh(oind) && fresh(nind)
      invariant Beam(s, n, true, beams, i) && |beams| == i + 1 && vs == beams[i]
      invariant 0 < i == p.nb ==> IndexRow(nind, 0, vs[0].path)
    {
      vs := OneSubvector(w, p, r, resp, energy, ot, nt, oind, nind, i, s, vs);
      ot, nt := nt, ot;
      BeamGrows(s, n, true, beams, i, vs);
      beams := beams + [vs];
      i := i + 1;
    }
    assert Path(s, vs[0].path) && |vs[0].path| == p.nb;
    ind := ReadRow(nind, p.nb, vs[0].path);
  }

  /** One turn of the main loop, up to the exchange of the tables. */
  method OneSubvector(w: Work, p: Params, r: seq<int16>, resp: array<int16>, energy: array<int>, ot: array2<int16>,
                      nt: array2<int16>, oind: array2<nat>, nind: array2<nat>, i: nat,
                      ghost s: Search, ghost vs: seq<Survivor>) returns (ghost next: seq<Survivor>)
    requires Tables(w, ot, oind, s, vs, i) && i < p.nb && |vs| == (if i == 0 then 1 else w.n)
    requires 0 < w.n <= p.Size() && p == s.p && r == s.r && energy != w.ndist && energy != w.best_dist
    requires energy != w.odist && resp[..] == s.rows && energy[..] == s.energy && ot != nt && oind != nind
    requires nt.Length0 == nind.Length0 == w.n && nt.Length1 == |r| && nind.Length1 == p.nb
    modifies w.ndist, w.best_nind, w.best_ntarget, w.best_index, w.best_dist, nt, nind, oind, w.odist
    ensures Tables(w, nt, oind, s, next, i + 1) && |next| == w.n && Step(s, vs, i, w.n, true, next)
    ensures i + 1 == p.nb ==> IndexRow(nind, 0, next[0].path)
  {
    hide Pow2, TargetRow, IndexRow, Step, Path, Best, Extensions, Following, Below;
    ghost var l := ExtendAll(w, p, resp, energy, ot, i, oind, s, vs);
    FollowAll(w, ot, nt, oind, nind, i, p, r, s, vs, l);
    IsStep(s, vs, i, w.n, l);
    next := Following(vs, l, w.n);
  }

  lemma IsStep(s: Search, vs: seq<Survivor>, i: nat, n: nat, l: seq<Cand>)
    requires Surviving(s, vs, i) && i < s.p.nb && |vs| > 0
    requires Best(l, Below(Extensions(s, vs, i, |vs|), CbSurvivors.VERY_LARGE32), n)
    ensures Step(s, vs, i, n, true, Following(vs, l, n))
  {
    hide Best, Extensions, Following;
    assert Survive(s, vs, i, n, true, l, Following(vs, l, n));
  }

  method ReadRow(nind: array2<nat>, nb: nat, ghost path: seq<nat>) returns (ind: seq<nat>)
    requires 0 < nind.Length0 && |path| == nb == nind.Length1 && (nb > 0 ==> IndexRow(nind, 0, path))
    ensures ind == path
  {
    ind := [];
    for q := 0 to nb
      invariant |ind| == q && forall k :: 0 <= k < q ==> ind[k] == nind[0, k]
    {
      ind := ind + [nind[0, q]];
    }
  }

  // ----- One survivor only -----

  /** Take the response to the chosen shape out of the subvector it matches, which is not looked at again. */
  method UpdateMatched(t: array2<int16>, at: nat, len: nat, resp: array<int16>, row: nat, negative: bool)
    requires t.Length0 == 1 && at + len <= t.Length1 && row + len <= resp.Length
    modifies t
    ensures forall b :: at + len <= b < t.Length1 ==> t[0, b] == old(t[0, b])
    ensures forall m :: at <= m < at + len ==>
      t[0, m] == Wrap16(old(t[0, m]) as int + if negative then resp[row + m - at] as int else -(resp[row + m - at] as int))
  {
    for m := 0 to len
      invariant forall b :: at + m <= b < t.Length1 ==> t[0, b] == old(t[0, b])
      invariant forall b :: at <= b < at + m ==>
        t[0, b] == Wrap16(old(t[0, b]) as int + if negative then resp[row + b - at] as int else -(resp[row + b - at] as int))
    {
      if negative {
        t[0, at + m] := Wrap16(t[0, at + m] as int + resp[row + m] as int);
      } else {
        t[0, at + m] := Wrap16(t[0, at + m] as int - resp[row + m] as int);
      }
    }
  }

  /** The best single index for what is left: a step of the search with one survivor and no mark. */
  method ChooseOne(p: Params, x: seq<int16>, resp: array<int16>, energy: array<int>, ghost s: Search, ghost v: Survivor)
    returns (index: nat, ghost next: Survivor)
    requires Path(s, v.path) && |v.path| < s.p.nb && x == Segment(s, v.path) && p == s.p && s.p.Size() > 0
    requires resp[..] == s.rows && energy[..] == s.energy
    ensures index < s.p.Indices() && next.path == v.path + [index] && Step(s, [v], |v.path|, 1, false, [next])
  {
    hide Segment, StepCost, Norm, Holds, Candidates, ExtensionsOf, Best;
    var best_index, best_dist := new nat[1], new int[1];
    ghost var found := VqNBest(x, resp, energy, p.signed, 1, best_index, best_dist);
    index := best_index[0];
    ghost var t := [Moved(found[0], v.dist + Norm(x) / 2, 0)];
    FoundAreExtensions(s, v, 0, found, 1, t);
    IndexHeld(found, best_index[..], best_dist[..]);
    assert Extensions(s, [v], |v.path|, 1) == ExtensionsOf(s, v, 0);
    ExtensionsAre(s, [v], |v.path|, 1, t[0]) by {
      assert t[0] in ExtensionsOf(s, v, 0) by { MembersOfBest(t, ExtensionsOf(s, v, 0), 1); }
    }
    next := Extended([v], t[0]);
    assert Following([v], t, 1) == [next];
    assert Survive(s, [v], |v.path|, 1, false, t, [next]);
  }

  lemma IndexHeld(l: seq<Cand>, nbest: seq<nat>, dist: seq<int>)
    requires Holds(l, nbest, dist) && |l| > 0
    ensures |nbest| > 0 && nbest[0] == l[0].index
  {
  }

  lemma MembersOfBest(l: seq<Cand>, all: set<Cand>, n: nat)
    requires Best(l, all, n) && |l| > 0
    ensures l[0] in all
  {
  }

  /** There is room for so many more indices, up to an end fixed beforehand. */
  ghost predicate RoomFor(bits: Bits, p: Params, left: nat, end: nat)
    reads bits
  {
    bits.Position() + left * p.Width() == end && (bits.owner || end / 8 < bits.chars.Length)
  }

  /** Pack one index after those already there. */
  method PackNext(bits: Bits, p: Params, index: nat, ghost before: seq<bool>, ghost ind: seq<nat>,
                  ghost left: nat, ghost end: nat)
    requires p.Valid() && Indexes(p, ind + [index]) && bits.Writing() && left > 0 && RoomFor(bits, p, left, end)
    requires bits.Written() == before + Pack(true, Fields(p, ind))
    modifies bits`chars, bits`nbBits, bits`charPtr, bits`bitPtr, bits.chars
    ensures bits.Writing() && RoomFor(bits, p, left - 1, end)
    ensures bits.Written() == before + Pack(true, Fields(p, ind + [index]))
    ensures bits.chars == old(bits.chars) || (bits.owner && fresh(bits.chars))
  {
    hide Pow2, FieldBits, Pack;
    OneFieldLess(left, p.Width());
    NextField(p, ind + [index], |ind|, before);
    var all := Fields(p, ind + [index]);
    assert all[..|ind|] == Fields(p, ind) && all[..|ind| + 1] == all;
    bits.Pack(index, p.Width());
  }

  /** The scaled shape of one more index. */
  method PutNext(p: Params, index: nat, e: array<int>, i: nat, ghost ind: seq<nat>)
    requires p.Valid() && |ind| == i && Indexes(p, ind) && Indexes(p, ind + [index])
    requires 0 <= i * p.subvect && i * p.subvect + p.subvect <= e.Length
    requires e[..i * p.subvect] == Excitation(p, ind)
    modifies e
    ensures e[..i * p.subvect + p.subvect] == Excitation(p, ind + [index])
  {
    hide Excitation, Shape, Pow2;
    ghost var before, at := e[..], i * p.subvect;
    var rind, negative := index, false;
    if rind >= p.Size() {
      rind, negative := rind - p.Size(), true;
    }
    assert (ind + [index])[..i] == ind && (ind + [index])[..i + 1] == ind + [index];
    assert index == (ind + [index])[i];
    NextShape(p, ind + [index], i);
    PutShape(p, rind, negative, e, i * p.subvect, index);
    Appended(before, e[..], at, at + p.subvect, e.Length);
  }

  method CopyTargetIn(t: array2<int16>, target: array<int16>, ghost s: Search)
    requires s.Valid() && t.Length0 == 1 && t.Length1 == |s.r| <= target.Length && target[..|s.r|] == s.target
    modifies t
    ensures Path(s, []) && TargetRow(t, 0, s, [])
  {
    for m := 0 to t.Length1
      invariant forall b :: 0 <= b < m ==> t[0, b] == target[b]
    {
      t[0, m] := target[m];
    }
    AtTheStart(s);
    assert TargetRow(t, 0, s, []) by {
      forall m | 0 <= m < |s.r| ensures t[0, m] == Residual(s, [], m) {
        assert target[..|s.r|][m] == target[m];
      }
    }
  }

  lemma NothingYet(p: Params, before: seq<bool>)
    requires p.Valid()
    ensures before + Pack(true, Fields(p, [])) == before && Excitation(p, []) == []
  {
  }

  /** What the chosen index leaves. */
  method TakeOut(t: array2<int16>, i: nat, p: Params, r: seq<int16>, resp: array<int16>, index: nat,
                 ghost s: Search, ghost path: seq<nat>)
    requires Path(s, path) && |path| == i < s.p.nb && index < s.p.Indices() && p == s.p && r == s.r
    requires t.Length0 == 1 && t.Length1 == |r| && resp[..] == s.rows && TargetRow(t, 0, s, path)
    modifies t
    ensures Path(s, path + [index]) && TargetRow(t, 0, s, path + [index])
  {
    hide Residual, Pow2, Indexes;
    SegmentFits(s, i);
    var rind, negative := index, false;
    if rind >= p.Size() {
      rind, negative := rind - p.Size(), true;
    }
    RowFits(s.Book(), rind);
    UpdateMatched(t, i * p.subvect, p.subvect, resp, rind * p.subvect, negative);
    TakeShape(t, 0, i * p.subvect + p.subvect, p, r, index, s, path);
  }

  /** The indices chosen so far, and what they leave of the target. */
  ghost predicate Chosen(s: Search, t: array2<int16>, ind: seq<nat>, beams: seq<seq<Survivor>>, i: nat)
    reads t
  {
    && t.Length0 == 1 && t.Length1 == |s.r| && |ind| == i && Path(s, ind) && TargetRow(t, 0, s, ind)
    && Beam(s, 1, false, beams, i) && |beams| == i + 1 && |beams[i]| == 1 && beams[i][0].path == ind
  }

  /** One turn of the loop, but for what is sent and added. */
  method NextChoice(p: Params, t: array2<int16>, r: seq<int16>, resp: array<int16>, energy: array<int>, i: nat,
                    ghost s: Search, ghost ind: seq<nat>, ghost beams: seq<seq<Survivor>>)
    returns (index: nat, ghost more: seq<seq<Survivor>>)
    requires Chosen(s, t, ind, beams, i) && i < p.nb && p == s.p && r == s.r
    requires resp[..] == s.rows && energy[..] == s.energy
    modifies t
    ensures index < p.Indices() && Indexes(p, ind + [index])
    ensures Chosen(s, t, ind + [index], more, i + 1)
  {
    hide Pow2, TargetRow, Step, Beam, Residual;
    SegmentFits(s, i);
    var x := SegmentOf(t, 0, i * p.subvect, p.subvect, s, ind);
    ghost var next;
    index, next := ChooseOne(p, x, resp, energy, s, beams[i][0]);
    PathGrows(s, ind, index);
    TakeOut(t, i, p, r, resp, index, s, ind);
    assert beams[i] == [beams[i][0]];
    BeamGrows(s, 1, false, beams, i, [next]);
    more := beams + [[next]];
  }

  /** The bits sent for the indices so far. */
  ghost predicate Sent(bits: Bits, p: Params, before: seq<bool>, ind: seq<nat>, left: nat, end: nat)
    requires p.Valid()
    reads bits, bits.chars
  {
    && bits.Writing() && RoomFor(bits, p, left, end) && Indexes(p, ind)
    && bits.Written() == before + Pack(true, Fields(p, ind))
  }

  /** The excitation for the indices so far. */
  ghost predicate Put(e: array<int>, p: Params, ind: seq<nat>)
    requires p.Valid() && Indexes(p, ind)
    reads e
  {
    0 <= |ind| * p.subvect <= e.Length && e[..|ind| * p.subvect] == Excitation(p, ind)
  }

  /** split_cb_search_shape_sign_N1, up to the excitation. */
  method SearchOne(p: Params, target: array<int16>, r: seq<int16>, resp: array<int16>, energy: array<int>, bits: Bits,
                   ghost s: Search) returns (ind: seq<nat>, e: array<int>, ghost beams: seq<seq<Survivor>>)
    requires s.Valid() && p == s.p && r == s.r && bits.Writing() && bits.HasRoom(p.nb * p.Width())
    requires |r| <= target.Length && target[..|r|] == s.target && resp[..] == s.rows && energy[..] == s.energy
    modifies bits`chars, bits`nbBits, bits`charPtr, bits`bitPtr, bits.chars
    ensures Beam(s, 1, false, beams, p.nb) && |beams| == p.nb + 1 && |beams[p.nb]| == 1 && beams[p.nb][0].path == ind
    ensures Path(s, ind) && |ind| == p.nb
    ensures fresh(e) && e[..] == Excitation(p, ind)
    ensures bits.Writing() && bits.Written() == old(bits.Written()) + Pack(true, Fields(p, ind))
    ensures bits.chars == old(bits.chars) || (bits.owner && fresh(bits.chars))
  {
    hide Pow2, Beam, Excitation, Pack, Path, Chosen, Sent, Put;
    ghost var before, end := bits.Written(), bits.Position() + p.nb * p.Width();
    var t := new int16[1, |r|];
    e := new int[|r|];
    CopyTargetIn(t, target, s);
    ind, beams := [], [[START]];
    BeginOne(t, e, bits, s, before, end);
    var i := 0;
    while i < p.nb
      invariant 0 <= i <= p.nb && |ind| == i && Chosen(s, t, ind, beams, i) && Indexes(p, ind) && fresh(t) && fresh(e)
      invariant Put(e, p, ind) && Sent(bits, p, before, ind, p.nb - i, end)
      invariant bits.chars == old(bits.chars) || (bits.owner && fresh(bits.chars))
    {
      var index;
      index, beams := NextChoice(p, t, r, resp, energy, i, s, ind, beams);
      SendAndPut(bits, p, index, e, i, before, ind, end);
      ind := ind + [index];
      i := i + 1;
    }
    EndOne(t, e, bits, s, before, ind, beams, end);
  }

  lemma BeginOne(t: array2<int16>, e: array<int>, bits: Bits, s: Search, before: seq<bool>, end: nat)
    requires s.Valid() && t.Length0 == 1 && t.Length1 == |s.r| == e.Length && Path(s, []) && TargetRow(t, 0, s, [])
    requires bits.Writing() && bits.HasRoom(s.p.nb * s.p.Width()) && before == bits.Written()
    requires end == bits.Position() + s.p.nb * s.p.Width()
    ensures Chosen(s, t, [], [[START]], 0) && Put(e, s.p, []) && Sent(bits, s.p, before, [], s.p.nb, end)
  {
    hide Pow2, TargetRow;
    BeamBegins(s, 1, false);
    NothingYet(s.p, before);
  }

  lemma EndOne(t: array2<int16>, e: array<int>, bits: Bits, s: Search, before: seq<bool>, ind: seq<nat>,
               beams: seq<seq<Survivor>>, end: nat)
    requires s.Valid() && Indexes(s.p, ind) && e.Length == |s.r|
    requires Chosen(s, t, ind, beams, s.p.nb) && Put(e, s.p, ind) && Sent(bits, s.p, before, ind, 0, end)
    ensures Beam(s, 1, false, beams, s.p.nb) && |beams| == s.p.nb + 1 && |beams[s.p.nb]| == 1 && beams[s.p.nb][0].path == ind
    ensures Path(s, ind) && |ind| == s.p.nb
    ensures e[..] == Excitation(s.p, ind)
    ensures bits.Writing() && bits.Written() == before + Pack(true, Fields(s.p, ind))
  {
    hide Pow2, TargetRow, Beam, Excitation, Pack;
    assert e[..] == e[..|ind| * s.p.subvect];
  }

  method SendAndPut(bits: Bits, p: Params, index: nat, e: array<int>, i: nat,
                    ghost before: seq<bool>, ghost ind: seq<nat>, ghost end: nat)
    requires p.Valid() && i == |ind| < p.nb && Indexes(p, ind) && Indexes(p, ind + [index])
    requires e.Length == p.nb * p.subvect && Put(e, p, ind)
    requires Sent(bits, p, before, ind, p.nb - i, end)
    modifies e, bits`chars, bits`nbBits, bits`charPtr, bits`bitPtr, bits.chars
    ensures Indexes(p, ind + [index]) && Put(e, p, ind + [index])
    ensures Sent(bits, p, before, ind + [index], p.nb - (i + 1), end)
    ensures bits.chars == old(bits.chars) || (bits.owner && fresh(bits.chars))
  {
    hide Excitation, Pack, Indexes, Pow2, RoomFor;
    RowsFit(i, p.nb, p.subvect);
    PackNext(bits, p, index, before, ind, p.nb - i, end);
    PutNext(p, index, e, i, ind);
    assert (i + 1) * p.subvect == i * p.subvect + p.subvect;
  }

  // ----- From end to end -----

  /** Pack all indices. */
  method PackIndices(bits: Bits, p: Params, ind: seq<nat>)
    requires p.Valid() && bits.Writing() && Indexes(p, ind) && bits.HasRoom(|ind| * p.Width())
    modifies bits`chars, bits`nbBits, bits`charPtr, bits`bitPtr, bits.chars
    ensures bits.Writing() && bits.Written() == old(bits.Written()) + Pack(true, Fields(p, ind))
    ensures bits.chars == old(bits.chars) || (bits.owner && fresh(bits.chars))
  {
    hide Pow2, Pack, Excitation;
    ghost var before, end := bits.Written(), bits.Position() + |ind| * p.Width();
    NothingYet(p, before);
    var i := 0;
    assert ind[..0] == [];
    while i < |ind|
      invariant 0 <= i <= |ind| && bits.Writing() && RoomFor(bits, p, |ind| - i, end)
      invariant bits.Written() == before + Pack(true, Fields(p, ind[..i]))
      invariant bits.chars == old(bits.chars) || (bits.owner && fresh(bits.chars))
    {
      assert ind[..i + 1] == ind[..i] + [ind[i]];
      PackNext(bits, p, ind[i], before, ind[..i], |ind| - i, end);
      i := i + 1;
    }
    assert ind[..i] == ind;
  }

  /** How many survivors a complexity setting buys. */
  function Survivors(complexity: int): (n: nat)
    ensures 1 <= n <= 6
  {
    var c := if complexity > 10 then 10 else complexity;
    if c < 2 then 1 else 2 * c / 3
  }

  /** Two thirds of the complexity, rounded down, of which all above 10 count as 10, and at least one. */
  lemma SurvivorsAre(complexity: int)
    ensures Survivors(complexity) == if complexity <= 2 then 1 else if complexity == 3 then 2 else if complexity == 4 then 2
      else if complexity == 5 then 3 else if complexity <= 7 then 4 else if complexity == 8 then 5 else 6
  {
  }

  /** The scaled shapes of all indices. */
  method PutAll(p: Params, ind: seq<nat>, len: nat) returns (e: array<int>)
    requires p.Valid() && Indexes(p, ind) && len == |ind| * p.subvect
    ensures fresh(e) && e[..] == Excitation(p, ind)
  {
    hide Pow2, Excitation;
    e := new int[len];
    NothingYet(p, []);
    var i := 0;
    assert ind[..0] == [] && e[..0] == [];
    while i < |ind|
      invariant 0 <= i <= |ind| && Put(e, p, ind[..i])
    {
      RowsFit(i, |ind|, p.subvect);
      assert ind[..i + 1] == ind[..i] + [ind[i]];
      PutNext(p, ind[i], e, i, ind[..i]);
      assert (i + 1) * p.subvect == i * p.subvect + p.subvect;
      i := i + 1;
    }
    assert ind[..i] == ind && e[..] == e[..len];
  }

  method AddTo(exc: array<int>, e: array<int>)
    requires exc != e && e.Length <= exc.Length
    modifies exc
    ensures exc[e.Length..] == old(exc[e.Length..])
    ensures forall k :: 0 <= k < e.Length ==> exc[k] == old(exc[k]) + e[k]
  {
    for j := 0 to e.Length
      invariant forall k :: 0 <= k < j ==> exc[k] == old(exc[k]) + e[k]
      invariant forall k :: j <= k < exc.Length ==> exc[k] == old(exc[k])
    {
      exc[j] := exc[j] + e[j];
    }
  }

  /** The excitation as the filters take it. */
  ghost function Rescaled(e: seq<int>): (x: seq<int16>)
    ensures |x| == |e|
  {
    seq<int16>(|e|, j requires 0 <= j < |e| => Wrap16(RoundShift(e[j], 6)))
  }

  ghost function Lessened(target: seq<int16>, y: seq<int16>): (t: seq<int16>)
    requires |target| == |y|
    ensures |t| == |y|
  {
    seq<int16>(|y|, j requires 0 <= j < |y| => Wrap16(target[j] - RoundShift(y[j], 2)))
  }

  /** The target without what the excitation sounds like after the filters. */
  ghost predicate TargetUpdated(w: Weighting, e: seq<int>, before: seq<int16>, after: seq<int16>)
    requires w.Valid()
  {
    exists y :: Filters.Perceived(w.ak, w.awk1, w.awk2, Rescaled(e), y) && |before| == |y| && after == Lessened(before, y)
  }

  /** The excitation is filtered at a 64th of its scale, and a quarter of what comes out is taken from the target, both to
      the nearest, as far as they fit 16 bits. */
  lemma TargetLessResponse(w: Weighting, e: seq<int>, before: seq<int16>, after: seq<int16>)
    requires w.Valid() && TargetUpdated(w, e, before, after)
    ensures |before| == |after| == |e|
    ensures exists x: seq<int16>, y: seq<int16> ::
      && Filters.Perceived(w.ak, w.awk1, w.awk2, x, y) && |x| == |y| == |e|
      && (forall j :: 0 <= j < |e| && -0x8000 * 64 + 32 <= e[j] < 0x8000 * 64 - 32 ==> -32 < 64 * x[j] as int - e[j] <= 32)
      && (forall j :: 0 <= j < |e| && -0x6000 <= before[j] < 0x6000 ==> -2 < 4 * (before[j] as int - after[j]) - y[j] <= 2)
  {
    var y :| Filters.Perceived(w.ak, w.awk1, w.awk2, Rescaled(e), y) && |before| == |y| && after == Lessened(before, y);
    hide TargetUpdated, Filters.Perceived, Rescaled, Lessened;
    var x := Rescaled(e);
    PerceivedLength(w, x, y);
    RescaledIsNearest(e);
    LessenedByNearest(before, y);
  }

  lemma RescaledIsNearest(e: seq<int>)
    ensures |Rescaled(e)| == |e|
    ensures forall j :: 0 <= j < |e| && -0x8000 * 64 + 32 <= e[j] < 0x8000 * 64 - 32 ==>
              -32 < 64 * Rescaled(e)[j] as int - e[j] <= 32
  {
    hide RoundShift;
    forall j | 0 <= j < |e| && -0x8000 * 64 + 32 <= e[j] < 0x8000 * 64 - 32
      ensures -32 < 64 * Rescaled(e)[j] as int - e[j] <= 32
    {
      NearestOf(e[j], 6, 64);
    }
  }

  lemma LessenedByNearest(before: seq<int16>, y: seq<int16>)
    requires |before| == |y|
    ensures |Lessened(before, y)| == |y|
    ensures forall j :: 0 <= j < |y| && -0x6000 <= before[j] < 0x6000 ==>
              -2 < 4 * (before[j] as int - Lessened(before, y)[j]) - y[j] <= 2
  {
    hide RoundShift;
    forall j | 0 <= j < |y| && -0x6000 <= before[j] < 0x6000
      ensures -2 < 4 * (before[j] as int - Lessened(before, y)[j]) - y[j] <= 2
    {
      NearestOf(y[j], 2, 4);
    }
  }

  lemma PerceivedLength(w: Weighting, x: seq<int16>, y: seq<int16>)
    requires w.Valid() && Filters.Perceived(w.ak, w.awk1, w.awk2, x, y)
    ensures |x| == |y|
  {
    hide Filters.Solves;
    var u :| Filters.Solves(Filters.AllPole(w.ak), Filters.Silence(|w.ak|), x, u)
          && Filters.Solves(Filters.Filter(w.awk1, w.awk2), Filters.Silence(|w.ak|), u, y);
    Filters.SolutionLength(Filters.AllPole(w.ak), Filters.Silence(|w.ak|), x, u);
    Filters.SolutionLength(Filters.Filter(w.awk1, w.awk2), Filters.Silence(|w.ak|), u, y);
  }

  lemma NearestOf(a: int, shift: nat, d: int)
    requires (shift == 6 && d == 64) || (shift == 2 && d == 4)
    ensures -d / 2 < d * RoundShift(a, shift) - a <= d / 2
  {
    hide RoundShift;
    assert Pow2(2) == 4 && Pow2(4) == 16 && Pow2(6) == 64;
    RoundShiftIsNearest(a, shift, RoundShift(a, shift));
  }

  datatype Weighting = Weighting(ak: seq<int16>, awk1: seq<int16>, awk2: seq<int16>) {
    ghost predicate Valid() { 0 < |ak| == |awk1| == |awk2| }
  }

  method UpdateTarget(w: Weighting, e: array<int>, target: array<int16>)
    requires w.Valid() && e.Length <= target.Length
    modifies target
    ensures TargetUpdated(w, e[..], old(target[..e.Length]), target[..e.Length])
    ensures target[e.Length..] == old(target[e.Length..])
  {
    hide RoundShift, Wrap16, Filters.Perceived;
    var n := e.Length;
    var r2 := new int16[n];
    for j := 0 to n
      invariant target[..] == old(target[..]) && forall k :: 0 <= k < j ==> r2[k] == Wrap16(RoundShift(e[k], 6))
    {
      r2[j] := Wrap16(RoundShift(e[j], 6));
    }
    assert r2[..n] == Rescaled(e[..]);
    Filters.SynPercepZero16(r2, w.ak, w.awk1, w.awk2, r2, n);
    ghost var before, y := target[..n], r2[..n];
    for j := 0 to n
      invariant r2[..n] == y && forall k :: 0 <= k < j ==> target[k] == Wrap16(before[k] - RoundShift(y[k], 2))
      invariant forall k :: j <= k < target.Length ==> target[k] == old(target[k])
    {
      target[j] := Wrap16(target[j] - RoundShift(r2[j], 2));
    }
    assert target[..n] == Lessened(before, y);
  }

  /** split_cb_search_shape_sign: the best path is found, its indices are sent, and what it stands for is added to the
      excitation. */
  method SearchShapeSign(p: Params, target: array<int16>, r: seq<int16>, exc: array<int>, bits: Bits, complexity: int,
                         w: Weighting, update: bool, ghost s: Search)
    returns (e: array<int>, ind: seq<nat>, ghost beams: seq<seq<Survivor>>)
    requires p.Valid() && p.nb > 0 && p.subvect <= |r| == p.nb * p.subvect <= target.Length && |r| <= exc.Length
    requires s == SearchFor(p, target[..|r|], r)
    requires Survivors(complexity) <= p.Size() && bits.Writing() && bits.HasRoom(p.nb * p.Width())
    requires w.Valid()
    modifies exc, target, bits`chars, bits`nbBits, bits`charPtr, bits`bitPtr, bits.chars
    ensures update ==> TargetUpdated(w, e[..], old(target[..|r|]), target[..|r|])
    ensures target[|r|..] == old(target[|r|..]) && (!update ==> target[..] == old(target[..]))
    ensures Beam(s, Survivors(complexity), Survivors(complexity) > 1, beams, p.nb) && |beams| == p.nb + 1
    ensures |beams[p.nb]| > 0 && ind == beams[p.nb][0].path && Path(s, ind) && |ind| == p.nb
    ensures fresh(e) && e[..] == Excitation(p, ind)
    ensures exc[|r|..] == old(exc[|r|..])
    ensures forall k :: 0 <= k < |r| ==> exc[k] == old(exc[k]) + e[k]
    ensures bits.Writing() && bits.Written() == old(bits.Written()) + Pack(true, Fields(p, ind))
    ensures bits.chars == old(bits.chars) || (bits.owner && fresh(bits.chars))
  {
    hide Pow2, Weighted, Excitation, Pack, Beam, TargetUpdated, Rows, RowSquares;
    var n := Survivors(complexity);
    SearchForIsWeighted(p, target[..|r|], r);
    WeightedIsValid(s);
    var resp, energy := WeightedCodebook(p, r, s);
    if n == 1 {
      ind, e, beams := SearchOne(p, target, r, resp, energy, bits, s);
    } else {
      ind, beams := SearchNBest(p, target, r, resp, energy, n, s);
      PackIndices(bits, p, ind);
      e := PutAll(p, ind, |r|);
    }
    AddTo(exc, e);
    if update {
      UpdateTarget(w, e, target);
    }
  }

  /** Decode from octets in which the fields of some indices stand at a position. */
  method Decode(p: Params, input: seq<byte>, start: nat, ghost before: seq<bool>, ghost ind: seq<nat>, exc: array<int>,
                ghost tail: seq<bool>) returns (at: nat)
    requires p.Valid() && Indexes(p, ind) && |ind| == p.nb && p.nb * p.subvect == exc.Length && start == |before|
    requires StreamBits(true, input) == before + (Pack(true, Fields(p, ind)) + tail)
    modifies exc
    ensures exc[..] == Excitation(p, ind) && at == start + p.nb * p.Width()
  {
    hide Pow2, Excitation, Pack, ReadIndices, StreamBits, Fields;
    var b := new Bits();
    b.ReadFrom(input);
    assert input[..|input|] == input;
    b.Advance(start);
    IndicesComeBack(p, StreamBits(true, input), before, ind, tail, p.nb);
    assert ind[..p.nb] == ind;
    LengthSent(p, ind);
    Unquant(exc, p, b);
    assert exc[..] == exc[..p.nb * p.subvect];
    at := 8 * b.charPtr + b.bitPtr;
  }

  lemma {:induction false} LengthSent(p: Params, ind: seq<nat>)
    ensures |Pack(true, Fields(p, ind))| == |ind| * p.Width() && Fields(p, ind)[..|ind|] == Fields(p, ind)
    decreases |ind|
  {
    if ind != [] {
      var n := |ind| - 1;
      LengthSent(p, ind[..n]);
      assert Fields(p, ind)[..n] == Fields(p, ind[..n]);
      OneFieldLess(|ind|, p.Width());
    }
  }

  lemma WeightedIsValid(s: Search)
    requires Weighted(s)
    ensures s.Valid()
  {
    hide EntryWeighted, Pow2;
  }

  /** The encoder adds exactly what the decoder puts down, sample for sample, when it reads the octets from where the
      indices were sent; it takes exactly the bits that were sent. Anything may stand before them and after them. */
  method EncodeDecode(p: Params, target: array<int16>, r: seq<int16>, exc: array<int>, complexity: int,
                      weighting: Weighting, update: bool, bits: Bits, more: seq<Field>, ghost s: Search)
    returns (decoded: array<int>, at: nat)
    requires p.Valid() && p.nb > 0 && p.subvect <= |r| == p.nb * p.subvect <= target.Length && |r| <= exc.Length
    requires s == SearchFor(p, target[..|r|], r) && Survivors(complexity) <= p.Size()
    requires weighting.Valid() && bits.Writing() && bits.owner && Packable(more)
    modifies exc, target, bits, bits.chars
    ensures decoded.Length == |r| && exc[|r|..] == old(exc[|r|..])
    ensures forall k :: 0 <= k < |r| ==> exc[k] == old(exc[k]) + decoded[k]
    ensures at == old(bits.Position()) + p.nb * p.Width()
  {
    hide Pow2, Weighted, Excitation, Pack, Beam, TargetUpdated, ReadIndices, FieldBits, Value, StreamBits, Fields;
    var start := 8 * bits.charPtr + bits.bitPtr;
    ghost var before := bits.Written();
    var e, ind, beams := SearchShapeSign(p, target, r, exc, bits, complexity, weighting, update, s);
    PackFields(bits, more);
    ghost var written := bits.Written();
    var out := WriteAll(bits);
    decoded := new int[|r|];
    ghost var sent, rest, end := Pack(true, Fields(p, ind)), Pack(true, more), Terminator(|written| % 8);
    Seqs.ConcatAssociates(before, sent, rest);
    Seqs.ConcatAssociates(before, sent + rest, end);
    Seqs.ConcatAssociates(sent, rest, end);
    at := Decode(p, out, start, before, ind, decoded, rest + end);
  }
}
