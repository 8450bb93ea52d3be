/** CbShape: a split codebook of shapes with optional signs, and the decoder that turns indices into an excitation. */
module CbShape {
  import opened BitOps
  import Seqs
  import opened BitStreams
  import FixedPoint
  import SpeexBits

  /** split_cb_params. The shape table is signed 8-bit, one row of subvect samples for each of the 2^bits shapes. */
  datatype Params = Params(subvect: nat, nb: nat, shape: seq<FixedPoint.int16>, bits: nat, signed: bool) {
    ghost predicate Valid() {
      && subvect > 0 && bits <= 30 && |shape| == Pow2(bits) * subvect
      && forall i :: 0 <= i < |shape| ==> -128 <= shape[i] < 128
    }

    function Size(): nat { Pow2(bits) }

    /** Bits sent for a subvector. */
    function Width(): nat { bits + if signed then 1 else 0 }

    /** How many indices there are: those from Size on mean the negative of a shape. */
    function Indices(): nat { if signed then 2 * Size() else Size() }

    function Row(index: nat): nat { if index >= Size() then index - Size() else index }

    function Sign(index: nat): int { if index >= Size() then -1 else 1 }
  }

  lemma ShapeFits(p: Params, index: nat)
    requires p.Valid() && index < p.Indices()
    ensures p.Row(index) < p.Size() && 0 <= p.Row(index) * p.subvect
    ensures p.Row(index) * p.subvect + p.subvect <= |p.shape|
  {
    hide Pow2;
    RowsFit(p.Row(index), p.Size(), p.subvect);
  }

  lemma RowsFit(row: nat, rows: nat, len: nat)
    requires row < rows
    ensures 0 <= row * len <= row * len + len <= rows * len
  {
    assert (row + 1) * len <= rows * len;
  }

  /** Sample m of the shape an index stands for, with its sign. */
  function Gain(p: Params, index: nat, m: nat): (g: FixedPoint.int16)
    requires p.Valid() && index < p.Indices() && m < p.subvect
    ensures -128 <= g <= 128
  {
    ShapeFits(p, index);
    p.Sign(index) * p.shape[p.Row(index) * p.subvect + m]
  }

  /** SIG_SHIFT - 5 bits up: the scale of the excitation. */
  const SCALE := 512

  ghost function Shape(p: Params, index: nat): (e: seq<int>)
    requires p.Valid() && index < p.Indices()
    ensures |e| == p.subvect
  {
    seq(p.subvect, m requires 0 <= m < p.subvect => SCALE * Gain(p, index, m))
  }

  ghost predicate Indexes(p: Params, inds: seq<nat>) {
    forall i :: 0 <= i < |inds| ==> inds[i] < p.Indices()
  }

  /** What a list of indices stands for. */
  ghost function Excitation(p: Params, inds: seq<nat>): (e: seq<int>)
    requires p.Valid() && Indexes(p, inds)
    ensures |e| == |inds| * p.subvect
    decreases |inds|
  {
    if inds == [] then []
    else
      var n := |inds| - 1;
      assert |inds| * p.subvect == n * p.subvect + p.subvect;
      Excitation(p, inds[..n]) + Shape(p, inds[n])
  }

  /** An index below the codebook size stands for its row of the table, scaled, and one from the size on for the negative
      of the row of the index less the size. */
  lemma ShapesAreRows(p: Params, index: nat, m: nat)
    requires p.Valid() && index < p.Size() && m < p.subvect
    ensures 0 <= index * p.subvect && index * p.subvect + m < |p.shape|
    ensures Shape(p, index)[m] == 512 * (p.shape[index * p.subvect + m] as int)
    ensures p.signed ==> Shape(p, index + p.Size())[m] == -512 * (p.shape[index * p.subvect + m] as int)
  {
    hide Pow2;
    ShapeFits(p, index);
    if p.signed {
      ShapeFits(p, index + p.Size());
    }
  }

  lemma SignedRow(p: Params, negative: bool, row: nat, m: nat)
    requires p.Valid() && row < p.Size() && m < p.subvect && (negative ==> p.signed)
    ensures 0 <= row * p.subvect && row * p.subvect + m < |p.shape|
    ensures var index := (if negative then p.Size() else 0) + row;
            index < p.Indices()
            && Shape(p, index)[m] == (if negative then -512 else 512) * (p.shape[row * p.subvect + m] as int)
  {
    hide Shape;
    ShapesAreRows(p, row, m);
  }

  /** Subvector i of an excitation is the shape of index i. */
  lemma {:induction false} ExcitationAt(p: Params, inds: seq<nat>, i: nat, m: nat)
    requires p.Valid() && Indexes(p, inds) && i < |inds| && m < p.subvect
    ensures 0 <= i * p.subvect && i * p.subvect + m < |inds| * p.subvect
    ensures Excitation(p, inds)[i * p.subvect + m] == Shape(p, inds[i])[m]
    decreases |inds|
  {
    hide Shape;
    var n := |inds| - 1;
    RowsFit(i, |inds|, p.subvect);
    if i < n {
      ExcitationAt(p, inds[..n], i, m);
    }
  }

  // ----- Reading indices -----

  /** Where the reading of a stream has come to. */
  datatype Reader = Reader(at: nat, over: bool)

  ghost function Read(stored: seq<bool>, r: Reader, n: nat): (nat, Reader) {
    if r.over || r.at + n > |stored| then (0, Reader(r.at, true))
    else (Value(true, stored[r.at..r.at + n]), Reader(r.at + n, false))
  }

  /** The leading sign bit, where there is one, and the shape. */
  ghost function ReadIndex(p: Params, stored: seq<bool>, r: Reader): (nat, Reader) {
    if p.signed then
      var (s, r1) := Read(stored, r, 1);
      var (v, r2) := Read(stored, r1, p.bits);
      ((if s > 0 then p.Size() else 0) + v, r2)
    else Read(stored, r, p.bits)
  }

  ghost function ReadIndices(p: Params, stored: seq<bool>, r: Reader, n: nat): (i: (seq<nat>, Reader))
    ensures |i.0| == n
  {
    if n == 0 then ([], r)
    else
      var (inds, r1) := ReadIndices(p, stored, r, n - 1);
      var (v, r2) := ReadIndex(p, stored, r1);
      (inds + [v], r2)
  }

  lemma {:induction false} WhatIsRead(p: Params, stored: seq<bool>, r: Reader, n: nat)
    ensures Indexes(p, ReadIndices(p, stored, r, n).0)
  {
    if n > 0 {
      WhatIsRead(p, stored, r, n - 1);
      hide ReadIndices, ReadIndex;
      OneMoreIndex(p, stored, r, n);
      IndexIsValid(p, stored, ReadIndices(p, stored, r, n - 1).1);
    }
  }

  lemma OneMoreIndex(p: Params, stored: seq<bool>, r: Reader, n: nat)
    requires n > 0
    ensures var a, v := ReadIndices(p, stored, r, n - 1), ReadIndex(p, stored, ReadIndices(p, stored, r, n - 1).1);
            ReadIndices(p, stored, r, n) == (a.0 + [v.0], v.1)
  {
  }

  lemma IndexIsValid(p: Params, stored: seq<bool>, r: Reader)
    ensures ReadIndex(p, stored, r).0 < p.Indices()
  {
    hide Value;
  }

  /** Where the reading of n indices comes to. */
  lemma {:induction false} ReaderAfter(p: Params, stored: seq<bool>, r: Reader, n: nat)
    ensures var q, w := ReadIndices(p, stored, r, n).1, p.bits + if p.signed then 1 else 0;
            && (q.over <==> r.over || (n > 0 && r.at + n * w > |stored|))
            && (!q.over ==> q.at == r.at + n * w)
  {
    hide Value;
    if n > 0 {
      ReaderAfter(p, stored, r, n - 1);
      var w := p.bits + if p.signed then 1 else 0;
      assert n * w == (n - 1) * w + w;
    }
  }

  /** Index i: the sign bit, where there is one, and the bits after it; nothing that is not all there. */
  lemma {:induction false} IndexAt(p: Params, stored: seq<bool>, r: Reader, n: nat, i: nat)
    requires i < n
    ensures var w := p.bits + if p.signed then 1 else 0;
            var start := r.at + i * w;
            ReadIndices(p, stored, r, n).0[i] ==
            (if p.signed && !r.over && start < |stored| && stored[start] then p.Size() else 0) +
            (if r.over || start + w > |stored| then 0 else Value(true, stored[start + w - p.bits..start + w]))
    decreases n
  {
    hide Value, Pow2, ReadIndices, ReadIndex;
    OneMoreIndex(p, stored, r, n);
    if i < n - 1 {
      IndexAt(p, stored, r, n - 1, i);
    } else {
      NextIndexAt(p, stored, r, i);
    }
  }

  lemma NextIndexAt(p: Params, stored: seq<bool>, r: Reader, i: nat)
    ensures var w := p.bits + if p.signed then 1 else 0;
            var start := r.at + i * w;
            ReadIndex(p, stored, ReadIndices(p, stored, r, i).1).0 ==
            (if p.signed && !r.over && start < |stored| && stored[start] then p.Size() else 0) +
            (if r.over || start + w > |stored| then 0 else Value(true, stored[start + w - p.bits..start + w]))
  {
    hide Value, Pow2, ReadIndices;
    var w := p.bits + if p.signed then 1 else 0;
    var start, q := r.at + i * w, ReadIndices(p, stored, r, i).1;
    ReaderAfter(p, stored, r, i);
    assert i > 0 || start == r.at;
    if q.over {
      assert r.over || start > |stored|;
    } else if p.signed {
      SignedAt(p, stored, start);
    }
  }

  lemma SignedAt(p: Params, stored: seq<bool>, start: nat)
    requires p.signed
    ensures ReadIndex(p, stored, Reader(start, false)).0 ==
            (if start < |stored| && stored[start] then p.Size() else 0) +
            (if start + 1 + p.bits > |stored| then 0 else Value(true, stored[start + 1..start + 1 + p.bits]))
  {
    hide Value, Pow2;
    if start < |stored| {
      assert stored[start..start + 1] == [stored[start]];
      SignBitIs(stored[start]);
    }
  }

  /** Every sample that is decoded, in the bits of the stream and the table: the `w` bits of subvector i begin at `start`,
      and spell the sign, where there is one, and the row. Bits that are not all there count as zero. */
  lemma DecodedSample(p: Params, stored: seq<bool>, r: Reader, n: nat, i: nat, m: nat, w: nat, start: nat, row: nat)
    requires p.Valid() && i < n && m < p.subvect
    requires w == (if p.signed then p.bits + 1 else p.bits) && start == r.at + i * w
    requires row == if r.over || start + w > |stored| then 0 else Value(true, stored[start + w - p.bits..start + w])
    ensures Indexes(p, ReadIndices(p, stored, r, n).0) && 0 <= i * p.subvect && i * p.subvect + m < n * p.subvect
    ensures 0 <= row * p.subvect && row * p.subvect + m < |p.shape|
    ensures Excitation(p, ReadIndices(p, stored, r, n).0)[i * p.subvect + m] ==
            (if p.signed && !r.over && start < |stored| && stored[start] then -512 else 512)
            * (p.shape[row * p.subvect + m] as int)
  {
    hide Value, Shape, Excitation, ReadIndices;
    WhatIsRead(p, stored, r, n);
    IndexAt(p, stored, r, n, i);
    ExcitationAt(p, ReadIndices(p, stored, r, n).0, i, m);
    SignedRow(p, p.signed && !r.over && start < |stored| && stored[start], row, m);
  }

  /** The fields a list of indices is sent as. */
  function Fields(p: Params, inds: seq<nat>): (f: seq<Field>)
    ensures |f| == |inds|
  {
    seq(|inds|, i requires 0 <= i < |inds| => Field(inds[i], p.Width()))
  }

  /** An index is its leading sign bit and its shape. */
  lemma IndexComesBack(p: Params, stored: seq<bool>, at: nat, index: nat)
    requires p.Valid() && index < p.Indices() && at + p.Width() <= |stored|
    requires stored[at..at + p.Width()] == FieldBits(true, index, p.Width())
    ensures ReadIndex(p, stored, Reader(at, false)) == (index, Reader(at + p.Width(), false))
  {
    hide Value, FieldBits, Pow2, Low;
    DoubleOf(p.bits);
    ValueOfField(true, index, p.Width());
    LowOfSmall(index, p.Width());
    if p.signed {
      SignAndShape(stored, at, p.bits);
    }
  }

  lemma DoubleOf(k: nat)
    ensures Pow2(k + 1) == 2 * Pow2(k)
  {
  }

  lemma SignAndShape(stored: seq<bool>, at: nat, bits: nat)
    requires at + 1 + bits <= |stored|
    ensures Value(true, stored[at..at + bits + 1]) ==
            (if Value(true, stored[at..at + 1]) > 0 then Pow2(bits) else 0) + Value(true, stored[at + 1..at + 1 + bits])
  {
    hide Value, Pow2;
    Seqs.JoinSlices(stored, at, at + 1, at + 1 + bits);
    assert stored[at..at + 1] == [stored[at]];
    SignBitIs(stored[at]);
    SignThenShape(stored[at], stored[at + 1..at + 1 + bits]);
  }

  lemma SignThenShape(sign: bool, shape: seq<bool>)
    ensures Value(true, [sign] + shape) == (if sign then Pow2(|shape|) else 0) + Value(true, shape)
  {
    hide Value, Pow2;
    ValueOfConcat(true, [sign], shape);
    SignBitIs(sign);
    var p := Pow2(|shape|);
    assert 1 * p == p && 0 * p == 0;
  }

  lemma SignBitIs(b: bool)
    ensures Value(true, [b]) == if b then 1 else 0
  {
    OneBit(true, b);
  }

  /** What the encoder packs, the decoder reads, wherever in a stream it stands. */
  lemma {:induction false} IndicesComeBack(p: Params, stored: seq<bool>, before: seq<bool>, inds: seq<nat>,
                                           tail: seq<bool>, n: nat)
    requires p.Valid() && Indexes(p, inds) && n <= |inds|
    requires stored == before + (Pack(true, Fields(p, inds)) + tail)
    ensures ReadIndices(p, stored, Reader(|before|, false), n) ==
            (inds[..n], Reader(|before| + |Pack(true, Fields(p, inds)[..n])|, false))
  {
    hide *;
    if n > 0 {
      IndicesComeBack(p, stored, before, inds, tail, n - 1);
      LastIndexComesBack(p, stored, before, inds, tail, n - 1);
    } else {
      NothingPacked(p, stored, before, inds);
    }
  }

  lemma LastIndexComesBack(p: Params, stored: seq<bool>, before: seq<bool>, inds: seq<nat>,
                                           tail: seq<bool>, n: nat)
    requires p.Valid() && Indexes(p, inds) && n < |inds|
    requires stored == before + (Pack(true, Fields(p, inds)) + tail)
    requires ReadIndices(p, stored, Reader(|before|, false), n) ==
             (inds[..n], Reader(|before| + |Pack(true, Fields(p, inds)[..n])|, false))
    ensures ReadIndices(p, stored, Reader(|before|, false), n + 1) ==
            (inds[..n + 1], Reader(|before| + |Pack(true, Fields(p, inds)[..n + 1])|, false))
  {
    hide Pack, ReadIndices, ReadIndex, FieldBits, Fields;
    FieldStands(p, stored, before, inds, tail, n);
    var at := |before| + |Pack(true, Fields(p, inds)[..n])|;
    OneMoreIndex(p, stored, Reader(|before|, false), n + 1);
    IndexComesBack(p, stored, at, inds[n]);
    assert inds[..n + 1] == inds[..n] + [inds[n]];
  }

  lemma FieldStands(p: Params, stored: seq<bool>, before: seq<bool>, inds: seq<nat>,
                                           tail: seq<bool>, n: nat)
    requires n < |inds| && stored == before + (Pack(true, Fields(p, inds)) + tail)
    ensures var at := |before| + |Pack(true, Fields(p, inds)[..n])|;
            && at + p.Width() <= |stored| && stored[at..at + p.Width()] == FieldBits(true, inds[n], p.Width())
            && |before| + |Pack(true, Fields(p, inds)[..n + 1])| == at + p.Width()
  {
    hide Pack, FieldBits;
    var fields := Fields(p, inds);
    var at := |Pack(true, fields[..n])|;
    FieldInPack(true, fields, n, tail);
    Seqs.SliceInSecond(before, Pack(true, fields) + tail, at, at + p.Width());
  }

  lemma NothingPacked(p: Params, stored: seq<bool>, before: seq<bool>, inds: seq<nat>)
    ensures ReadIndices(p, stored, Reader(|before|, false), 0) ==
            (inds[..0], Reader(|before| + |Pack(true, Fields(p, inds)[..0])|, false))
  {
  }

  // ----- The decoder -----

  /** Where a reader stands. */
  ghost function Standing(bits: SpeexBits.Bits): Reader
    reads bits
  {
    Reader(bits.Position(), bits.overflow)
  }

  method TakeField(bits: SpeexBits.Bits, n: nat) returns (v: nat)
    requires bits.Reading() && n <= 32
    modifies bits`charPtr, bits`bitPtr, bits`overflow
    ensures bits.Reading() && bits.Stored() == old(bits.Stored())
    ensures (v, Standing(bits)) == Read(old(bits.Stored()), old(Standing(bits)), n) && v < Pow2(n)
  {
    hide Value, Pow2;
    v := bits.UnpackUnsigned(n);
  }

  /** The first loop of split_cb_shape_sign_unquant. */
  method TakeIndices(p: Params, bits: SpeexBits.Bits) returns (signs: seq<nat>, ind: seq<nat>)
    requires p.Valid() && bits.Reading()
    modifies bits`charPtr, bits`bitPtr, bits`overflow
    ensures bits.Reading() && |signs| == |ind| == p.nb
    ensures var inds := ReadIndices(p, old(bits.Stored()), old(Standing(bits)), p.nb);
            && Standing(bits) == inds.1
            && forall i :: 0 <= i < p.nb ==> inds.0[i] == (if signs[i] > 0 then p.Size() else 0) + ind[i] && ind[i] < p.Size()
  {
    hide Value, Read, ReadIndices;
    signs, ind := [], [];
    ghost var stored, start := bits.Stored(), Standing(bits);
    var i := 0;
    NoIndices(p, stored, start);
    while i < p.nb
      invariant 0 <= i <= p.nb && |signs| == |ind| == i && bits.Reading() && bits.Stored() == stored
      invariant Standing(bits) == ReadIndices(p, stored, start, i).1 && |ReadIndices(p, stored, start, i).0| == i
      invariant forall k :: 0 <= k < i ==>
        ReadIndices(p, stored, start, i).0[k] == (if signs[k] > 0 then p.Size() else 0) + ind[k] && ind[k] < p.Size()
    {
      OneMoreIndex(p, stored, start, i + 1);
      var s := 0;
      if p.signed {
        s := TakeField(bits, 1);
      }
      var v := TakeField(bits, p.bits);
      signs, ind := signs + [s], ind + [v];
      i := i + 1;
    }
  }

  lemma NoIndices(p: Params, stored: seq<bool>, r: Reader)
    ensures ReadIndices(p, stored, r, 0) == ([], r)
  {
  }

  lemma NextShape(p: Params, inds: seq<nat>, i: nat)
    requires p.Valid() && Indexes(p, inds) && i < |inds|
    ensures i * p.subvect + p.subvect <= |inds| * p.subvect
    ensures Excitation(p, inds[..i + 1]) == Excitation(p, inds[..i]) + Shape(p, inds[i])
  {
    RowsFit(i, |inds|, p.subvect);
    assert inds[..i + 1][..i] == inds[..i];
  }

  /** The scaled samples of one shape, or their negatives. */
  method PutShape(p: Params, rind: nat, negative: bool, e: array<int>, at: nat, ghost index: nat)
    requires p.Valid() && index < p.Indices() && at + p.subvect <= e.Length
    requires rind == p.Row(index) && negative == (p.Sign(index) == -1)
    modifies e
    ensures e[..at] == old(e[..at]) && e[at..at + p.subvect] == Shape(p, index)
    ensures e[at + p.subvect..] == old(e[at + p.subvect..])
  {
    hide Pow2;
    ShapeFits(p, index);
    if !negative {
      for j := 0 to p.subvect
        invariant forall m :: 0 <= m < j ==> e[at + m] == SCALE * Gain(p, index, m)
        invariant e[..at] == old(e[..at]) && e[at + p.subvect..] == old(e[at + p.subvect..])
      {
        e[at + j] := p.shape[rind * p.subvect + j] as int * SCALE;
      }
    } else {
      for j := 0 to p.subvect
        invariant forall m :: 0 <= m < j ==> e[at + m] == SCALE * Gain(p, index, m)
        invariant e[..at] == old(e[..at]) && e[at + p.subvect..] == old(e[at + p.subvect..])
      {
        e[at + j] := -(p.shape[rind * p.subvect + j] as int * SCALE);
      }
    }
  }

  /** split_cb_shape_sign_unquant, fixed-point: whatever the stream holds, and also when it runs out. */
  method Unquant(exc: array<int>, p: Params, bits: SpeexBits.Bits)
    requires p.Valid() && bits.Reading() && p.nb * p.subvect <= exc.Length
    modifies exc, bits`charPtr, bits`bitPtr, bits`overflow
    ensures bits.Reading()
    ensures var received := ReadIndices(p, old(bits.Stored()), old(Standing(bits)), p.nb);
            && Indexes(p, received.0)
            && exc[..p.nb * p.subvect] == Excitation(p, received.0)
            && Standing(bits) == received.1
    ensures exc[p.nb * p.subvect..] == old(exc[p.nb * p.subvect..])
  {
    hide ReadIndices, Excitation, Shape;
    ghost var inds := ReadIndices(p, bits.Stored(), Standing(bits), p.nb).0;
    WhatIsRead(p, bits.Stored(), Standing(bits), p.nb);
    var signs, ind := TakeIndices(p, bits);
    PutShapes(p, signs, ind, exc, inds);
  }

  /** The second loop of split_cb_shape_sign_unquant. */
  method PutShapes(p: Params, signs: seq<nat>, ind: seq<nat>, e: array<int>, ghost inds: seq<nat>)
    requires p.Valid() && |signs| == |ind| == |inds| && Indexes(p, inds) && |inds| * p.subvect <= e.Length
    requires forall i :: 0 <= i < |inds| ==> inds[i] == (if signs[i] > 0 then p.Size() else 0) + ind[i] && ind[i] < p.Size()
    modifies e
    ensures e[..|inds| * p.subvect] == Excitation(p, inds)
    ensures e[|inds| * p.subvect..] == old(e[|inds| * p.subvect..])
  {
    hide Excitation, Shape, Pow2;
    ghost var end := |inds| * p.subvect;
    var i := 0;
    NoShapes(p, inds);
    while i < |ind|
      invariant 0 <= i <= |ind| && 0 <= i * p.subvect <= end
      invariant e[..i * p.subvect] == Excitation(p, inds[..i]) && e[end..] == old(e[end..])
    {
      var at := i * p.subvect;
      NextShape(p, inds, i);
      ghost var before := e[..];
      PutShape(p, ind[i], signs[i] > 0, e, at, inds[i]);
      Appended(before, e[..], at, at + p.subvect, end);
      i := i + 1;
    }
    assert inds[..|inds|] == inds;
  }

  lemma NoShapes(p: Params, inds: seq<nat>)
    requires p.Valid() && Indexes(p, inds)
    ensures Excitation(p, inds[..0]) == []
  {
  }

  lemma Appended(before: seq<int>, after: seq<int>, i: nat, j: nat, end: nat)
    requires |before| == |after| && i <= j <= end <= |after| && after[..i] == before[..i] && after[j..] == before[j..]
    ensures after[..j] == before[..i] + after[i..j] && after[end..] == before[end..]
  {
    assert after[end..] == after[j..][end - j..];
    assert before[end..] == before[j..][end - j..];
    Seqs.TwoParts(after[..j], i);
  }
}
