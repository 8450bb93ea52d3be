/** Sequences of bits: how octets hold them, and how fields of up to 32 bits become them, in both bit orders. */
module BitStreams {
  import opened Bytes
  import opened BitOps
  import Seqs

  /** Bit i of a packed stream: least significant bit of an octet first, or most significant first. */
  function StreamBit(msb: bool, data: seq<byte>, i: nat): bool
    requires i < 8 * |data|
  {
    Bit(data[i / 8], if msb then 7 - i % 8 else i % 8)
  }

  function StreamBits(msb: bool, data: seq<byte>): (bits: seq<bool>)
    ensures |bits| == 8 * |data|
  {
    seq(8 * |data|, i requires 0 <= i < 8 * |data| => StreamBit(msb, data, i))
  }

  /** The n low bits of a value, in stream order. */
  function FieldBits(msb: bool, value: nat, n: nat): (bits: seq<bool>)
    ensures |bits| == n
  {
    seq(n, i requires 0 <= i < n => Bit(value, if msb then n - 1 - i else i))
  }

  /** The value a run of stream bits spells. */
  function Value(msb: bool, bits: seq<bool>): (v: nat)
    ensures v < Pow2(|bits|)
    decreases |bits|
  {
    if bits == [] then 0
    else if msb then 2 * Value(msb, bits[..|bits| - 1]) + (if bits[|bits| - 1] then 1 else 0)
    else (if bits[0] then 1 else 0) + 2 * Value(msb, bits[1..])
  }

  /** Where bit i of a stream stands: in octet i / 8, at its lowest weight first, or at its highest. */
  lemma StreamBitIs(msb: bool, data: seq<byte>, i: nat)
    requires i < 8 * |data|
    ensures StreamBits(msb, data)[i] <==> data[i / 8] / Pow2(if msb then 7 - i % 8 else i % 8) % 2 == 1
  {
    BitIs(data[i / 8], if msb then 7 - i % 8 else i % 8);
  }

  lemma {:induction false} BitIs(x: nat, i: nat)
    ensures Bit(x, i) <==> x / Pow2(i) % 2 == 1
    decreases i
  {
    if i > 0 {
      BitIs(x / 2, i - 1);
      DivideTwice(x, 2, Pow2(i - 1));
    }
  }

  lemma {:induction false} BitOfValue(msb: bool, bits: seq<bool>, i: nat)
    requires i < |bits|
    ensures Bit(Value(msb, bits), i) == bits[if msb then |bits| - 1 - i else i]
    decreases |bits|
  {
    if i > 0 {
      BitOfValue(msb, if msb then bits[..|bits| - 1] else bits[1..], i - 1);
    }
  }

  /** A number whose low bits are the given ones, and that has no others, is their value. */
  lemma ValueIs(msb: bool, bits: seq<bool>, v: nat)
    requires v < Pow2(|bits|) && forall i :: 0 <= i < |bits| ==> Bit(v, i) == bits[if msb then |bits| - 1 - i else i]
    ensures v == Value(msb, bits)
  {
    forall i | 0 <= i < |bits| ensures Bit(v, i) == Bit(Value(msb, bits), i) {
      BitOfValue(msb, bits, i);
    }
    SameBits(v, Value(msb, bits), |bits|);
  }

  /** Packing a field and reading it back gives the field masked to its width. */
  lemma ValueOfField(msb: bool, value: nat, n: nat)
    ensures Value(msb, FieldBits(msb, value, n)) == Low(value, n)
  {
    forall i | 0 <= i < n ensures Bit(Low(value, n), i) == FieldBits(msb, value, n)[if msb then n - 1 - i else i] {
      BitOfLow(value, n, i);
    }
    ValueIs(msb, FieldBits(msb, value, n), Low(value, n));
  }

  /** A long field is a short one and the rest: the first bits are the low ones, or the high ones. */
  lemma ValueOfConcat(msb: bool, a: seq<bool>, b: seq<bool>)
    ensures Value(msb, a + b) ==
            if msb then Value(msb, a) * Pow2(|b|) + Value(msb, b) else Value(msb, a) + Pow2(|a|) * Value(msb, b)
  {
    if msb {
      HighThenLow(a, b);
    } else {
      LowThenHigh(a, b);
    }
  }

  lemma {:induction false} HighThenLow(a: seq<bool>, b: seq<bool>)
    ensures Value(true, a + b) == Value(true, a) * Pow2(|b|) + Value(true, b)
    decreases |b|
  {
    if b == [] {
      assert a + b == a;
    } else {
      HighThenLow(a, b[..|b| - 1]);
      assert (a + b)[..|a + b| - 1] == a + b[..|b| - 1];
      Doubled(Value(true, a), Pow2(|b| - 1));
    }
  }

  lemma {:induction false} LowThenHigh(a: seq<bool>, b: seq<bool>)
    ensures Value(false, a + b) == Value(false, a) + Pow2(|a|) * Value(false, b)
    decreases |a|
  {
    if a == [] {
      assert a + b == b;
    } else {
      LowThenHigh(a[1..], b);
      assert (a + b)[1..] == a[1..] + b;
      Doubled(Value(false, b), Pow2(|a| - 1));
    }
  }

  lemma Doubled(x: nat, p: nat)
    ensures 2 * (x * p) == x * (2 * p) && 2 * (p * x) == 2 * p * x
  {
  }

  lemma OneBit(msb: bool, bit: bool)
    ensures Value(msb, [bit]) == (if bit then 1 else 0) && Pow2(1) == 2
  {
  }

  /** Octets are told apart by their bits. */
  lemma SameStream(msb: bool, a: seq<byte>, b: seq<byte>)
    requires StreamBits(msb, a) == StreamBits(msb, b)
    ensures a == b
  {
    hide Bit;
    assert |StreamBits(msb, a)| == |StreamBits(msb, b)|;
    forall k | 0 <= k < |a| ensures a[k] == b[k] {
      forall i | 0 <= i < 8 ensures Bit(a[k], i) == Bit(b[k], i) {
        var at := 8 * k + if msb then 7 - i else i;
        assert StreamBits(msb, a)[at] == StreamBits(msb, b)[at];
      }
      EightBits();
      SameBits(a[k], b[k], 8);
    }
  }

  // ----- Fields in sequence -----

  /** A value and its width. */
  datatype Field = Field(value: nat, width: nat)

  function Pack(msb: bool, fields: seq<Field>): seq<bool> {
    if fields == [] then []
    else Pack(msb, fields[..|fields| - 1]) + FieldBits(msb, fields[|fields| - 1].value, fields[|fields| - 1].width)
  }

  lemma {:induction false} PackOfConcat(msb: bool, a: seq<Field>, b: seq<Field>)
    ensures Pack(msb, a + b) == Pack(msb, a) + Pack(msb, b)
    decreases |b|
  {
    hide FieldBits;
    if b == [] {
      assert a + b == a;
    } else {
      var n := |b| - 1;
      PackOfConcat(msb, a, b[..n]);
      assert (a + b)[..|a + b| - 1] == a + b[..n];
      Seqs.ConcatAssociates(Pack(msb, a), Pack(msb, b[..n]), FieldBits(msb, b[n].value, b[n].width));
    }
  }

  /** Field k of a packed list stands right after the first k fields, whatever follows the list. */
  lemma {:induction false} FieldInPack(msb: bool, fields: seq<Field>, k: nat, tail: seq<bool>)
    requires k < |fields|
    ensures var at, bits := |Pack(msb, fields[..k])|, Pack(msb, fields) + tail;
            at + fields[k].width <= |bits| && bits[at..at + fields[k].width] == FieldBits(msb, fields[k].value, fields[k].width)
            && |Pack(msb, fields[..k + 1])| == at + fields[k].width
    decreases |fields|
  {
    hide FieldBits;
    var n := |fields| - 1;
    var last := FieldBits(msb, fields[n].value, fields[n].width);
    Seqs.ConcatAssociates(Pack(msb, fields[..n]), last, tail);
    assert fields[..n + 1] == fields;
    if k < n {
      FieldInPack(msb, fields[..n], k, last + tail);
      assert fields[..n][..k] == fields[..k] && fields[..n][..k + 1] == fields[..k + 1];
    } else {
      Seqs.SliceInFirst(last, tail, 0, |last|);
      Seqs.SliceInSecond(Pack(msb, fields[..n]), last + tail, 0, |last|);
    }
  }
}
