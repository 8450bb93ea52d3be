/** What the multi-octet fast paths of oggpack_write and oggpack_look do, bit by bit. */
module OggPackBits {
  import opened Bytes
  import opened BitOps
  import opened BitStreams

  /** Where stream bit j of an octet sits. */
  function Weight(msb: bool, j: nat): nat
    requires j < 8
  {
    if msb then 7 - j else j
  }

  /** The value as the writers hold it: masked to its width and, most significant bit first, shifted to the top. */
  function Held(msb: bool, value: nat, n: nat): nat
    requires n <= 32
  {
    if msb then Shl(Low(value, n), 32 - n) else Low(value, n)
  }

  /** What lands in the octet k places on, when a value of n bits is written endbit bits into the current octet. */
  function NewOctet(msb: bool, prior: byte, value: nat, n: nat, endbit: nat, k: nat): (b: byte)
    requires n <= 32 && endbit < 8 && k <= 4
  {
    EightBits();
    var v := Held(msb, value, n);
    if k == 0 then
      var add: byte := if msb then Low(Shr(v, 24 + endbit), 8) else Low(Shl(v, endbit), 8);
      OrIsOctet(prior, add);
      Or(prior, add)
    else if k == 4 then
      if endbit == 0 then 0 else if msb then Low(Shl(v, 8 - endbit), 8) else Low(Shr(v, 32 - endbit), 8)
    else if msb then Low(Shr(v, 24 - 8 * k + endbit), 8) else Low(Shr(v, 8 * k - endbit), 8)
  }

  lemma BitOfHeld(msb: bool, value: nat, n: nat, i: nat)
    requires n <= 32
    ensures Bit(Held(msb, value, n), i) ==
            if msb then 32 - n <= i < 32 && FieldBits(msb, value, n)[31 - i] else i < n && FieldBits(msb, value, n)[i]
  {
    hide Bit, Low, Shl;
    if msb {
      BitOfShl(Low(value, n), 32 - n, i);
      if i >= 32 - n {
        BitOfLow(value, n, i - (32 - n));
      }
    } else {
      BitOfLow(value, n, i);
    }
  }

  /** Whether stream bit t, counting from the start of the current octet, is set by the field. */
  predicate Sets(msb: bool, value: nat, n: nat, endbit: nat, t: nat) {
    endbit <= t < endbit + n && FieldBits(msb, value, n)[t - endbit]
  }

  lemma FirstOctetBit(msb: bool, prior: byte, value: nat, n: nat, endbit: nat, j: nat)
    requires n <= 32 && endbit < 8 && j < 8
    ensures Bit(NewOctet(msb, prior, value, n, endbit, 0), Weight(msb, j))
         == (Bit(prior, Weight(msb, j)) || Sets(msb, value, n, endbit, j))
  {
    hide Bit, Low, Shl, Shr, Or, Held, FieldBits;
    var v, w := Held(msb, value, n), Weight(msb, j);
    EightBits();
    if msb {
      BitOfOr(prior, Low(Shr(v, 24 + endbit), 8), w);
      BitOfLow(Shr(v, 24 + endbit), 8, w);
      BitOfShr(v, 24 + endbit, w);
      BitOfHeld(msb, value, n, 24 + endbit + w);
    } else {
      BitOfOr(prior, Low(Shl(v, endbit), 8), w);
      BitOfLow(Shl(v, endbit), 8, w);
      BitOfShl(v, endbit, w);
      if w >= endbit {
        BitOfHeld(msb, value, n, w - endbit);
      }
    }
  }

  lemma MiddleOctetBit(msb: bool, prior: byte, value: nat, n: nat, endbit: nat, k: nat, j: nat)
    requires n <= 32 && endbit < 8 && 1 <= k <= 3 && j < 8
    ensures Bit(NewOctet(msb, prior, value, n, endbit, k), Weight(msb, j)) == Sets(msb, value, n, endbit, 8 * k + j)
  {
    hide Bit, Low, Shl, Shr, Or, Held, FieldBits;
    var v, w := Held(msb, value, n), Weight(msb, j);
    if msb {
      BitOfLow(Shr(v, 24 - 8 * k + endbit), 8, w);
      BitOfShr(v, 24 - 8 * k + endbit, w);
      BitOfHeld(msb, value, n, 24 - 8 * k + endbit + w);
    } else {
      BitOfLow(Shr(v, 8 * k - endbit), 8, w);
      BitOfShr(v, 8 * k - endbit, w);
      BitOfHeld(msb, value, n, 8 * k - endbit + w);
    }
  }

  lemma LastOctetBit(msb: bool, prior: byte, value: nat, n: nat, endbit: nat, j: nat)
    requires n <= 32 && endbit < 8 && j < 8
    ensures Bit(NewOctet(msb, prior, value, n, endbit, 4), Weight(msb, j)) == Sets(msb, value, n, endbit, 32 + j)
  {
    hide Bit, Low, Shl, Shr, Or, Held, FieldBits;
    var v, w := Held(msb, value, n), Weight(msb, j);
    if endbit == 0 {
      ZeroBits(w);
    } else if msb {
      BitOfLow(Shl(v, 8 - endbit), 8, w);
      BitOfShl(v, 8 - endbit, w);
      if w >= 8 - endbit {
        BitOfHeld(msb, value, n, w - (8 - endbit));
      }
    } else {
      BitOfLow(Shr(v, 32 - endbit), 8, w);
      BitOfShr(v, 32 - endbit, w);
      BitOfHeld(msb, value, n, 32 - endbit + w);
    }
  }

  /** Stream bit 8k + j of the octets written, counting from the start of the current octet. */
  lemma NewOctetBit(msb: bool, prior: byte, value: nat, n: nat, endbit: nat, k: nat, j: nat)
    requires n <= 32 && endbit < 8 && k <= 4 && j < 8
    ensures Bit(NewOctet(msb, prior, value, n, endbit, k), Weight(msb, j))
         == ((k == 0 && Bit(prior, Weight(msb, j))) || Sets(msb, value, n, endbit, 8 * k + j))
  {
    hide *;
    if k == 0 {
      FirstOctetBit(msb, prior, value, n, endbit, j);
    } else if k == 4 {
      LastOctetBit(msb, prior, value, n, endbit, j);
    } else {
      MiddleOctetBit(msb, prior, value, n, endbit, k, j);
    }
  }

  /** No bit is set in the current octet at or after position p. */
  ghost predicate Clean(msb: bool, data: seq<byte>, p: nat)
    requires p / 8 < |data|
  {
    forall i :: p <= i < 8 * (p / 8 + 1) ==> !StreamBit(msb, data, i)
  }

  ghost predicate Wrote(msb: bool, before: seq<byte>, after: seq<byte>, p: nat, value: nat, n: nat)
    requires n <= 32
  {
    && (p + n) / 8 < |after| && p / 8 < |before|
    && (forall i :: 0 <= i < p / 8 ==> after[i] == before[i])
    && (forall k :: 0 <= k <= (p % 8 + n) / 8 ==> after[p / 8 + k] == NewOctet(msb, before[p / 8], value, n, p % 8, k))
  }

  /** Writing appends the field's bits to the stream, and leaves the rest of the last octet clear. */
  lemma WriteAppends(msb: bool, before: seq<byte>, after: seq<byte>, p: nat, value: nat, n: nat)
    requires n <= 32 && Wrote(msb, before, after, p, value, n) && Clean(msb, before, p)
    ensures StreamBits(msb, after)[..p + n] == StreamBits(msb, before)[..p] + FieldBits(msb, value, n)
    ensures Clean(msb, after, p + n)
  {
    hide Bit, NewOctet, FieldBits;
    forall i | 0 <= i < 8 * ((p + n) / 8 + 1)
      ensures StreamBit(msb, after, i) ==
              if i < p then StreamBit(msb, before, i) else i < p + n && FieldBits(msb, value, n)[i - p]
    {
      WriteBit(msb, before, after, p, value, n, i);
    }
    var l, r := StreamBits(msb, after)[..p + n], StreamBits(msb, before)[..p] + FieldBits(msb, value, n);
    forall i | 0 <= i < p + n ensures l[i] == r[i] {
      assert l[i] == StreamBit(msb, after, i);
    }
  }

  lemma WriteBit(msb: bool, before: seq<byte>, after: seq<byte>, p: nat, value: nat, n: nat, i: nat)
    requires n <= 32 && Wrote(msb, before, after, p, value, n) && Clean(msb, before, p) && i < 8 * ((p + n) / 8 + 1)
    ensures StreamBit(msb, after, i) ==
            if i < p then StreamBit(msb, before, i) else i < p + n && FieldBits(msb, value, n)[i - p]
  {
    hide Bit, NewOctet, FieldBits;
    if i / 8 >= p / 8 {
      var k := i / 8 - p / 8;
      NewOctetBit(msb, before[p / 8], value, n, p % 8, k, i % 8);
      assert after[p / 8 + k] == NewOctet(msb, before[p / 8], value, n, p % 8, k);
      if k == 0 && i >= p {
        assert !StreamBit(msb, before, i);
      }
    }
  }

  lemma ZeroOctetIsClean()
    ensures forall i :: 0 <= i < 8 ==> !Bit(0, i)
  {
    forall i | 0 <= i < 8 ensures !Bit(0, i) {
      ZeroBits(i);
    }
  }

  lemma SamePrefix(msb: bool, before: seq<byte>, after: seq<byte>, p: nat)
    requires p / 8 < |before| && p / 8 < |after| && after[..p / 8 + 1] == before[..p / 8 + 1]
    ensures StreamBits(msb, after)[..p] == StreamBits(msb, before)[..p]
    ensures Clean(msb, before, p) ==> Clean(msb, after, p)
  {
    hide Bit;
    forall i | 0 <= i < 8 * (p / 8 + 1) ensures StreamBit(msb, after, i) == StreamBit(msb, before, i) {
      assert after[..p / 8 + 1][i / 8] == before[..p / 8 + 1][i / 8];
    }
    forall i | 0 <= i < p ensures StreamBits(msb, after)[..p][i] == StreamBits(msb, before)[..p][i] {
      assert StreamBits(msb, after)[i] == StreamBit(msb, after, i);
    }
  }

  // ----- Looking -----

  /** Octet k's contribution to the word that oggpack_look assembles. */
  function Part(msb: bool, b: byte, endbit: nat, k: nat): nat
    requires endbit < 8 && k <= 4
  {
    if msb then (if k == 4 then Shr(b, 8 - endbit) else Shl(b, 24 - 8 * k + endbit))
    else (if k == 0 then Shr(b, endbit) else Shl(b, 8 * k - endbit))
  }

  /** The word of `count` octets starting at the current one. */
  function Word(msb: bool, data: seq<byte>, at: nat, endbit: nat, count: nat): nat
    requires endbit < 8 && count <= 5 && at + count <= |data|
  {
    if count == 0 then 0
    else Or(Word(msb, data, at, endbit, count - 1), Part(msb, data[at + count - 1], endbit, count - 1))
  }

  /** The low or high n bits of the word. */
  function Cut(msb: bool, word: nat, n: nat): nat
    requires n <= 32
  {
    if msb then Shr(Shr(Low(word, 32), (32 - n) / 2), (33 - n) / 2) else Low(word, n)
  }

  /** Stream bit t's place in the word. */
  lemma BitOfPart(msb: bool, b: byte, endbit: nat, k: nat, t: nat, q: nat)
    requires endbit < 8 && k <= 4 && endbit <= t < endbit + 32 && q == if msb then 31 - (t - endbit) else t - endbit
    ensures Bit(Part(msb, b, endbit, k), q) == (t / 8 == k && Bit(b, Weight(msb, t % 8)))
  {
    hide Bit, Shl, Shr;
    EightBits();
    if msb {
      if k == 4 {
        BitOfShr(b, 8 - endbit, q);
        if t / 8 != 4 {
          BitsBeyond(b, 8, 8 - endbit + q);
        }
      } else {
        BitOfShl(b, 24 - 8 * k + endbit, q);
        if t / 8 < k {
          BitsBeyond(b, 8, q - (24 - 8 * k + endbit));
        }
      }
    } else {
      if k == 0 {
        BitOfShr(b, endbit, q);
        if t / 8 > 0 {
          BitsBeyond(b, 8, endbit + q);
        }
      } else {
        BitOfShl(b, 8 * k - endbit, q);
        if t / 8 > k {
          BitsBeyond(b, 8, q - (8 * k - endbit));
        }
      }
    }
  }

  lemma {:induction false} BitOfWord(msb: bool, data: seq<byte>, at: nat, endbit: nat, count: nat, t: nat, q: nat)
    requires endbit < 8 && count <= 5 && at + count <= |data|
    requires endbit <= t < endbit + 32 && q == if msb then 31 - (t - endbit) else t - endbit
    ensures Bit(Word(msb, data, at, endbit, count), q) == (t < 8 * count && Bit(data[at + t / 8], Weight(msb, t % 8)))
    decreases count
  {
    hide Bit, Or, Part;
    if count == 0 {
      ZeroBits(q);
    } else {
      var b := data[at + count - 1];
      BitOfWord(msb, data, at, endbit, count - 1, t, q);
      BitOfPart(msb, b, endbit, count - 1, t, q);
      BitOfOr(Word(msb, data, at, endbit, count - 1), Part(msb, b, endbit, count - 1), q);
    }
  }

  lemma BitOfCut(msb: bool, word: nat, n: nat, i: nat)
    requires n <= 32
    ensures Bit(Cut(msb, word, n), i) == (i < n && Bit(word, if msb then i + 32 - n else i))
  {
    hide Bit, Low, Shr;
    if msb {
      var a, b := (32 - n) / 2, (33 - n) / 2;
      BitOfShr(Shr(Low(word, 32), a), b, i);
      BitOfShr(Low(word, 32), a, b + i);
      BitOfLow(word, 32, a + b + i);
    } else {
      BitOfLow(word, n, i);
    }
  }

  lemma CutIsSmall(msb: bool, word: nat, n: nat)
    requires n <= 32
    ensures Cut(msb, word, n) < Pow2(n)
  {
    hide Shr, Low, Pow2;
    if msb {
      ShrIsSmall(Low(word, 32), (32 - n) / 2, 32 - (32 - n) / 2);
      ShrIsSmall(Shr(Low(word, 32), (32 - n) / 2), (33 - n) / 2, n);
    }
  }

  lemma {:induction false} ShrIsSmall(x: nat, k: nat, m: nat)
    requires x < Pow2(m + k)
    ensures Shr(x, k) < Pow2(m)
    decreases k
  {
    if k > 0 {
      ShrIsSmall(x / 2, k - 1, m);
    }
  }

  /** The fast path reads exactly the next n stream bits. */
  lemma LookIsValue(msb: bool, data: seq<byte>, p: nat, n: nat, count: nat)
    requires n <= 32 && count <= 5 && p / 8 + count <= |data| && p % 8 + n <= 8 * count
    ensures p + n <= 8 * |data|
    ensures Cut(msb, Word(msb, data, p / 8, p % 8, count), n) == Value(msb, StreamBits(msb, data)[p..p + n])
  {
    hide Bit, Cut, Word, Value;
    var bits := StreamBits(msb, data)[p..p + n];
    var word := Word(msb, data, p / 8, p % 8, count);
    CutIsSmall(msb, word, n);
    forall i | 0 <= i < n ensures Bit(Cut(msb, word, n), i) == bits[if msb then n - 1 - i else i] {
      BitOfCut(msb, word, n, i);
      var r := if msb then n - 1 - i else i;
      var t := p % 8 + r;
      BitOfWord(msb, data, p / 8, p % 8, count, t, if msb then i + 32 - n else i);
      SamePlace(p, r);
    }
    ValueIs(msb, bits, Cut(msb, word, n));
  }

  lemma SamePlace(p: nat, r: nat)
    ensures (p + r) / 8 == p / 8 + (p % 8 + r) / 8 && (p + r) % 8 == (p % 8 + r) % 8
  {
  }
}
