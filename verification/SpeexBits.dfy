/** SpeexBits: a bit-at-a-time packer, most significant bit first, with a terminator and a sticky overflow flag. */
module SpeexBits {
  import opened Bytes
  import opened BitOps
  import Seqs
  import opened BitStreams
  import opened OggPackBits
  import Memory

  const MAX_CHARS_PER_FRAME := 2000

  class Bits {
    var chars: array<byte>
    var nbBits: nat
    var charPtr: nat
    var bitPtr: nat
    var overflow: bool
    var owner: bool

    ghost function Position(): nat
      reads this
    {
      8 * charPtr + bitPtr
    }

    /** In use as a writer. The buffer's size is the length of the array. */
    ghost predicate Writing()
      reads this, chars
    {
      && charPtr < chars.Length && bitPtr < 8 && nbBits == Position() && !overflow
      && Clean(true, chars[..], Position())
    }

    ghost function Written(): (w: seq<bool>)
      requires charPtr < chars.Length && bitPtr < 8
      reads this, chars
      ensures |w| == Position()
    {
      StreamBits(true, chars[..])[..Position()]
    }

    /** In use as a reader. */
    ghost predicate Reading()
      reads this
    {
      bitPtr < 8 && Position() <= nbBits <= 8 * chars.Length
    }

    ghost function Stored(): seq<bool>
      requires nbBits <= 8 * chars.Length
      reads this, chars
    {
      StreamBits(true, chars[..])[..nbBits]
    }

    /** speex_bits_init */
    constructor ()
      ensures Writing() && Written() == [] && owner && fresh(chars) && chars.Length == 2000
    {
      chars := new byte[MAX_CHARS_PER_FRAME];
      owner := true;
      nbBits, charPtr, bitPtr, overflow := 0, 0, 0, false;
      new;
      chars[0] := 0;
      ZeroIsClean(chars[..]);
    }

    /** speex_bits_init_buffer */
    constructor InitBuffer(buff: array<byte>)
      requires buff.Length > 0
      modifies buff
      ensures Writing() && Written() == [] && !owner && chars == buff
    {
      chars := buff;
      owner := false;
      nbBits, charPtr, bitPtr, overflow := 0, 0, 0, false;
      new;
      chars[0] := 0;
      ZeroIsClean(chars[..]);
    }

    /** speex_bits_reset */
    method Reset()
      requires chars.Length > 0
      modifies this`nbBits, this`charPtr, this`bitPtr, this`overflow, chars
      ensures Writing() && Written() == []
    {
      chars[0] := 0;
      nbBits, charPtr, bitPtr, overflow := 0, 0, 0, false;
      ZeroIsClean(chars[..]);
    }

    // ----- Writing -----

    /** Whether a pack of n bits goes ahead: an owned buffer grows, a borrowed one must have room. */
    ghost predicate HasRoom(n: nat)
      reads this
    {
      owner || charPtr + (n + bitPtr) / 8 < chars.Length
    }

    /** speex_bits_pack, for up to 32 bits; data is converted to a 32-bit unsigned value. */
    method Pack(data: int, n: nat)
      requires Writing() && n <= 32
      modifies this`chars, this`nbBits, this`charPtr, this`bitPtr, chars
      ensures chars == old(chars) || (owner && fresh(chars))
      ensures old(HasRoom(n)) ==> Writing() && Written() == old(Written()) + FieldBits(true, Word32(data), n)
      ensures !old(HasRoom(n)) ==> unchanged(this) && unchanged(chars)
      ensures chars.Length == Enlarged(old(chars.Length), old(charPtr) + (n + old(bitPtr)) / 8, owner)
    {
      hide StreamBits, Clean, FieldBits, Bit;
      var d := Word32(data);
      if charPtr + (n + bitPtr) / 8 >= chars.Length {
        if owner {
          Grow((chars.Length + 5) * 3 / 2);
        } else {
          return;
        }
      }
      var left := n;
      ghost var before := Written();
      NoField(d, n, before);
      while left > 0
        invariant 0 <= left <= n && Writing()
        invariant charPtr + (left + bitPtr) / 8 < chars.Length
        invariant chars == old(chars) || (owner && fresh(chars))
        invariant chars.Length == Enlarged(old(chars.Length), old(charPtr) + (n + old(bitPtr)) / 8, owner)
        invariant Written() == before + FieldBits(true, d, n)[..n - left]
      {
        var bit := Shr(d, left - 1) % 2 == 1;
        NextFieldBit(d, n, left, before);
        PackBit(bit);
        left := left - 1;
      }
      assert FieldBits(true, d, n)[..n] == FieldBits(true, d, n);
    }

    /** One turn of the packing loop. */
    method PackBit(bit: bool)
      requires Writing() && charPtr + (1 + bitPtr) / 8 < chars.Length
      modifies this`nbBits, this`charPtr, this`bitPtr, chars
      ensures Writing() && Written() == old(Written()) + [bit] && Position() == old(Position()) + 1
    {
      hide StreamBits, Bit, Shl, Or, Added;
      ghost var before := chars[..];
      OrBit(chars[charPtr], bitPtr, bit);
      chars[charPtr] := Or(chars[charPtr], Shl(if bit then 1 else 0, 7 - bitPtr));
      bitPtr := bitPtr + 1;
      if bitPtr == 8 {
        bitPtr := 0;
        charPtr := charPtr + 1;
        chars[charPtr] := 0;
      }
      nbBits := nbBits + 1;
      OneMoreBit(before, chars[..], old(charPtr), old(bitPtr), bit);
    }

    method Grow(size: nat)
      requires Writing() && size >= chars.Length
      modifies this`chars
      ensures Writing() && Written() == old(Written()) && fresh(chars) && chars.Length == size
    {
      hide Bit;
      chars := Memory.Grow(chars, size);
      SamePrefix(true, old(chars[..]), chars[..], Position());
    }

    /** speex_bits_insert_terminator: a zero, then ones up to the octet boundary. On a borrowed buffer without room for
        the last of these the loop would never end. */
    method InsertTerminator()
      requires Writing() && (owner || bitPtr == 0 || charPtr + 1 < chars.Length)
      modifies this`chars, this`nbBits, this`charPtr, this`bitPtr, chars
      ensures chars == old(chars) || (owner && fresh(chars))
      ensures Writing() && bitPtr == 0 && Written() == old(Written()) + Terminator(old(bitPtr))
    {
      hide StreamBits, Clean, FieldBits, Bit, Turn, At, Terminator, Begun;
      ghost var before := Written();
      ghost var b := bitPtr;
      if bitPtr != 0 {
        PackOne(0);
      }
      ghost var k := if b == 0 then 8 else b + 1;
      TerminatorStart(b, before);
      while bitPtr != 0
        invariant Writing() && b < k <= 8 && bitPtr == k % 8 && (owner || k == 8 || charPtr + 1 < chars.Length)
        invariant chars == old(chars) || (owner && fresh(chars))
        invariant Written() == before + Begun(b, k)
        decreases 8 - k
      {
        TerminatorStep(b, k, before);
        PackOne(1);
        k := k + 1;
      }
    }

    /** A turn of the loop that inserts a terminator, whether or not there is room. */
    method PackOne(v: nat)
      requires Writing() && v <= 1
      modifies this`chars, this`nbBits, this`charPtr, this`bitPtr, chars
      ensures chars == old(chars) || (owner && fresh(chars))
      ensures Writing() && At() == Turn(old(At()), owner)
      ensures Written() == if old(Room()) then old(Written()) + [v == 1] else old(Written())
      ensures old(Room()) ==> bitPtr == (old(bitPtr) + 1) % 8 && charPtr == old(charPtr) + if old(bitPtr) == 7 then 1 else 0
      ensures chars.Length >= old(chars.Length)
    {
      hide StreamBits, Clean, FieldBits, Bit;
      OneBitField(v);
      Pack(v, 1);
    }

    /** There is room for a bit and the octet after it. */
    ghost predicate Room()
      reads this
    {
      owner || bitPtr < 7 || charPtr + 1 < chars.Length
    }

    ghost function At(): Place
      reads this
    {
      Place(charPtr, bitPtr, chars.Length)
    }

    /** speex_bits_nbytes */
    method NBytes() returns (n: nat)
      ensures n == (nbBits + 7) / 8
    {
      n := (nbBits + 7) / 8;
    }

    /** speex_bits_write: terminate, put the counters back, and give out the octets, as many as there is room for. The
        terminator stays in the current octet: unless it has no ones, nothing more can be packed before a reset. */
    method Write(max: nat) returns (out: seq<byte>)
      requires Writing() && (owner || bitPtr == 0 || charPtr + 1 < chars.Length)
      modifies this`chars, this`nbBits, this`charPtr, this`bitPtr, chars
      ensures chars == old(chars) || fresh(chars)
      ensures nbBits == old(nbBits) && charPtr == old(charPtr) && bitPtr == old(bitPtr) < 8 && charPtr < chars.Length
      ensures Written() == old(Written())
      ensures Writing() <==> bitPtr == 0 || bitPtr == 7
      ensures |out| == if max > (nbBits + 7) / 8 then (nbBits + 7) / 8 else max
      ensures StreamBits(true, out) == (old(Written()) + Terminator(bitPtr))[..8 * |out|]
    {
      hide StreamBits, Clean, Bit;
      var b, c, n := bitPtr, charPtr, nbBits;
      InsertTerminator();
      ghost var all := Written();
      bitPtr, charPtr, nbBits := b, c, n;
      TerminatorStays(chars[..], c, b, old(Written()));
      var count := (nbBits + 7) / 8;
      if max < count {
        count := max;
      }
      out := chars[..count];
      PrefixOctets(chars[..], count, |all|);
      PrefixBits(chars[..], n, |all|, old(Written()), Terminator(b));
    }

    /** speex_bits_write_whole_bytes: give out whole octets, and keep the last, partial one as the new first. */
    method WriteWholeBytes(max: nat) returns (out: seq<byte>)
      requires Writing()
      modifies this`nbBits, this`charPtr, chars
      ensures |out| == (if max > old(nbBits) / 8 then old(nbBits) / 8 else max) && out == old(chars[..])[..|out|]
      ensures charPtr == 0 && bitPtr == old(bitPtr) && nbBits == bitPtr && chars.Length > 0
      ensures chars[0] == if bitPtr > 0 then old(chars[..])[|out|] else 0
      ensures chars[1..] == old(chars[1..])
      ensures max >= old(nbBits) / 8 ==> Writing()
      ensures max >= old(nbBits) / 8 ==> StreamBits(true, out) + Written() == old(Written())
    {
      hide StreamBits, Clean, Bit;
      ghost var before := chars[..];
      var count := if max > nbBits / 8 then nbBits / 8 else max;
      out := chars[..count];
      if bitPtr > 0 {
        chars[0] := chars[count];
      } else {
        chars[0] := 0;
      }
      KeepLast(before, chars[..], charPtr, bitPtr, count);
      charPtr := 0;
      nbBits := nbBits % 8;
    }

    // ----- Reading -----

    /** speex_bits_read_from: an owned buffer grows to fit, a borrowed one takes what it can. */
    method ReadFrom(input: seq<byte>)
      modifies this`chars, this`nbBits, this`charPtr, this`bitPtr, this`overflow, chars
      ensures chars == old(chars) || fresh(chars)
      ensures Reading() && Position() == 0 && !overflow
      ensures var n := if |input| > old(chars.Length) && !owner then old(chars.Length) else |input|;
              nbBits == 8 * n && Stored() == StreamBits(true, input[..n])
    {
      hide Bit;
      var n := |input|;
      if n > chars.Length {
        if owner {
          chars := Memory.Grow(chars, n);
        } else {
          n := chars.Length;
        }
      }
      Memory.Store(input[..n], chars, 0);
      nbBits := 8 * n;
      charPtr, bitPtr, overflow := 0, 0, false;
      SameOctets(chars[..], input[..n]);
    }

    /** speex_bits_rewind */
    method Rewind()
      requires nbBits <= 8 * chars.Length
      modifies this`charPtr, this`bitPtr, this`overflow
      ensures Reading() && Position() == 0 && !overflow
    {
      charPtr, bitPtr, overflow := 0, 0, false;
    }

    /** The overflow flag is raised by asking for more than is left, and stays up. */
    ghost predicate Overflows(n: nat)
      reads this
    {
      overflow || Position() + n > nbBits
    }

    /** speex_bits_unpack_unsigned; nothing is read or moved once overflow is up. */
    method UnpackUnsigned(n: nat) returns (d: nat)
      requires Reading() && n <= 32
      modifies this`charPtr, this`bitPtr, this`overflow
      ensures Reading() && overflow == old(Overflows(n))
      ensures overflow ==> d == 0 && Position() == old(Position())
      ensures !overflow ==> Position() == old(Position()) + n && d == Value(true, Stored()[old(Position())..Position()])
    {
      hide StreamBits, Value;
      if 8 * charPtr + bitPtr + n > nbBits {
        overflow := true;
      }
      if overflow {
        return 0;
      }
      ghost var p, bits := Position(), Stored();
      d := 0;
      var left := n;
      EmptyValue(bits, p);
      while left > 0
        invariant 0 <= left <= n && Reading() && Position() == p + n - left && !overflow
        invariant d == Value(true, bits[p..Position()])
      {
        var bit := BitAt();
        ValueStep(bits, p, Position());
        d := 2 * d + bit;
        bitPtr := bitPtr + 1;
        if bitPtr == 8 {
          bitPtr := 0;
          charPtr := charPtr + 1;
        }
        left := left - 1;
      }
    }

    /** The bit at the position. */
    method BitAt() returns (bit: nat)
      requires Reading() && Position() < nbBits
      ensures bit == if Stored()[Position()] then 1 else 0
    {
      hide Bit, Shr;
      bit := Shr(chars[charPtr], 7 - bitPtr) % 2;
      BitOfShr(chars[charPtr], 7 - bitPtr, 0);
      LowestBit(Shr(chars[charPtr], 7 - bitPtr));
    }

    /** speex_bits_peek_unsigned: the same value, without moving. */
    method PeekUnsigned(n: nat) returns (d: nat)
      requires Reading() && n <= 32
      modifies this`overflow
      ensures Reading() && overflow == old(Overflows(n))
      ensures overflow ==> d == 0
      ensures !overflow ==> d == Value(true, Stored()[Position()..Position() + n])
    {
      hide StreamBits, Value, Bit, Shr;
      if 8 * charPtr + bitPtr + n > nbBits {
        overflow := true;
      }
      if overflow {
        return 0;
      }
      ghost var p, bits := Position(), Stored();
      var b, c, left := bitPtr, charPtr, n;
      d := 0;
      EmptyValue(bits, p);
      while left > 0
        invariant 0 <= left <= n && b < 8 && 8 * c + b == p + n - left && !overflow
        invariant d == Value(true, bits[p..8 * c + b])
      {
        StoredBit(chars[..], nbBits, c, b);
        ValueStep(bits, p, 8 * c + b);
        d := 2 * d + Shr(chars[c], 7 - b) % 2;
        b := b + 1;
        if b == 8 {
          b := 0;
          c := c + 1;
        }
        left := left - 1;
      }
      assert Stored() == bits;
    }

    /** speex_bits_unpack_signed, for widths 1 to 31: two's complement. */
    method UnpackSigned(n: nat) returns (v: int)
      requires Reading() && 1 <= n <= 31
      modifies this`charPtr, this`bitPtr, this`overflow
      ensures Reading() && overflow == old(Overflows(n))
      ensures overflow ==> v == 0 && Position() == old(Position())
      ensures !overflow ==> Position() == old(Position()) + n
      ensures !overflow ==> v == SignedValue(Value(true, Stored()[old(Position())..Position()]), n)
    {
      hide StreamBits, Value, Shr;
      var d := UnpackUnsigned(n);
      SignBit(d, n, if overflow then [] else Stored()[old(Position())..Position()]);
      if Shr(d, n - 1) != 0 {
        v := d - Pow2(n);
      } else {
        v := d;
      }
    }

    /** speex_bits_advance */
    method Advance(n: nat)
      requires Reading()
      modifies this`charPtr, this`bitPtr, this`overflow
      ensures Reading() && overflow == old(Overflows(n))
      ensures Position() == old(Position()) + if overflow then 0 else n
    {
      if 8 * charPtr + bitPtr + n > nbBits || overflow {
        overflow := true;
        return;
      }
      charPtr := charPtr + (bitPtr + n) / 8;
      bitPtr := (bitPtr + n) % 8;
    }

    /** speex_bits_remaining */
    method Remaining() returns (n: int)
      requires Reading()
      ensures n == if overflow then -1 else nbBits - Position()
    {
      n := if overflow then -1 else nbBits - (8 * charPtr + bitPtr);
    }
  }

  /** The conversion of a C int to an unsigned int of 32 bits. */
  function Word32(data: int): nat {
    data % 0x1_0000_0000
  }

  /** Two's complement of n bits. */
  function SignedValue(d: nat, n: nat): int
    requires n >= 1
  {
    if d >= Pow2(n - 1) then d - Pow2(n) else d
  }

  /** The size of the buffer after a pack that ends in octet `last`: an owned one grows if it must. */
  function Enlarged(size: nat, last: nat, owner: bool): (n: nat)
    ensures last >= size && owner ==> 2 * n <= 3 * size + 15 < 2 * n + 2
    ensures last < size || !owner ==> n == size
  {
    if last >= size && owner then (size + 5) * 3 / 2 else size
  }

  // ----- Whether inserting a terminator ends -----

  datatype Place = Place(charPtr: nat, bitPtr: nat, size: nat)

  /** What a turn of the loop does to the position: pack a single bit. */
  function Turn(p: Place, owner: bool): Place {
    var last := p.charPtr + (1 + p.bitPtr) / 8;
    if last >= p.size && !owner then p
    else Place(last, (1 + p.bitPtr) % 8, Enlarged(p.size, last, owner))
  }

  function Turns(p: Place, owner: bool, k: nat): Place {
    if k == 0 then p else Turn(Turns(p, owner, k - 1), owner)
  }

  /** The loop that goes on until the position is on an octet boundary ends exactly if it is there, the buffer is owned, or
      an octet is free. */
  lemma TerminatorEnds(p: Place, owner: bool)
    requires p.bitPtr < 8 && p.charPtr < p.size
    ensures (exists k :: Turns(p, owner, k).bitPtr == 0) <==> owner || p.bitPtr == 0 || p.charPtr + 1 < p.size
  {
    hide Turns, Turn;
    if owner || p.bitPtr == 0 || p.charPtr + 1 < p.size {
      BoundaryReached(p, owner);
    } else {
      forall k: nat ensures Turns(p, owner, k).bitPtr != 0 {
        StuckBeforeBoundary(p, k);
      }
    }
  }

  lemma BoundaryReached(p: Place, owner: bool)
    requires p.bitPtr < 8 && p.charPtr < p.size && (owner || p.bitPtr == 0 || p.charPtr + 1 < p.size)
    ensures Turns(p, owner, (8 - p.bitPtr) % 8).bitPtr == 0
  {
    hide Turn;
    if p.bitPtr > 0 {
      TurnsInOctet(p, owner, 7 - p.bitPtr);
      assert Turns(p, owner, 8 - p.bitPtr) == Turn(Turns(p, owner, 7 - p.bitPtr), owner);
      IntoNextOctet(p, owner);
    }
  }

  lemma IntoNextOctet(p: Place, owner: bool)
    requires p.charPtr < p.size && (owner || p.charPtr + 1 < p.size)
    ensures Turn(Place(p.charPtr, 7, p.size), owner).bitPtr == 0
  {
  }

  lemma {:induction false} TurnsInOctet(p: Place, owner: bool, k: nat)
    requires p.bitPtr + k < 8 && p.charPtr < p.size
    ensures Turns(p, owner, k) == Place(p.charPtr, p.bitPtr + k, p.size)
  {
    if k > 0 {
      TurnsInOctet(p, owner, k - 1);
    }
  }

  /** On a full borrowed buffer the last bit of the last octet is never filled: there a turn changes nothing. */
  lemma {:induction false} StuckBeforeBoundary(p: Place, k: nat)
    requires 0 < p.bitPtr < 8 && p.charPtr + 1 == p.size
    ensures Turns(p, false, k) == Place(p.charPtr, if p.bitPtr + k < 7 then p.bitPtr + k else 7, p.size)
    ensures Turn(Place(p.charPtr, 7, p.size), false) == Place(p.charPtr, 7, p.size)
  {
    if k > 0 {
      StuckBeforeBoundary(p, k - 1);
    }
  }

  /** What fills the octet in which the stream ends b bits in. */
  function Terminator(b: nat): (t: seq<bool>)
    requires b < 8
    ensures |t| == (8 - b) % 8
  {
    if b == 0 then [] else seq(8 - b, i => i != 0)
  }

  // ----- Packing, bit by bit -----

  lemma ZeroIsClean(data: seq<byte>)
    requires data != [] && data[0] == 0
    ensures Clean(true, data, 0) && StreamBits(true, data)[..0] == []
  {
    ZeroOctetIsClean();
  }

  lemma NoField(d: nat, n: nat, before: seq<bool>)
    ensures before + FieldBits(true, d, n)[..0] == before
  {
  }

  lemma NextFieldBit(d: nat, n: nat, left: nat, before: seq<bool>)
    requires 0 < left <= n
    ensures before + FieldBits(true, d, n)[..n - left] + [Shr(d, left - 1) % 2 == 1]
         == before + FieldBits(true, d, n)[..n - left + 1]
  {
    hide Bit, Shr;
    var f, i := FieldBits(true, d, n), n - left;
    BitOfShr(d, left - 1, 0);
    LowestBit(Shr(d, left - 1));
    assert f[i] == Bit(d, left - 1);
    assert f[..i + 1] == f[..i] + [f[i]];
    Seqs.ConcatAssociates(before, f[..i], [f[i]]);
  }

  lemma LowestBit(x: nat)
    ensures Bit(x, 0) == (x % 2 == 1)
  {
  }

  /** x has the bits of the prior octet, and stream bit b if that is set. */
  ghost predicate Added(x: nat, prior: nat, b: nat, bit: bool) {
    forall w :: 0 <= w < 8 ==> (Bit(x, w) == (Bit(prior, w) || (bit && w == 7 - b)))
  }

  lemma OrBit(prior: byte, b: nat, bit: bool)
    requires b < 8
    ensures var x := Or(prior, Shl(if bit then 1 else 0, 7 - b));
            x < 256 && Added(x, prior, b, bit)
  {
    hide Bit, Or, Shl;
    var y := if bit then 1 else 0;
    var x := Or(prior, Shl(y, 7 - b));
    forall w | 0 <= w < 8 ensures Bit(x, w) == (Bit(prior, w) || (bit && w == 7 - b)) {
      BitOfOr(prior, Shl(y, 7 - b), w);
      BitOfShl(y, 7 - b, w);
      if w >= 7 - b {
        BitOfUnit(bit, w - (7 - b));
      }
    }
    ShiftedUnit(bit, b);
    OrIsOctet(prior, Shl(y, 7 - b));
  }

  lemma BitOfUnit(bit: bool, i: nat)
    ensures Bit(if bit then 1 else 0, i) == (bit && i == 0)
  {
    if i > 0 {
      ZeroBits(i - 1);
      ZeroBits(i);
    }
  }

  lemma ShiftedUnit(bit: bool, b: nat)
    requires b < 8
    ensures Shl(if bit then 1 else 0, 7 - b) < 256
  {
    ShlOfUnit(if bit then 1 else 0, 7 - b);
  }

  lemma {:induction false} ShlOfUnit(y: nat, k: nat)
    requires y <= 1 && k <= 7
    ensures Shl(y, k) <= 128
  {
    assert Shl(y, 1) == 2 * y && Shl(y, 2) == Shl(2 * y, 1) && Shl(y, 3) == Shl(2 * y, 2) && Shl(y, 4) == Shl(2 * y, 3);
    assert Shl(y, 5) == Shl(2 * y, 4) && Shl(y, 6) == Shl(2 * y, 5) && Shl(y, 7) == Shl(2 * y, 6);
    ShlIsTimes(y, k);
    PowIsMonotone(k, 7);
    assert Pow2(3) == 8;
    assert Pow2(7) == 128;
    assert y * Pow2(k) <= Pow2(k);
  }

  lemma {:induction false} ShlIsTimes(y: nat, k: nat)
    ensures Shl(y, k) == y * Pow2(k)
    decreases k
  {
    if k > 0 {
      ShlIsTimes(2 * y, k - 1);
    }
  }

  lemma OneMoreBit(before: seq<byte>, after: seq<byte>, c: nat, b: nat, bit: bool)
    requires b < 8 && c < |before| == |after| && Clean(true, before, 8 * c + b) && before[..c] == after[..c]
    requires Added(after[c], before[c], b, bit)
    requires b == 7 ==> c + 1 < |after| && after[c + 1] == 0
    ensures var p := 8 * c + b;
            StreamBits(true, after)[..p + 1] == StreamBits(true, before)[..p] + [bit] && Clean(true, after, p + 1)
  {
    hide Bit;
    var p := 8 * c + b;
    forall i | 0 <= i < 8 * ((p + 1) / 8 + 1)
      ensures StreamBit(true, after, i) == if i < p then StreamBit(true, before, i) else i == p && bit
    {
      if i / 8 == c {
        assert Bit(after[c], 7 - i % 8) == (Bit(before[c], 7 - i % 8) || (bit && 7 - i % 8 == 7 - b));
        assert i >= p ==> !StreamBit(true, before, i);
      } else if i / 8 > c {
        ZeroBits(7 - i % 8);
      } else {
        assert before[..c][i / 8] == after[..c][i / 8];
      }
    }
    var l, r := StreamBits(true, after)[..p + 1], StreamBits(true, before)[..p] + [bit];
    forall i | 0 <= i < p + 1 ensures l[i] == r[i] {
      assert l[i] == StreamBit(true, after, i);
    }
  }

  lemma OneBitField(v: nat)
    requires v <= 1
    ensures FieldBits(true, Word32(v), 1) == [v == 1]
  {
    LowestBit(v);
  }

  /** A zero and then ones, up to the octet boundary; nothing on one. */
  lemma TerminatorSpells(b: nat)
    requires b < 8
    ensures var t := Terminator(b);
            && (|t| == if b == 0 then 0 else 8 - b) && (b > 0 ==> !t[0]) && forall i :: 0 < i < |t| ==> t[i]
  {
  }

  /** The terminator up to bit k of the octet. */
  ghost function Begun(b: nat, k: nat): (t: seq<bool>)
    requires b < k <= 8
    ensures k == 8 ==> t == Terminator(b)
  {
    if b == 0 then [] else Terminator(b)[..k - b]
  }

  lemma TerminatorStart(b: nat, before: seq<bool>)
    requires b < 8
    ensures before + Begun(b, if b == 0 then 8 else b + 1) == if b == 0 then before else before + [false]
    ensures Begun(b, 8) == Terminator(b)
  {
  }

  lemma TerminatorStep(b: nat, k: nat, before: seq<bool>)
    requires b < k < 8 && b > 0
    ensures before + Begun(b, k) + [true] == before + Begun(b, k + 1)
  {
    var t := Terminator(b);
    assert t[..k + 1 - b] == t[..k - b] + [true];
    Seqs.ConcatAssociates(before, t[..k - b], [true]);
  }

  /** The terminator leaves the rest of the octet clear only if it is a single zero, or nothing. */
  lemma TerminatorStays(data: seq<byte>, c: nat, b: nat, before: seq<bool>)
    requires b < 8 && c < |data| && |before| == 8 * c + b && 8 * c + b + |Terminator(b)| <= 8 * |data|
    requires StreamBits(true, data)[..8 * c + b + |Terminator(b)|] == before + Terminator(b)
    requires b == 0 ==> Clean(true, data, 8 * c)
    ensures Clean(true, data, 8 * c + b) <==> b == 0 || b == 7
  {
    hide Bit;
    var p, t := 8 * c + b, Terminator(b);
    forall i | p <= i < p + |t| ensures StreamBit(true, data, i) == t[i - p] {
      assert StreamBits(true, data)[..p + |t|][i] == StreamBit(true, data, i);
      assert (before + t)[i] == t[i - p];
    }
    if 0 < b < 7 {
      assert StreamBit(true, data, p + 1);
    }
  }

  // ----- Octets and their bits -----

  lemma PrefixOctets(data: seq<byte>, n: nat, p: nat)
    requires n <= |data| && 8 * n <= p <= 8 * |data|
    ensures StreamBits(true, data[..n]) == StreamBits(true, data)[..p][..8 * n]
  {
    hide Bit;
    var l, r := StreamBits(true, data[..n]), StreamBits(true, data)[..p][..8 * n];
    forall i | 0 <= i < 8 * n ensures l[i] == r[i] {
    }
  }

  lemma PrefixBits(data: seq<byte>, n: nat, p: nat, a: seq<bool>, b: seq<bool>)
    requires n == |a| <= p <= 8 * |data| && StreamBits(true, data)[..p] == a + b
    ensures StreamBits(true, data)[..n] == a
  {
    hide StreamBits;
    assert StreamBits(true, data)[..n] == StreamBits(true, data)[..p][..n];
    assert (a + b)[..n] == a;
  }

  lemma SameOctets(data: seq<byte>, input: seq<byte>)
    requires |input| <= |data| && data[0..0 + |input|] == input
    ensures StreamBits(true, data)[..8 * |input|] == StreamBits(true, input)
  {
    hide Bit;
    var l, r := StreamBits(true, data)[..8 * |input|], StreamBits(true, input);
    forall i | 0 <= i < 8 * |input| ensures l[i] == r[i] {
      assert data[0..0 + |input|][i / 8] == data[i / 8];
    }
  }

  /** What write_whole_bytes keeps when everything whole has gone out. */
  lemma KeepLast(before: seq<byte>, after: seq<byte>, c: nat, b: nat, count: nat)
    requires b < 8 && count <= c < |before| == |after| && Clean(true, before, 8 * c + b)
    requires after[0] == if b > 0 then before[count] else 0
    ensures count == c ==> Clean(true, after, b)
    ensures count == c ==>
              StreamBits(true, before[..count]) + StreamBits(true, after)[..b] == StreamBits(true, before)[..8 * c + b]
  {
    hide Bit;
    if count == c {
      forall i | 0 <= i < 8 ensures StreamBit(true, after, i) == (i < b && StreamBit(true, before, 8 * c + i)) {
        ZeroBits(7 - i);
        assert (8 * c + i) / 8 == c && (8 * c + i) % 8 == i;
        assert i >= b ==> !StreamBit(true, before, 8 * c + i);
      }
      var l, r := StreamBits(true, before[..count]) + StreamBits(true, after)[..b], StreamBits(true, before)[..8 * c + b];
      forall i | 0 <= i < 8 * c + b ensures l[i] == r[i] {
        if i >= 8 * c {
          assert StreamBit(true, after, i - 8 * c) == StreamBit(true, before, 8 * c + (i - 8 * c));
        }
      }
    }
  }

  lemma EmptyValue(bits: seq<bool>, p: nat)
    requires p <= |bits|
    ensures Value(true, bits[p..p]) == 0
  {
  }

  lemma ValueStep(bits: seq<bool>, p: nat, q: nat)
    requires p <= q < |bits|
    ensures Value(true, bits[p..q + 1]) == 2 * Value(true, bits[p..q]) + if bits[q] then 1 else 0
  {
    assert bits[p..q + 1][..q - p] == bits[p..q];
  }

  lemma StoredBit(data: seq<byte>, n: nat, c: nat, b: nat)
    requires b < 8 && 8 * c + b < n <= 8 * |data|
    ensures Shr(data[c], 7 - b) % 2 == if StreamBits(true, data)[..n][8 * c + b] then 1 else 0
  {
    hide Bit, Shr;
    BitOfShr(data[c], 7 - b, 0);
    LowestBit(Shr(data[c], 7 - b));
    assert (8 * c + b) / 8 == c && (8 * c + b) % 8 == b;
  }

  lemma SignBit(d: nat, n: nat, bits: seq<bool>)
    requires n >= 1 && ((d == Value(true, bits) && |bits| == n) || d == 0)
    ensures d < Pow2(n) && (Shr(d, n - 1) != 0 <==> d >= Pow2(n - 1))
  {
    ShrIsZero(d, n - 1);
  }

  lemma {:induction false} ShrIsZero(x: nat, k: nat)
    ensures Shr(x, k) == 0 <==> x < Pow2(k)
    decreases k
  {
    if k > 0 {
      ShrIsZero(x / 2, k - 1);
    }
  }

  // ----- Round trips -----

  /** Fields as the packer takes them: 32-bit values, widths of at most 32. */
  ghost predicate Packable(fields: seq<Field>) {
    forall i :: 0 <= i < |fields| ==> fields[i].width <= 32 && fields[i].value < 0x1_0000_0000
  }

  method PackFields(bits: Bits, fields: seq<Field>)
    requires bits.Writing() && bits.owner && Packable(fields)
    modifies bits, bits.chars
    ensures bits.Writing() && bits.owner && (bits.chars == old(bits.chars) || fresh(bits.chars))
    ensures bits.Written() == old(bits.Written()) + Pack(true, fields)
  {
    hide Clean, StreamBits, FieldBits, Value, Pack;
    var i := 0;
    ghost var before := bits.Written();
    NothingPacked();
    assert fields[..0] == [];
    while i < |fields|
      invariant 0 <= i <= |fields| && bits.Writing() && bits.owner
      invariant bits.chars == old(bits.chars) || fresh(bits.chars)
      invariant bits.Written() == before + Pack(true, fields[..i])
    {
      PackOneMore(fields, i);
      bits.Pack(fields[i].value, fields[i].width);
      Seqs.ConcatAssociates(before, Pack(true, fields[..i]), FieldBits(true, fields[i].value, fields[i].width));
      i := i + 1;
    }
    assert fields[..i] == fields;
  }

  lemma NothingPacked()
    ensures Pack(true, []) == []
  {
  }

  lemma PackOneMore(fields: seq<Field>, i: nat)
    requires i < |fields|
    ensures Pack(true, fields[..i + 1]) == Pack(true, fields[..i]) + FieldBits(true, fields[i].value, fields[i].width)
  {
    assert fields[..i + 1][..i] == fields[..i];
  }

  /** Pack every field, write the stream out, read it back in and unpack with the same widths: every field comes back
      masked to its width, and what is left to read is the terminator. */
  method RoundTrip(fields: seq<Field>) returns (values: seq<nat>, rest: nat)
    requires Packable(fields)
    ensures |values| == |fields|
    ensures forall i :: 0 <= i < |fields| ==> values[i] == Low(fields[i].value, fields[i].width)
    ensures rest == |Terminator(|Pack(true, fields)| % 8)|
  {
    hide Clean, StreamBits, FieldBits, Value;
    var w := new Bits();
    PackFields(w, fields);
    var out := WriteAll(w);
    values, rest := UnpackFields(out, fields, Terminator(|Pack(true, fields)| % 8));
  }

  /** speex_bits_write with room for everything. */
  method WriteAll(w: Bits) returns (out: seq<byte>)
    requires w.Writing() && w.owner
    modifies w, w.chars
    ensures StreamBits(true, out) == old(w.Written()) + Terminator(|old(w.Written())| % 8)
  {
    hide Clean, StreamBits;
    out := w.Write((w.nbBits + 7) / 8);
    ghost var s := old(w.Written()) + Terminator(w.bitPtr);
    assert |s| == 8 * |out|;
    assert s[..|s|] == s;
  }

  method UnpackFields(input: seq<byte>, fields: seq<Field>, ghost tail: seq<bool>) returns (values: seq<nat>, rest: nat)
    requires Packable(fields) && StreamBits(true, input) == Pack(true, fields) + tail
    ensures |values| == |fields| && rest == |tail|
    ensures forall i :: 0 <= i < |fields| ==> values[i] == Low(fields[i].value, fields[i].width)
  {
    hide Clean, StreamBits, FieldBits, Value, Low;
    var r := new Bits();
    r.ReadFrom(input);
    assert input[..|input|] == input;
    ghost var all := Pack(true, fields) + tail;
    values := [];
    var i := 0;
    while i < |fields|
      invariant 0 <= i <= |fields| && |values| == i
      invariant r.Reading() && r.Stored() == all && r.nbBits == |all| && fresh(r) && !r.overflow
      invariant r.Position() == |Pack(true, fields[..i])|
      invariant forall k :: 0 <= k < i ==> values[k] == Low(fields[k].value, fields[k].width)
    {
      FieldInPack(true, fields, i, tail);
      ValueOfField(true, fields[i].value, fields[i].width);
      var v := r.UnpackUnsigned(fields[i].width);
      values := values + [v];
      i := i + 1;
    }
    assert fields[..i] == fields;
    rest := r.nbBits - (8 * r.charPtr + r.bitPtr);
  }

  /** A signed value that fits the width, packed and unpacked as a signed one, comes back. */
  lemma SignedFieldComesBack(x: int, n: nat)
    requires 1 <= n <= 31 && 0 - Pow2(n - 1) <= x < Pow2(n - 1)
    ensures SignedValue(Value(true, FieldBits(true, Word32(x), n)), n) == x
  {
    hide Value, FieldBits, Low;
    EightBits();
    PowIsMonotone(n, 32);
    ValueOfField(true, Word32(x), n);
    LowIsMod(Word32(x), n);
    PowIsMonotone(n - 1, n);
    PowersMultiply(n, 32 - n);
    if x >= 0 {
      Remainder(x, Pow2(n), 0, x);
    } else {
      var q := Pow2(32 - n) - 1;
      assert Pow2(n) * (q + 1) == Pow2(n) * q + Pow2(n);
      assert Word32(x) == x + 0x1_0000_0000;
      Remainder(Word32(x), Pow2(n), q, x + Pow2(n));
    }
  }

  lemma {:induction false} PowersMultiply(i: nat, j: nat)
    ensures Pow2(i) * Pow2(j) == Pow2(i + j)
  {
    if i > 0 {
      PowersMultiply(i - 1, j);
      assert Pow2(i) * Pow2(j) == 2 * (Pow2(i - 1) * Pow2(j));
    }
  }

  /** Handing out whole octets early, given room, and the rest at the end gives the octets that one write at the end
      would have. */
  method EarlyOctets(first: seq<Field>, second: seq<Field>, room: nat)
    returns (early: seq<byte>, late: seq<byte>, once: seq<byte>)
    requires Packable(first) && Packable(second)
    ensures StreamBits(true, once) == Pack(true, first + second) + Terminator(|Pack(true, first + second)| % 8)
    ensures room >= |Pack(true, first)| / 8 ==> early + late == once
  {
    hide Clean, StreamBits, FieldBits, Value;
    once := WriteOnce(first, second);
    var b := new Bits();
    PackFields(b, first);
    var whole := b.nbBits / 8;
    early := b.WriteWholeBytes(room);
    late := [];
    if room < whole {
      return;
    }
    ghost var kept := b.Written();
    PackFields(b, second);
    late := WriteAll(b);
    EarlyAndLate(early, late, once, Pack(true, first), Pack(true, second), kept);
  }

  method WriteOnce(first: seq<Field>, second: seq<Field>) returns (once: seq<byte>)
    requires Packable(first) && Packable(second)
    ensures StreamBits(true, once) == Pack(true, first + second) + Terminator(|Pack(true, first + second)| % 8)
    ensures Pack(true, first + second) == Pack(true, first) + Pack(true, second)
  {
    hide Clean, StreamBits, FieldBits, Value, Pack, Terminator;
    var a := new Bits();
    assert [] + Pack(true, first) == Pack(true, first);
    PackFields(a, first);
    PackFields(a, second);
    PackOfConcat(true, first, second);
    once := WriteAll(a);
  }

  lemma EarlyAndLate(early: seq<byte>, late: seq<byte>, once: seq<byte>, f: seq<bool>, g: seq<bool>, kept: seq<bool>)
    requires StreamBits(true, once) == f + g + Terminator(|f + g| % 8)
    requires StreamBits(true, early) + kept == f
    requires StreamBits(true, late) == kept + g + Terminator(|kept + g| % 8)
    ensures early + late == once
  {
    hide StreamBits, Terminator;
    var e, t := StreamBits(true, early), Terminator(|f + g| % 8);
    assert |f| == 8 * |early| + |kept|;
    assert f + g + t == e + (kept + g + t) by {
      Seqs.ConcatAssociates(e, kept, g);
      Seqs.ConcatAssociates(e, kept + g, t);
    }
    StreamOfConcat(early, late);
    SameStream(true, early + late, once);
  }

  lemma StreamOfConcat(a: seq<byte>, b: seq<byte>)
    ensures StreamBits(true, a + b) == StreamBits(true, a) + StreamBits(true, b)
  {
    hide Bit;
    var l, r := StreamBits(true, a + b), StreamBits(true, a) + StreamBits(true, b);
    forall i | 0 <= i < 8 * (|a| + |b|) ensures l[i] == r[i] {
      if i >= 8 * |a| {
        assert (i - 8 * |a|) / 8 == i / 8 - |a| && (i - 8 * |a|) % 8 == i % 8;
      }
    }
  }
}
