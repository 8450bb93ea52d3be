/** oggpack_buffer: bits packed into a growing buffer, and read out of a fixed one, least significant bit of an octet
    first (oggpack_*) or most significant first (oggpackB_*). */
module OggPack {
  import opened Bytes
  import opened BitOps
  import Seqs
  import opened BitStreams
  import opened OggPackBits
  import Memory

  const BUFFER_INCREMENT := 256

  class PackBuffer {
    var buffer: array<byte>
    var storage: nat
    var endbyte: nat
    var endbit: nat
    /** Whether ptr is set; it is then buffer + endbyte. */
    var open: bool

    ghost function Position(): nat
      reads this
    {
      8 * endbyte + endbit
    }

    /** In use as a writer, in the given bit order. */
    ghost predicate Writing(msb: bool)
      reads this, buffer
    {
      open && storage == buffer.Length && endbyte < storage && endbit < 8 && Clean(msb, buffer[..], Position())
    }

    /** Cleared: there is no buffer, and writes do nothing. */
    ghost predicate Cleared()
      reads this
    {
      !open && storage == endbyte == endbit == 0
    }

    /** The bits written so far. */
    ghost function Bits(msb: bool): seq<bool>
      requires storage == buffer.Length && endbyte < storage && endbit < 8
      reads this, buffer
    {
      StreamBits(msb, buffer[..])[..Position()]
    }

    /** oggpack_writeinit */
    constructor ()
      ensures Writing(false) && Writing(true) && Bits(false) == [] && Bits(true) == [] && fresh(buffer)
    {
      buffer := new byte[BUFFER_INCREMENT];
      storage, endbyte, endbit, open := BUFFER_INCREMENT, 0, 0, true;
      new;
      buffer[0] := 0;
      ZeroOctetIsClean();
    }

    /** oggpack_writeclear */
    method WriteClear()
      modifies this
      ensures Cleared() && fresh(buffer)
    {
      buffer := new byte[0];
      storage, endbyte, endbit, open := 0, 0, 0, false;
    }

    /** Room for the five octets a write may touch. */
    method Reserve(ghost msb: bool)
      requires Writing(msb)
      modifies this`buffer, this`storage
      ensures Writing(msb) && Bits(msb) == old(Bits(msb)) && endbyte + 4 < storage
      ensures buffer == old(buffer) || fresh(buffer)
      ensures buffer[..endbyte + 1] == old(buffer[..endbyte + 1])
    {
      if endbyte + 4 >= storage {
        buffer := Memory.Grow(buffer, storage + BUFFER_INCREMENT);
        storage := storage + BUFFER_INCREMENT;
        SamePrefix(msb, old(buffer[..]), buffer[..], Position());
      }
    }

    /** The nested stores of a write that ends n bits after the start of the current octet: only octets reached are touched. */
    method StoreOctets(n: nat, octets: seq<byte>)
      requires endbyte + 4 < storage == buffer.Length && n < 40 && |octets| == 5
      modifies buffer
      ensures forall i :: 0 <= i < endbyte ==> buffer[i] == old(buffer[i])
      ensures forall k :: 0 <= k <= n / 8 ==> buffer[endbyte + k] == octets[k]
    {
      buffer[endbyte] := octets[0];
      if n >= 8 {
        buffer[endbyte + 1] := octets[1];
        if n >= 16 {
          buffer[endbyte + 2] := octets[2];
          if n >= 24 {
            buffer[endbyte + 3] := octets[3];
            if n >= 32 {
              buffer[endbyte + 4] := octets[4];
            }
          }
        }
      }
    }

    /** Move past the bits just stored. */
    method Advance(ghost msb: bool, ghost before: seq<byte>, ghost value: nat, bits: nat)
      requires open && storage == buffer.Length && endbit < 8 && bits <= 32 && endbyte + 4 < storage
      requires Wrote(msb, before, buffer[..], Position(), value, bits) && Clean(msb, before, Position())
      modifies this`endbyte, this`endbit
      ensures Writing(msb)
      ensures Bits(msb) == StreamBits(msb, before)[..old(Position())] + FieldBits(msb, value, bits)
    {
      hide StreamBits, FieldBits;
      WriteAppends(msb, before, buffer[..], Position(), value, bits);
      endbyte, endbit := endbyte + (bits + endbit) / 8, (bits + endbit) % 8;
    }

    /** oggpack_write; takes up to 32 bits, anything else clears the buffer. */
    method Write(value: nat, bits: int)
      requires Writing(false) || Cleared()
      modifies this, buffer
      ensures old(Cleared()) ==> Cleared()
      ensures old(open) && 0 <= bits <= 32 ==> Writing(false) && Bits(false) == old(Bits(false)) + FieldBits(false, value, bits)
      ensures 0 <= bits <= 32 ==> buffer == old(buffer) || fresh(buffer)
      ensures !(0 <= bits <= 32) ==> Cleared()
    {
      hide Low, Shl, Shr, Or, Bit, StreamBits, Clean, FieldBits, NewOctet;
      if bits < 0 || bits > 32 {
        WriteClear();
        return;
      }
      if !open {
        return;
      }
      Reserve(false);
      ghost var before := buffer[..];
      var e, v := endbit, Low(value, bits);
      NewOctets(buffer[endbyte], value, bits, e, v);
      var octets: seq<byte> := [Or(buffer[endbyte], Low(Shl(v, e), 8)), Low(Shr(v, 8 - e), 8), Low(Shr(v, 16 - e), 8),
                             Low(Shr(v, 24 - e), 8), if e != 0 then Low(Shr(v, 32 - e), 8) else 0];
      forall k | 0 <= k <= 4 ensures octets[k] == NewOctet(false, before[endbyte], value, bits, e, k) {
      }
      StoreOctets(bits + e, octets);
      Advance(false, before, value, bits);
    }

    /** oggpackB_write */
    method WriteB(value: nat, bits: int)
      requires Writing(true) || Cleared()
      modifies this, buffer
      ensures old(Cleared()) ==> Cleared()
      ensures old(open) && 0 <= bits <= 32 ==> Writing(true) && Bits(true) == old(Bits(true)) + FieldBits(true, value, bits)
      ensures 0 <= bits <= 32 ==> buffer == old(buffer) || fresh(buffer)
      ensures !(0 <= bits <= 32) ==> Cleared()
    {
      hide Low, Shl, Shr, Or, Bit, StreamBits, Clean, FieldBits, NewOctet;
      if bits < 0 || bits > 32 {
        WriteClear();
        return;
      }
      if !open {
        return;
      }
      Reserve(true);
      ghost var before := buffer[..];
      var e, v := endbit, Shl(Low(value, bits), 32 - bits);
      NewOctetsB(buffer[endbyte], value, bits, e, v);
      var octets: seq<byte> := [Or(buffer[endbyte], Low(Shr(v, 24 + e), 8)), Low(Shr(v, 16 + e), 8), Low(Shr(v, 8 + e), 8),
                             Low(Shr(v, e), 8), if e != 0 then Low(Shl(v, 8 - e), 8) else 0];
      forall k | 0 <= k <= 4 ensures octets[k] == NewOctet(true, before[endbyte], value, bits, e, k) {
      }
      StoreOctets(bits + e, octets);
      Advance(true, before, value, bits);
    }

    /** Whichever order the buffer is in. */
    method WriteIn(msb: bool, value: nat, bits: nat)
      requires (Writing(msb) || Cleared()) && bits <= 32
      modifies this, buffer
      ensures old(Cleared()) ==> Cleared()
      ensures old(open) ==> Writing(msb) && Bits(msb) == old(Bits(msb)) + FieldBits(msb, value, bits)
      ensures buffer == old(buffer) || fresh(buffer)
    {
      hide Clean, FieldBits, StreamBits;
      if msb {
        WriteB(value, bits);
      } else {
        Write(value, bits);
      }
    }

    /** oggpack_writetrunc and oggpackB_writetrunc, to any length within the storage: what stands there is kept. */
    method WriteTrunc(msb: bool, bits: nat)
      requires open ==> storage == buffer.Length && bits / 8 < storage && endbyte < storage && endbit < 8
      modifies this`endbyte, this`endbit, buffer
      ensures !open ==> unchanged(this) && unchanged(buffer)
      ensures open ==> Writing(msb) && Position() == bits && Bits(msb) == StreamBits(msb, old(buffer[..]))[..bits]
      ensures open && bits <= old(Position()) ==> Bits(msb) == old(Bits(msb))[..bits]
    {
      hide Bit, Low, Shl, Shr;
      if !open {
        return;
      }
      ghost var before := buffer[..];
      endbyte, endbit := bits / 8, bits % 8;
      KeptOctet(msb, buffer[endbyte], endbit);
      buffer[endbyte] := if msb then Shl(Shr(buffer[endbyte], 8 - endbit), 8 - endbit) else Low(buffer[endbyte], endbit);
      TruncateKeeps(msb, before, buffer[..], bits);
      assert bits <= old(Position()) ==> StreamBits(msb, before)[..old(Position())][..bits] == StreamBits(msb, before)[..bits];
    }

    /** oggpack_writealign: zero bits up to the octet boundary. */
    method WriteAlign(msb: bool)
      requires Writing(msb) || Cleared()
      modifies this, buffer
      ensures old(Cleared()) ==> Cleared()
      ensures old(open) ==> Writing(msb) && Position() % 8 == 0
      ensures old(open) ==> Bits(msb) == old(Bits(msb)) + FieldBits(msb, 0, (8 - old(endbit)) % 8)
      ensures buffer == old(buffer) || fresh(buffer)
    {
      hide Clean, FieldBits, StreamBits;
      var bits := 8 - endbit;
      if bits < 8 {
        WriteIn(msb, 0, bits);
        LengthsAdd(old(Bits(msb)), FieldBits(msb, 0, bits), Bits(msb));
      } else {
        assert FieldBits(msb, 0, 0) == [];
        assert open ==> Bits(msb) + [] == Bits(msb);
      }
    }

    /** oggpack_reset */
    method Reset()
      modifies this`endbyte, this`endbit, buffer
      requires open ==> storage == buffer.Length > 0
      ensures open ==> Writing(false) && Writing(true) && Bits(false) == [] && Bits(true) == []
    {
      if !open {
        return;
      }
      buffer[0] := 0;
      endbit, endbyte := 0, 0;
      ZeroOctetIsClean();
    }

    /** oggpack_writecopy and oggpackB_writecopy: octet by octet when the position is inside an octet, and otherwise as
        one block; then the trailing bits. */
    method WriteCopy(msb: bool, source: array<byte>, bits: nat)
      requires (Writing(msb) || Cleared()) && bits <= 8 * source.Length && source != buffer
      modifies this, buffer
      ensures old(Cleared()) ==> Cleared()
      ensures old(open) ==> Writing(msb) && Bits(msb) == old(Bits(msb)) + StreamBits(msb, source[..])[..bits]
      ensures buffer == old(buffer) || fresh(buffer)
    {
      hide Clean, FieldBits, StreamBits, Bit, Shr;
      var bytes := bits / 8;
      var pbytes := (endbit + bits) / 8;
      var rest := bits - bytes * 8;
      if !open {
        WriteClear();
        return;
      }
      ExpandFor(msb, pbytes);
      if endbit != 0 {
        CopyOctets(msb, source, bytes);
      } else {
        CopyBlock(msb, source, bytes);
      }
      if rest != 0 {
        CopyRest(msb, source[..], source[bytes], bytes, rest, old(Bits(msb)));
      }
    }

    /** The trailing bits of the last, partial octet. */
    method CopyRest(msb: bool, ghost data: seq<byte>, last: byte, bytes: nat, rest: nat, ghost before: seq<bool>)
      requires Writing(msb) && 0 < rest < 8 && bytes < |data| && last == data[bytes]
      requires Bits(msb) == before + StreamBits(msb, data)[..8 * bytes]
      modifies this, buffer
      ensures Writing(msb) && Bits(msb) == before + StreamBits(msb, data)[..8 * bytes + rest]
      ensures buffer == old(buffer) || fresh(buffer)
    {
      hide Clean, FieldBits, StreamBits, Bit, Shr;
      ghost var all, n := StreamBits(msb, data), 8 * bytes + rest;
      WriteIn(msb, if msb then Shr(last, 8 - rest) else last, rest);
      TrailingBits(msb, data, bytes, rest);
      Seqs.ConcatAssociates(before, all[..8 * bytes], all[8 * bytes..n]);
      Seqs.JoinSlices(all, 0, 8 * bytes, n);
      FromZero(all, 8 * bytes);
      FromZero(all, n);
    }

    method ExpandFor(ghost msb: bool, pbytes: nat)
      requires Writing(msb)
      modifies this`buffer, this`storage
      ensures Writing(msb) && Bits(msb) == old(Bits(msb)) && endbyte + pbytes < storage
      ensures buffer == old(buffer) || fresh(buffer)
    {
      if endbyte + pbytes >= storage {
        var size := endbyte + pbytes + BUFFER_INCREMENT;
        buffer := Memory.Grow(buffer, size);
        storage := size;
        SamePrefix(msb, old(buffer[..]), buffer[..], Position());
      }
    }

    method CopyOctets(msb: bool, source: array<byte>, bytes: nat)
      requires Writing(msb) && bytes <= source.Length && source != buffer
      modifies this, buffer
      ensures Writing(msb) && Bits(msb) == old(Bits(msb)) + StreamBits(msb, source[..])[..8 * bytes]
      ensures buffer == old(buffer) || fresh(buffer)
    {
      hide Clean, FieldBits, StreamBits, Bit;
      ghost var bits, all := Bits(msb), StreamBits(msb, source[..]);
      assert all[..0] == [] && bits + [] == bits;
      var i := 0;
      while i < bytes
        invariant 0 <= i <= bytes && Writing(msb)
        invariant buffer == old(buffer) || fresh(buffer)
        invariant Bits(msb) == bits + all[..8 * i]
      {
        WriteIn(msb, source[i], 8);
        OctetBits(msb, source[..], i);
        FromZero(all, 8 * i);
        FromZero(all, 8 * i + 8);
        Seqs.JoinSlices(all, 0, 8 * i, 8 * i + 8);
        Seqs.ConcatAssociates(bits, all[..8 * i], all[8 * i..8 * i + 8]);
        i := i + 1;
      }
    }

    method CopyBlock(msb: bool, source: array<byte>, bytes: nat)
      requires Writing(msb) && endbit == 0 && bytes <= source.Length && source != buffer && endbyte + bytes < storage
      modifies this`endbyte, buffer
      ensures Writing(msb) && Bits(msb) == old(Bits(msb)) + StreamBits(msb, source[..])[..8 * bytes]
    {
      ghost var before := buffer[..];
      Memory.Copy(source, 0, buffer, endbyte, bytes);
      endbyte := endbyte + bytes;
      ghost var moved := buffer[..];
      buffer[endbyte] := 0;
      BlockBits(msb, before, moved, buffer[..], source[..], old(endbyte), bytes);
    }

    // ----- Reading -----

    /** In use as a reader. Once the end has been passed, ptr may be gone. */
    ghost predicate Reading()
      reads this
    {
      storage <= buffer.Length && endbit < 8 && (!open ==> Failed())
    }

    /** The position is past the end. */
    ghost predicate Failed()
      reads this
    {
      Position() > 8 * storage
    }

    ghost function Data(): seq<byte>
      requires Reading()
      reads this, buffer
    {
      buffer[..storage]
    }

    /** oggpack_readinit */
    method ReadInit(buf: array<byte>, bytes: nat)
      requires bytes <= buf.Length
      modifies this
      ensures Reading() && buffer == buf && Data() == buf[..bytes] && Position() == 0 && !Failed()
    {
      buffer, storage, endbyte, endbit, open := buf, bytes, 0, 0, true;
    }

    /** The word oggpack_look and oggpackB_look put together for a field that ends `bits` bits after the start of the
        current octet: only octets it reaches are read. */
    method Assemble(msb: bool, bits: nat) returns (ret: nat)
      requires Reading() && open && 0 < bits < 40 && 8 * endbyte + bits <= 8 * storage && (bits > 32 ==> endbit > 0)
      ensures ret == Word(msb, Data(), endbyte, endbit, (bits + 7) / 8)
    {
      hide Part, Or;
      ghost var data := Data();
      ret := Part(msb, buffer[endbyte], endbit, 0);
      OrZero(ret);
      assert ret == Word(msb, data, endbyte, endbit, 1);
      if bits > 8 {
        ret := Or(ret, Part(msb, buffer[endbyte + 1], endbit, 1));
        assert ret == Word(msb, data, endbyte, endbit, 2);
        if bits > 16 {
          ret := Or(ret, Part(msb, buffer[endbyte + 2], endbit, 2));
          assert ret == Word(msb, data, endbyte, endbit, 3);
          if bits > 24 {
            ret := Or(ret, Part(msb, buffer[endbyte + 3], endbit, 3));
            assert ret == Word(msb, data, endbyte, endbit, 4);
            if bits > 32 && endbit != 0 {
              ret := Or(ret, Part(msb, buffer[endbyte + 4], endbit, 4));
            }
          }
        }
      }
    }

    /** oggpack_look and oggpackB_look */
    method Look(msb: bool, bits: int) returns (ret: int)
      requires Reading()
      ensures ret == Peeked(msb, Data(), Position(), bits)
    {
      hide Word, Cut, Value, StreamBits;
      if bits < 0 || bits > 32 {
        return -1;
      }
      var n := bits + endbit;
      if endbyte + 4 >= storage {
        if endbyte > storage - (n + 7) / 8 {
          return -1;
        } else if n == 0 {
          NothingPeeked(msb, Data(), Position());
          return 0;
        }
      }
      if n == 0 {
        NothingPeeked(msb, Data(), Position());
        return 0;
      }
      var word := Assemble(msb, n);
      LookIsValue(msb, Data(), Position(), bits, (n + 7) / 8);
      ret := Cut(msb, word, bits);
    }

    /** oggpack_adv */
    method Adv(bits: nat)
      requires Reading()
      modifies this`open, this`endbyte, this`endbit
      ensures Reading()
      ensures if old(Position()) + bits <= 8 * storage then Position() == old(Position()) + bits && open == old(open) else Failed()
    {
      var n := bits + endbit;
      if endbyte > storage - (n + 7) / 8 {
        Overflow();
        return;
      }
      endbyte := endbyte + n / 8;
      endbit := n % 8;
    }

    method Overflow()
      requires storage <= buffer.Length
      modifies this`open, this`endbyte, this`endbit
      ensures Reading() && Failed()
    {
      open, endbyte, endbit := false, storage, 1;
    }

    /** oggpack_read and oggpackB_read */
    method Read(msb: bool, bits: int) returns (ret: int)
      requires Reading()
      modifies this`open, this`endbyte, this`endbit
      ensures Reading() && ret == Peeked(msb, Data(), old(Position()), bits)
      ensures if ret >= 0 then Position() == old(Position()) + bits else Failed()
    {
      hide Word, Cut, Value, StreamBits;
      if bits < 0 || bits > 32 {
        Overflow();
        return -1;
      }
      var n := bits + endbit;
      if endbyte + 4 >= storage {
        if endbyte > storage - (n + 7) / 8 {
          Overflow();
          return -1;
        } else if n == 0 {
          NothingPeeked(msb, Data(), Position());
          return 0;
        }
      }
      if n == 0 {
        NothingPeeked(msb, Data(), Position());
        return 0;
      }
      var word := Assemble(msb, n);
      LookIsValue(msb, Data(), Position(), bits, (n + 7) / 8);
      ret := Cut(msb, word, bits);
      endbyte := endbyte + n / 8;
      endbit := n % 8;
    }

    /** oggpack_look1 and oggpackB_look1 */
    method Look1(msb: bool) returns (ret: int)
      requires Reading()
      ensures ret == Peeked(msb, Data(), Position(), 1)
    {
      hide Bit, Shr;
      if endbyte >= storage {
        return -1;
      }
      OneBitPeeked(msb, Data(), Position());
      ret := Shr(buffer[endbyte], if msb then 7 - endbit else endbit) % 2;
    }

    /** oggpack_adv1: no check is made. */
    method Adv1()
      requires Reading()
      modifies this`endbyte, this`endbit
      ensures Reading() && Position() == old(Position()) + 1
    {
      endbit := endbit + 1;
      if endbit > 7 {
        endbit := 0;
        endbyte := endbyte + 1;
      }
    }

    /** oggpack_read1 and oggpackB_read1 */
    method Read1(msb: bool) returns (ret: int)
      requires Reading()
      modifies this`open, this`endbyte, this`endbit
      ensures Reading() && ret == Peeked(msb, Data(), old(Position()), 1)
      ensures if ret >= 0 then Position() == old(Position()) + 1 else Failed()
    {
      hide Bit, Shr;
      if endbyte >= storage {
        Overflow();
        return -1;
      }
      OneBitPeeked(msb, Data(), Position());
      ret := Shr(buffer[endbyte], if msb then 7 - endbit else endbit) % 2;
      endbit := endbit + 1;
      if endbit > 7 {
        endbit := 0;
        endbyte := endbyte + 1;
      }
    }
  }

  lemma NewOctets(prior: byte, value: nat, n: nat, e: nat, v: nat)
    requires n <= 32 && e < 8 && v == Low(value, n)
    ensures Low(Shl(v, e), 8) < 256 && Or(prior, Low(Shl(v, e), 8)) < 256 && forall k :: Low(Shr(v, k), 8) < 256
    ensures NewOctet(false, prior, value, n, e, 0) == Or(prior, Low(Shl(v, e), 8))
    ensures NewOctet(false, prior, value, n, e, 1) == Low(Shr(v, 8 - e), 8)
    ensures NewOctet(false, prior, value, n, e, 2) == Low(Shr(v, 16 - e), 8)
    ensures NewOctet(false, prior, value, n, e, 3) == Low(Shr(v, 24 - e), 8)
    ensures NewOctet(false, prior, value, n, e, 4) == if e == 0 then 0 else Low(Shr(v, 32 - e), 8)
  {
    hide Low, Shl, Shr, Or;
    EightBits();
    OrIsOctet(prior, Low(Shl(v, e), 8));
  }

  lemma NewOctetsB(prior: byte, value: nat, n: nat, e: nat, v: nat)
    requires n <= 32 && e < 8 && v == Shl(Low(value, n), 32 - n)
    ensures Or(prior, Low(Shr(v, 24 + e), 8)) < 256 && forall k :: Low(Shr(v, k), 8) < 256 && Low(Shl(v, k), 8) < 256
    ensures NewOctet(true, prior, value, n, e, 0) == Or(prior, Low(Shr(v, 24 + e), 8))
    ensures NewOctet(true, prior, value, n, e, 1) == Low(Shr(v, 16 + e), 8)
    ensures NewOctet(true, prior, value, n, e, 2) == Low(Shr(v, 8 + e), 8)
    ensures NewOctet(true, prior, value, n, e, 3) == Low(Shr(v, e), 8)
    ensures NewOctet(true, prior, value, n, e, 4) == if e == 0 then 0 else Low(Shl(v, 8 - e), 8)
  {
    hide Low, Shl, Shr, Or;
    EightBits();
    OrIsOctet(prior, Low(Shr(v, 24 + e), 8));
  }

  lemma LengthsAdd(a: seq<bool>, b: seq<bool>, c: seq<bool>)
    requires c == a + b
    ensures |c| == |a| + |b|
  {
  }

  lemma FromZero<T>(s: seq<T>, k: nat)
    requires k <= |s|
    ensures s[0..k] == s[..k]
  {
  }

  /** The mask of a truncation keeps the first endbit stream bits of an octet and clears the rest. */
  lemma KeptOctet(msb: bool, b: byte, endbit: nat)
    requires endbit < 8
    ensures var c := if msb then Shl(Shr(b, 8 - endbit), 8 - endbit) else Low(b, endbit);
            && c < 256 && forall j :: 0 <= j < 8 ==> (Bit(c, Weight(msb, j)) == (j < endbit && Bit(b, Weight(msb, j))))
  {
    hide Bit, Low, Shl, Shr;
    var c := if msb then Shl(Shr(b, 8 - endbit), 8 - endbit) else Low(b, endbit);
    EightBits();
    forall j | 0 <= j < 8 ensures Bit(c, Weight(msb, j)) == (j < endbit && Bit(b, Weight(msb, j))) {
      var w := Weight(msb, j);
      if msb {
        BitOfShl(Shr(b, 8 - endbit), 8 - endbit, w);
        if w >= 8 - endbit {
          BitOfShr(b, 8 - endbit, w - (8 - endbit));
        }
      } else {
        BitOfLow(b, endbit, w);
      }
    }
    if msb {
      ShlOfShr(b, 8 - endbit);
    } else {
      PowIsMonotone(endbit, 8);
    }
  }

  lemma {:induction false} ShlOfShr(x: nat, k: nat)
    ensures Shl(Shr(x, k), k) <= x
    decreases k
  {
    if k > 0 {
      ShlOfShr(x / 2, k - 1);
      ShlDouble(Shr(x / 2, k - 1), k - 1);
    }
  }

  lemma {:induction false} ShlDouble(x: nat, k: nat)
    ensures Shl(2 * x, k) == 2 * Shl(x, k)
    decreases k
  {
    if k > 0 {
      ShlDouble(2 * x, k - 1);
    }
  }

  lemma TruncateKeeps(msb: bool, before: seq<byte>, after: seq<byte>, p: nat)
    requires |before| == |after| && p / 8 < |before| && forall i :: 0 <= i < |before| && i != p / 8 ==> after[i] == before[i]
    requires forall j :: 0 <= j < 8 ==>
               (Bit(after[p / 8], Weight(msb, j)) == (j < p % 8 && Bit(before[p / 8], Weight(msb, j))))
    ensures StreamBits(msb, after)[..p] == StreamBits(msb, before)[..p] && Clean(msb, after, p)
  {
    hide Bit;
    forall i | 0 <= i < 8 * (p / 8 + 1) ensures StreamBit(msb, after, i) == (i < p && StreamBit(msb, before, i)) {
      if i / 8 == p / 8 {
        assert Bit(after[p / 8], Weight(msb, i % 8)) == (i % 8 < p % 8 && Bit(before[p / 8], Weight(msb, i % 8)));
      }
    }
    forall i | 0 <= i < p ensures StreamBits(msb, after)[..p][i] == StreamBits(msb, before)[..p][i] {
      assert StreamBits(msb, after)[i] == StreamBit(msb, after, i);
    }
  }

  lemma OctetBits(msb: bool, data: seq<byte>, k: nat)
    requires k < |data|
    ensures StreamBits(msb, data)[8 * k..8 * k + 8] == FieldBits(msb, data[k], 8)
  {
    hide Bit;
    var l, r := StreamBits(msb, data)[8 * k..8 * k + 8], FieldBits(msb, data[k], 8);
    forall j | 0 <= j < 8 ensures l[j] == r[j] {
      assert (8 * k + j) / 8 == k && (8 * k + j) % 8 == j;
    }
  }

  lemma TrailingBits(msb: bool, data: seq<byte>, k: nat, n: nat)
    requires k < |data| && n < 8
    ensures StreamBits(msb, data)[8 * k..8 * k + n] == FieldBits(msb, if msb then Shr(data[k], 8 - n) else data[k], n)
  {
    hide Bit, Shr;
    var l, r := StreamBits(msb, data)[8 * k..8 * k + n], FieldBits(msb, if msb then Shr(data[k], 8 - n) else data[k], n);
    forall j | 0 <= j < n ensures l[j] == r[j] {
      assert (8 * k + j) / 8 == k && (8 * k + j) % 8 == j;
      BitOfShr(data[k], 8 - n, n - 1 - j);
    }
  }

  lemma BlockBits(msb: bool, before: seq<byte>, moved: seq<byte>, after: seq<byte>, source: seq<byte>, at: nat, n: nat)
    requires at + n < |before| == |moved| && n <= |source| && after == moved[at + n := 0]
    requires moved[..at] == before[..at] && moved[at..at + n] == source[0..n]
    ensures StreamBits(msb, after)[..8 * (at + n)] == StreamBits(msb, before)[..8 * at] + StreamBits(msb, source)[..8 * n]
    ensures Clean(msb, after, 8 * (at + n))
  {
    hide Bit;
    var l, r := StreamBits(msb, after)[..8 * (at + n)], StreamBits(msb, before)[..8 * at] + StreamBits(msb, source)[..8 * n];
    forall i | 0 <= i < 8 * (at + n) ensures l[i] == r[i] {
      assert l[i] == StreamBit(msb, after, i);
      if i >= 8 * at {
        assert (i - 8 * at) / 8 == i / 8 - at && (i - 8 * at) % 8 == i % 8;
        assert moved[at..at + n][i / 8 - at] == source[0..n][i / 8 - at];
      } else {
        assert moved[..at][i / 8] == before[..at][i / 8];
      }
    }
    ZeroOctetIsClean();
  }

  // ----- What a read returns -----

  /** The next n bits as a number, or -1 if there are not that many or n is not a width. */
  ghost function Peeked(msb: bool, data: seq<byte>, p: nat, n: int): (r: int)
    ensures r >= -1
  {
    if 0 <= n <= 32 && p + n <= 8 * |data| then Value(msb, StreamBits(msb, data)[p..p + n]) else -1
  }

  lemma NothingPeeked(msb: bool, data: seq<byte>, p: nat)
    requires p <= 8 * |data|
    ensures Peeked(msb, data, p, 0) == 0
  {
  }

  lemma OneBitPeeked(msb: bool, data: seq<byte>, p: nat)
    requires p < 8 * |data|
    ensures Peeked(msb, data, p, 1) == Shr(data[p / 8], Weight(msb, p % 8)) % 2
  {
    hide Shr, StreamBits;
    var bit := StreamBit(msb, data, p);
    assert StreamBits(msb, data)[p] == bit by { StreamBitsAt(msb, data, p); }
    assert StreamBits(msb, data)[p..p + 1] == [bit];
    OneBit(msb, bit);
    BitOfShr(data[p / 8], Weight(msb, p % 8), 0);
  }

  lemma StreamBitsAt(msb: bool, data: seq<byte>, p: nat)
    requires p < 8 * |data|
    ensures StreamBits(msb, data)[p] == StreamBit(msb, data, p)
  {
  }

  /** Reading m + n bits at once is reading m and then n: least significant first, the second part is the high one;
      most significant first, it is the low one. */
  lemma ReadSplits(msb: bool, data: seq<byte>, p: nat, m: nat, n: nat)
    requires m + n <= 32
    ensures var a, b, c := Peeked(msb, data, p, m), Peeked(msb, data, p + m, n), Peeked(msb, data, p, m + n);
            && (c == -1 <==> p + m + n > 8 * |data|) && (b == -1 <==> c == -1)
            && (c != -1 ==> a != -1 && c == if msb then a * Pow2(n) + b else a + Pow2(m) * b)
  {
    hide Value, StreamBits;
    if p + m + n <= 8 * |data| {
      var bits := StreamBits(msb, data);
      Seqs.JoinSlices(bits, p, p + m, p + m + n);
      ValueOfConcat(msb, bits[p..p + m], bits[p + m..p + m + n]);
    }
  }

  /** n single-bit reads, put together in stream order, or -1 if any of them fails. */
  ghost function BitByBit(msb: bool, data: seq<byte>, p: nat, n: nat): int {
    if n == 0 then 0
    else
      var a, b := BitByBit(msb, data, p, n - 1), Peeked(msb, data, p + n - 1, 1);
      if a == -1 || b == -1 then -1 else if msb then 2 * a + b else a + Pow2(n - 1) * b
  }

  /** A read of n bits is n single-bit reads. */
  lemma {:induction false} ReadIsBitByBit(msb: bool, data: seq<byte>, p: nat, n: nat)
    requires n <= 32 && p <= 8 * |data|
    ensures Peeked(msb, data, p, n) == BitByBit(msb, data, p, n)
  {
    if n == 0 {
      NothingPeeked(msb, data, p);
    } else {
      hide Peeked, BitByBit, Pow2;
      ReadIsBitByBit(msb, data, p, n - 1);
      ReadSplits(msb, data, p, n - 1, 1);
      PowOfOne();
      Commute(BitByBit(msb, data, p, n - 1), 2);
      BitByBitStep(msb, data, p, n);
      ShortRead(msb, data, p, n);
    }
  }

  lemma BitByBitStep(msb: bool, data: seq<byte>, p: nat, n: nat)
    requires n > 0
    ensures var a, b := BitByBit(msb, data, p, n - 1), Peeked(msb, data, p + n - 1, 1);
            BitByBit(msb, data, p, n) ==
            if a == -1 || b == -1 then -1 else if msb then 2 * a + b else a + Pow2(n - 1) * b
  {
  }

  lemma ShortRead(msb: bool, data: seq<byte>, p: nat, n: nat)
    requires 0 < n <= 32
    ensures Peeked(msb, data, p, n - 1) == -1 ==> Peeked(msb, data, p, n) == -1
  {
    hide Value, StreamBits;
  }

  lemma PowOfOne()
    ensures Pow2(1) == 2
  {
  }

  lemma Commute(x: int, y: int)
    ensures x * y == y * x
  {
  }

  // ----- Round trip -----

  ghost predicate Widths(fields: seq<Field>) {
    forall i :: 0 <= i < |fields| ==> fields[i].width <= 32
  }

  /** Write every field, then read back with the same widths: each value comes back masked to its width. */
  method RoundTrip(msb: bool, fields: seq<Field>) returns (values: seq<int>)
    requires Widths(fields)
    ensures |values| == |fields|
    ensures forall i :: 0 <= i < |fields| ==> values[i] == Low(fields[i].value, fields[i].width)
  {
    hide Clean, StreamBits, FieldBits, Value;
    var w := new PackBuffer();
    var i := 0;
    while i < |fields|
      invariant 0 <= i <= |fields| && w.Writing(msb) && fresh(w) && fresh(w.buffer)
      invariant w.Bits(msb) == Pack(msb, fields[..i])
    {
      assert fields[..i + 1][..i] == fields[..i];
      w.WriteIn(msb, fields[i].value, fields[i].width);
      i := i + 1;
    }
    assert fields[..i] == fields;
    values := ReadAll(msb, w.buffer, w.storage, fields, w.Position());
  }

  /** Reading widths out of a buffer that begins with the packed fields. */
  method ReadAll(msb: bool, buffer: array<byte>, storage: nat, fields: seq<Field>, ghost p: nat) returns (values: seq<int>)
    requires Widths(fields) && storage == buffer.Length && p <= 8 * storage
    requires StreamBits(msb, buffer[..])[..p] == Pack(msb, fields)
    ensures |values| == |fields|
    ensures forall i :: 0 <= i < |fields| ==> values[i] == Low(fields[i].value, fields[i].width)
  {
    hide StreamBits, FieldBits, Value;
    var r := new PackBuffer();
    r.ReadInit(buffer, storage);
    values := [];
    ghost var data, all := buffer[..], StreamBits(msb, buffer[..]);
    assert buffer[..storage] == data;
    Seqs.TwoParts(all, p);
    var i := 0;
    while i < |fields|
      invariant 0 <= i <= |fields| == i + (|fields| - i) && |values| == i
      invariant r.Reading() && r.buffer == buffer && r.storage == storage && fresh(r)
      invariant r.Position() == |Pack(msb, fields[..i])|
      invariant forall k :: 0 <= k < i ==> values[k] == Low(fields[k].value, fields[k].width)
    {
      FieldInPack(msb, fields, i, all[p..]);
      ValueOfField(msb, fields[i].value, fields[i].width);
      var v := r.Read(msb, fields[i].width);
      values := values + [v];
      i := i + 1;
    }
  }
}
