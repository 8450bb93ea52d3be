/** The page checksum of section 6 of RFC 3533: a table-driven 32-bit CRC, unreflected, register and result
    starting from 0, with generator polynomial 0x04c11db7. */
module Checksum {
  import opened Bytes
  import Seqs

  // ----- The register -----

  const POLYNOMIAL: bv32 := 0x04c11db7

  function CrcLookup(index: bv8): bv32 {
    var lo := index & 0x0f;
    var hi := index >> 4;
    if hi == 0 then CrcRow0(lo) else
    if hi == 1 then CrcRow1(lo) else
    if hi == 2 then CrcRow2(lo) else
    if hi == 3 then CrcRow3(lo) else
    if hi == 4 then CrcRow4(lo) else
    if hi == 5 then CrcRow5(lo) else
    if hi == 6 then CrcRow6(lo) else
    if hi == 7 then CrcRow7(lo) else
    if hi == 8 then CrcRow8(lo) else
    if hi == 9 then CrcRow9(lo) else
    if hi == 10 then CrcRow10(lo) else
    if hi == 11 then CrcRow11(lo) else
    if hi == 12 then CrcRow12(lo) else
    if hi == 13 then CrcRow13(lo) else
    if hi == 14 then CrcRow14(lo) else
    CrcRow15(lo)
  }

  function CrcRow0(lo: bv8): bv32 {
    if lo == 0 then 0x00000000 else if lo == 1 then 0x04c11db7 else if lo == 2 then 0x09823b6e else
    if lo == 3 then 0x0d4326d9 else if lo == 4 then 0x130476dc else if lo == 5 then 0x17c56b6b else
    if lo == 6 then 0x1a864db2 else if lo == 7 then 0x1e475005 else if lo == 8 then 0x2608edb8 else
    if lo == 9 then 0x22c9f00f else if lo == 10 then 0x2f8ad6d6 else if lo == 11 then 0x2b4bcb61 else
    if lo == 12 then 0x350c9b64 else if lo == 13 then 0x31cd86d3 else if lo == 14 then 0x3c8ea00a else
    0x384fbdbd
  }

  function CrcRow1(lo: bv8): bv32 {
    if lo == 0 then 0x4c11db70 else if lo == 1 then 0x48d0c6c7 else if lo == 2 then 0x4593e01e else
    if lo == 3 then 0x4152fda9 else if lo == 4 then 0x5f15adac else if lo == 5 then 0x5bd4b01b else
    if lo == 6 then 0x569796c2 else if lo == 7 then 0x52568b75 else if lo == 8 then 0x6a1936c8 else
    if lo == 9 then 0x6ed82b7f else if lo == 10 then 0x639b0da6 else if lo == 11 then 0x675a1011 else
    if lo == 12 then 0x791d4014 else if lo == 13 then 0x7ddc5da3 else if lo == 14 then 0x709f7b7a else
    0x745e66cd
  }

  function CrcRow2(lo: bv8): bv32 {
    if lo == 0 then 0x9823b6e0 else if lo == 1 then 0x9ce2ab57 else if lo == 2 then 0x91a18d8e else
    if lo == 3 then 0x95609039 else if lo == 4 then 0x8b27c03c else if lo == 5 then 0x8fe6dd8b else
    if lo == 6 then 0x82a5fb52 else if lo == 7 then 0x8664e6e5 else if lo == 8 then 0xbe2b5b58 else
    if lo == 9 then 0xbaea46ef else if lo == 10 then 0xb7a96036 else if lo == 11 then 0xb3687d81 else
    if lo == 12 then 0xad2f2d84 else if lo == 13 then 0xa9ee3033 else if lo == 14 then 0xa4ad16ea else
    0xa06c0b5d
  }

  function CrcRow3(lo: bv8): bv32 {
    if lo == 0 then 0xd4326d90 else if lo == 1 then 0xd0f37027 else if lo == 2 then 0xddb056fe else
    if lo == 3 then 0xd9714b49 else if lo == 4 then 0xc7361b4c else if lo == 5 then 0xc3f706fb else
    if lo == 6 then 0xceb42022 else if lo == 7 then 0xca753d95 else if lo == 8 then 0xf23a8028 else
    if lo == 9 then 0xf6fb9d9f else if lo == 10 then 0xfbb8bb46 else if lo == 11 then 0xff79a6f1 else
    if lo == 12 then 0xe13ef6f4 else if lo == 13 then 0xe5ffeb43 else if lo == 14 then 0xe8bccd9a else
    0xec7dd02d
  }

  function CrcRow4(lo: bv8): bv32 {
    if lo == 0 then 0x34867077 else if lo == 1 then 0x30476dc0 else if lo == 2 then 0x3d044b19 else
    if lo == 3 then 0x39c556ae else if lo == 4 then 0x278206ab else if lo == 5 then 0x23431b1c else
    if lo == 6 then 0x2e003dc5 else if lo == 7 then 0x2ac12072 else if lo == 8 then 0x128e9dcf else
    if lo == 9 then 0x164f8078 else if lo == 10 then 0x1b0ca6a1 else if lo == 11 then 0x1fcdbb16 else
    if lo == 12 then 0x018aeb13 else if lo == 13 then 0x054bf6a4 else if lo == 14 then 0x0808d07d else
    0x0cc9cdca
  }

  function CrcRow5(lo: bv8): bv32 {
    if lo == 0 then 0x7897ab07 else if lo == 1 then 0x7c56b6b0 else if lo == 2 then 0x71159069 else
    if lo == 3 then 0x75d48dde else if lo == 4 then 0x6b93dddb else if lo == 5 then 0x6f52c06c else
    if lo == 6 then 0x6211e6b5 else if lo == 7 then 0x66d0fb02 else if lo == 8 then 0x5e9f46bf else
    if lo == 9 then 0x5a5e5b08 else if lo == 10 then 0x571d7dd1 else if lo == 11 then 0x53dc6066 else
    if lo == 12 then 0x4d9b3063 else if lo == 13 then 0x495a2dd4 else if lo == 14 then 0x44190b0d else
    0x40d816ba
  }

  function CrcRow6(lo: bv8): bv32 {
    if lo == 0 then 0xaca5c697 else if lo == 1 then 0xa864db20 else if lo == 2 then 0xa527fdf9 else
    if lo == 3 then 0xa1e6e04e else if lo == 4 then 0xbfa1b04b else if lo == 5 then 0xbb60adfc else
    if lo == 6 then 0xb6238b25 else if lo == 7 then 0xb2e29692 else if lo == 8 then 0x8aad2b2f else
    if lo == 9 then 0x8e6c3698 else if lo == 10 then 0x832f1041 else if lo == 11 then 0x87ee0df6 else
    if lo == 12 then 0x99a95df3 else if lo == 13 then 0x9d684044 else if lo == 14 then 0x902b669d else
    0x94ea7b2a
  }

  function CrcRow7(lo: bv8): bv32 {
    if lo == 0 then 0xe0b41de7 else if lo == 1 then 0xe4750050 else if lo == 2 then 0xe9362689 else
    if lo == 3 then 0xedf73b3e else if lo == 4 then 0xf3b06b3b else if lo == 5 then 0xf771768c else
    if lo == 6 then 0xfa325055 else if lo == 7 then 0xfef34de2 else if lo == 8 then 0xc6bcf05f else
    if lo == 9 then 0xc27dede8 else if lo == 10 then 0xcf3ecb31 else if lo == 11 then 0xcbffd686 else
    if lo == 12 then 0xd5b88683 else if lo == 13 then 0xd1799b34 else if lo == 14 then 0xdc3abded else
    0xd8fba05a
  }

  function CrcRow8(lo: bv8): bv32 {
    if lo == 0 then 0x690ce0ee else if lo == 1 then 0x6dcdfd59 else if lo == 2 then 0x608edb80 else
    if lo == 3 then 0x644fc637 else if lo == 4 then 0x7a089632 else if lo == 5 then 0x7ec98b85 else
    if lo == 6 then 0x738aad5c else if lo == 7 then 0x774bb0eb else if lo == 8 then 0x4f040d56 else
    if lo == 9 then 0x4bc510e1 else if lo == 10 then 0x46863638 else if lo == 11 then 0x42472b8f else
    if lo == 12 then 0x5c007b8a else if lo == 13 then 0x58c1663d else if lo == 14 then 0x558240e4 else
    0x51435d53
  }

  function CrcRow9(lo: bv8): bv32 {
    if lo == 0 then 0x251d3b9e else if lo == 1 then 0x21dc2629 else if lo == 2 then 0x2c9f00f0 else
    if lo == 3 then 0x285e1d47 else if lo == 4 then 0x36194d42 else if lo == 5 then 0x32d850f5 else
    if lo == 6 then 0x3f9b762c else if lo == 7 then 0x3b5a6b9b else if lo == 8 then 0x0315d626 else
    if lo == 9 then 0x07d4cb91 else if lo == 10 then 0x0a97ed48 else if lo == 11 then 0x0e56f0ff else
    if lo == 12 then 0x1011a0fa else if lo == 13 then 0x14d0bd4d else if lo == 14 then 0x19939b94 else
    0x1d528623
  }

  function CrcRow10(lo: bv8): bv32 {
    if lo == 0 then 0xf12f560e else if lo == 1 then 0xf5ee4bb9 else if lo == 2 then 0xf8ad6d60 else
    if lo == 3 then 0xfc6c70d7 else if lo == 4 then 0xe22b20d2 else if lo == 5 then 0xe6ea3d65 else
    if lo == 6 then 0xeba91bbc else if lo == 7 then 0xef68060b else if lo == 8 then 0xd727bbb6 else
    if lo == 9 then 0xd3e6a601 else if lo == 10 then 0xdea580d8 else if lo == 11 then 0xda649d6f else
    if lo == 12 then 0xc423cd6a else if lo == 13 then 0xc0e2d0dd else if lo == 14 then 0xcda1f604 else
    0xc960ebb3
  }

  function CrcRow11(lo: bv8): bv32 {
    if lo == 0 then 0xbd3e8d7e else if lo == 1 then 0xb9ff90c9 else if lo == 2 then 0xb4bcb610 else
    if lo == 3 then 0xb07daba7 else if lo == 4 then 0xae3afba2 else if lo == 5 then 0xaafbe615 else
    if lo == 6 then 0xa7b8c0cc else if lo == 7 then 0xa379dd7b else if lo == 8 then 0x9b3660c6 else
    if lo == 9 then 0x9ff77d71 else if lo == 10 then 0x92b45ba8 else if lo == 11 then 0x9675461f else
    if lo == 12 then 0x8832161a else if lo == 13 then 0x8cf30bad else if lo == 14 then 0x81b02d74 else
    0x857130c3
  }

  function CrcRow12(lo: bv8): bv32 {
    if lo == 0 then 0x5d8a9099 else if lo == 1 then 0x594b8d2e else if lo == 2 then 0x5408abf7 else
    if lo == 3 then 0x50c9b640 else if lo == 4 then 0x4e8ee645 else if lo == 5 then 0x4a4ffbf2 else
    if lo == 6 then 0x470cdd2b else if lo == 7 then 0x43cdc09c else if lo == 8 then 0x7b827d21 else
    if lo == 9 then 0x7f436096 else if lo == 10 then 0x7200464f else if lo == 11 then 0x76c15bf8 else
    if lo == 12 then 0x68860bfd else if lo == 13 then 0x6c47164a else if lo == 14 then 0x61043093 else
    0x65c52d24
  }

  function CrcRow13(lo: bv8): bv32 {
    if lo == 0 then 0x119b4be9 else if lo == 1 then 0x155a565e else if lo == 2 then 0x18197087 else
    if lo == 3 then 0x1cd86d30 else if lo == 4 then 0x029f3d35 else if lo == 5 then 0x065e2082 else
    if lo == 6 then 0x0b1d065b else if lo == 7 then 0x0fdc1bec else if lo == 8 then 0x3793a651 else
    if lo == 9 then 0x3352bbe6 else if lo == 10 then 0x3e119d3f else if lo == 11 then 0x3ad08088 else
    if lo == 12 then 0x2497d08d else if lo == 13 then 0x2056cd3a else if lo == 14 then 0x2d15ebe3 else
    0x29d4f654
  }

  function CrcRow14(lo: bv8): bv32 {
    if lo == 0 then 0xc5a92679 else if lo == 1 then 0xc1683bce else if lo == 2 then 0xcc2b1d17 else
    if lo == 3 then 0xc8ea00a0 else if lo == 4 then 0xd6ad50a5 else if lo == 5 then 0xd26c4d12 else
    if lo == 6 then 0xdf2f6bcb else if lo == 7 then 0xdbee767c else if lo == 8 then 0xe3a1cbc1 else
    if lo == 9 then 0xe760d676 else if lo == 10 then 0xea23f0af else if lo == 11 then 0xeee2ed18 else
    if lo == 12 then 0xf0a5bd1d else if lo == 13 then 0xf464a0aa else if lo == 14 then 0xf9278673 else
    0xfde69bc4
  }

  function CrcRow15(lo: bv8): bv32 {
    if lo == 0 then 0x89b8fd09 else if lo == 1 then 0x8d79e0be else if lo == 2 then 0x803ac667 else
    if lo == 3 then 0x84fbdbd0 else if lo == 4 then 0x9abc8bd5 else if lo == 5 then 0x9e7d9662 else
    if lo == 6 then 0x933eb0bb else if lo == 7 then 0x97ffad0c else if lo == 8 then 0xafb010b1 else
    if lo == 9 then 0xab710d06 else if lo == 10 then 0xa6322bdf else if lo == 11 then 0xa2f33668 else
    if lo == 12 then 0xbcb4666d else if lo == 13 then 0xb8757bda else if lo == 14 then 0xb5365d03 else
    0xb1f740b4
  }

  function Octet(b: byte): bv8 {
    b as bv8
  }

  function StepTable(reg: bv32, b: bv8): bv32 {
    (reg << 8) ^ CrcLookup(((reg >> 24) as bv8) ^ b)
  }

  /** The register after the table-driven loop over a run of octets. */
  function Crc(reg: bv32, s: seq<byte>): bv32 {
    if s == [] then reg else StepTable(Crc(reg, s[..|s| - 1]), Octet(s[|s| - 1]))
  }

  lemma {:induction false} CrcConcat(reg: bv32, s: seq<byte>, t: seq<byte>)
    ensures Crc(reg, s + t) == Crc(Crc(reg, s), t)
  {
    hide StepTable, Octet;
    if t == [] {
      assert s + t == s;
    } else {
      CrcConcat(reg, s, t[..|t| - 1]);
      assert (s + t)[..|s + t| - 1] == s + t[..|t| - 1];
    }
  }

  // ----- Division by the polynomial, one message bit at a time -----

  /** One step of the long division: shift the next message bit in, and subtract the divisor if it goes. */
  function CrcBit(reg: bv32, bit: bool): bv32 {
    if (reg & 0x80000000 != 0) != bit then (reg << 1) ^ POLYNOMIAL else reg << 1
  }

  function CrcBits(reg: bv32, bits: seq<bool>): bv32
    decreases |bits|
  {
    if bits == [] then reg else CrcBits(CrcBit(reg, bits[0]), bits[1..])
  }

  lemma {:induction false} CrcBitsConcat(reg: bv32, s: seq<bool>, t: seq<bool>)
    ensures CrcBits(reg, s + t) == CrcBits(CrcBits(reg, s), t)
    decreases |s|
  {
    hide CrcBit;
    if s == [] {
      assert s + t == t;
    } else {
      CrcBitsConcat(CrcBit(reg, s[0]), s[1..], t);
      assert (s + t)[1..] == s[1..] + t;
    }
  }

  function OctetBits(b: bv8): (bits: seq<bool>)
    ensures |bits| == 8
  {
    [b & 0x80 != 0, b & 0x40 != 0, b & 0x20 != 0, b & 0x10 != 0, b & 0x08 != 0, b & 0x04 != 0, b & 0x02 != 0, b & 0x01 != 0]
  }

  /** The bits of a message in transmission order: most significant bit of each octet first. */
  function Bits(s: seq<byte>): (bits: seq<bool>)
    ensures |bits| == 8 * |s|
  {
    if s == [] then [] else Bits(s[..|s| - 1]) + OctetBits(Octet(s[|s| - 1]))
  }

  lemma {:induction false} BitsConcat(s: seq<byte>, t: seq<byte>)
    ensures Bits(s + t) == Bits(s) + Bits(t)
  {
    hide OctetBits, Octet;
    if t == [] {
      assert s + t == s;
    } else {
      BitsConcat(s, t[..|t| - 1]);
      assert (s + t)[..|s + t| - 1] == s + t[..|t| - 1];
    }
  }

  // ----- Register arithmetic over GF(2) -----

  function Plus(r: bv32, s: bv32): bv32 { r ^ s }

  function Half(r: bv32): bv32 { r >> 1 }

  function Top(bit: bool): bv32 { if bit then 0x80000000 else 0 }

  predicate Even(r: bv32) { r & 1 == 0 }

  predicate Disjoint(r: bv32, f: bv32) { r & f == 0 }

  /** The ones of r are its low-order positions. */
  predicate LowOnes(r: bv32) { r & (r + 1) == 0 }

  lemma StepIsLinear(r: bv32, s: bv32, a: bool, b: bool)
    ensures CrcBit(Plus(r, s), a != b) == Plus(CrcBit(r, a), CrcBit(s, b))
  {
    hide Plus, Double, Carry;
    StepByCarry(Plus(r, s), a != b);
    StepByCarry(r, a);
    StepByCarry(s, b);
    DoubleOfPlus(r, s);
    PlusWithPolynomial(Double(r), Double(s));
  }

  function Double(r: bv32): bv32 { r << 1 }

  predicate Carry(r: bv32) { r & 0x80000000 != 0 }

  lemma StepByCarry(r: bv32, bit: bool)
    ensures CrcBit(r, bit) == if Carry(r) != bit then Plus(Double(r), POLYNOMIAL) else Double(r)
  {
  }

  lemma DoubleOfPlus(r: bv32, s: bv32)
    ensures Double(Plus(r, s)) == Plus(Double(r), Double(s))
    ensures Carry(Plus(r, s)) == (Carry(r) != Carry(s))
  {
    DoubleOfXor(r, s);
  }

  lemma DoubleOfXor(r: bv32, s: bv32)
    ensures (r ^ s) << 1 == (r << 1) ^ (s << 1)
    ensures ((r ^ s) & 0x80000000 != 0) == ((r & 0x80000000 != 0) != (s & 0x80000000 != 0))
  {
  }

  lemma PlusWithPolynomial(u: bv32, v: bv32)
    ensures Plus(Plus(u, POLYNOMIAL), v) == Plus(Plus(u, v), POLYNOMIAL)
    ensures Plus(u, Plus(v, POLYNOMIAL)) == Plus(Plus(u, v), POLYNOMIAL)
    ensures Plus(Plus(u, POLYNOMIAL), Plus(v, POLYNOMIAL)) == Plus(u, v)
  {
    hide Plus;
    var p := POLYNOMIAL;
    PlusAssociates(u, p, v);
    PlusCommutes(p, v);
    PlusAssociates(u, v, p);
    PlusAssociates(Plus(u, p), v, p);
    PlusAssociates(Plus(u, v), p, p);
    PlusZero(p);
    PlusZero(Plus(u, v));
  }

  lemma PlusAssociates(r: bv32, s: bv32, t: bv32)
    ensures Plus(Plus(r, s), t) == Plus(r, Plus(s, t))
  {
  }

  lemma PlusCommutes(r: bv32, s: bv32)
    ensures Plus(r, s) == Plus(s, r)
  {
  }

  lemma PlusZero(r: bv32)
    ensures Plus(r, 0) == r && Plus(0, r) == r && Plus(r, r) == 0
  {
  }

  lemma StepKeepsNonzero(r: bv32)
    ensures CrcBit(r, false) == 0 <==> r == 0
  {
  }

  lemma HalfKeepsDisjoint(r: bv32, f: bv32, bit: bool)
    requires Disjoint(r, f)
    ensures Disjoint(Plus(Top(bit), Half(r)), Half(f))
  {
  }

  lemma HalfKeepsLowOnes(r: bv32)
    requires LowOnes(r)
    ensures LowOnes(Half(r))
  {
  }

  lemma DisjointFromLowOnes(r: bv32, f: bv32)
    requires Disjoint(r, f) && LowOnes(f) && f != 0
    ensures Even(r)
  {
  }

  lemma StepOfLoaded(r: bv32, l: bv32, bit: bool)
    requires Even(l)
    ensures CrcBit(Plus(r, Plus(Top(bit), Half(l))), false) == Plus(CrcBit(r, bit), l)
  {
    hide CrcBit, Plus, Top, Half, Even;
    StepIsLinear(r, Plus(Top(bit), Half(l)), bit, bit);
    StepOfTop(l, bit);
  }

  lemma StepOfTop(l: bv32, bit: bool)
    requires Even(l)
    ensures CrcBit(Plus(Top(bit), Half(l)), bit) == l
  {
    hide CrcBit, Plus, Top, Half, Even;
    if bit {
      StepOfTopSet(l);
    } else {
      StepOfTopClear(l);
    }
  }

  lemma StepOfTopSet(l: bv32)
    requires Even(l)
    ensures CrcBit(Plus(Top(true), Half(l)), true) == l
  {
  }

  lemma StepOfTopClear(l: bv32)
    requires Even(l)
    ensures CrcBit(Plus(Top(false), Half(l)), false) == l
  {
  }

  lemma TopAndHalfOfZero(l: bv32, bit: bool)
    requires Even(l) && Plus(Top(bit), Half(l)) == 0
    ensures !bit && l == 0
  {
  }

  // ----- Up to 32 message bits at once -----

  ghost predicate Quiet(bits: seq<bool>) {
    forall i :: 0 <= i < |bits| ==> !bits[i]
  }

  lemma {:induction false} QuietKeeps(reg: bv32, z: seq<bool>)
    requires Quiet(z)
    ensures CrcBits(reg, z) == 0 <==> reg == 0
    decreases |z|
  {
    hide CrcBit;
    if z != [] {
      StepKeepsNonzero(reg);
      QuietKeeps(CrcBit(reg, false), z[1..]);
    }
  }

  /** Up to 32 message bits as a word, the first bit at the top. */
  function Load(bits: seq<bool>): bv32 {
    if bits == [] then 0 else Plus(Top(bits[0]), Half(Load(bits[1..])))
  }

  /** The word positions that n message bits leave free. */
  function Free(n: nat): bv32 {
    if n == 0 then 0xffffffff else Half(Free(n - 1))
  }

  lemma {:induction false} FreeIsLowOnes(n: nat)
    ensures LowOnes(Free(n))
  {
    hide LowOnes, Half;
    if n > 0 {
      FreeIsLowOnes(n - 1);
      HalfKeepsLowOnes(Free(n - 1));
    } else {
      assert LowOnes(0xffffffff) by { AllOnes(); }
    }
  }

  lemma AllOnes()
    ensures LowOnes(0xffffffff) && Half(0) == 0
  {
  }

  lemma {:induction false} FreeIsNotEmpty(n: nat)
    requires n <= 31
    ensures Free(n) != 0
    decreases 31 - n
  {
    hide Half;
    if n == 31 {
      LastFree();
    } else {
      FreeIsNotEmpty(n + 1);
      AllOnes();
    }
  }

  lemma LastFree()
    ensures Free(31) == 1
  {
    assert Free(8) == 0x00ffffff;
    assert Free(16) == 0x0000ffff;
    assert Free(24) == 0x000000ff;
  }

  lemma {:induction false} LoadLeavesFree(bits: seq<bool>)
    ensures Disjoint(Load(bits), Free(|bits|))
  {
    hide Disjoint, Half, Top, Plus;
    if bits == [] {
      assert Disjoint(0, 0xffffffff) by { ZeroIsDisjoint(); }
    } else {
      LoadLeavesFree(bits[1..]);
      HalfKeepsDisjoint(Load(bits[1..]), Free(|bits| - 1), bits[0]);
    }
  }

  lemma ZeroIsDisjoint()
    ensures Disjoint(0, 0xffffffff)
  {
  }

  lemma LoadIsEven(bits: seq<bool>)
    requires |bits| <= 31
    ensures Even(Load(bits))
  {
    hide *;
    LoadLeavesFree(bits);
    FreeIsLowOnes(|bits|);
    FreeIsNotEmpty(|bits|);
    DisjointFromLowOnes(Load(bits), Free(|bits|));
  }

  lemma {:induction false} LoadedNothing(bits: seq<bool>)
    requires |bits| <= 32 && Load(bits) == 0
    ensures Quiet(bits)
  {
    hide Even, Half, Top, Plus;
    if bits != [] {
      LoadIsEven(bits[1..]);
      TopAndHalfOfZero(Load(bits[1..]), bits[0]);
      LoadedNothing(bits[1..]);
      forall i | 0 <= i < |bits| ensures !bits[i] {
        assert i > 0 ==> bits[i] == bits[1..][i - 1];
      }
    }
  }

  /** Feeding at most 32 bits is the same as loading them into the register and then clocking in zeros. */
  lemma {:induction false} FeedIsLoadThenShift(reg: bv32, bits: seq<bool>, z: seq<bool>)
    requires |bits| <= 32 && |z| == |bits| && Quiet(z)
    ensures CrcBits(reg, bits) == CrcBits(Plus(reg, Load(bits)), z)
    decreases |bits|
  {
    hide CrcBit, Even, Half, Top, Plus;
    if bits == [] {
      PlusZero(reg);
    } else {
      FeedIsLoadThenShift(CrcBit(reg, bits[0]), bits[1..], z[1..]);
      LoadIsEven(bits[1..]);
      StepOfLoaded(reg, Load(bits[1..]), bits[0]);
    }
  }

  // ----- The table -----

  function Shift2(r: bv32): bv32 { CrcBit(CrcBit(r, false), false) }

  function Shift8(r: bv32): bv32 { Shift2(Shift2(Shift2(Shift2(r)))) }

  /** Every one of the 256 table constants is the remainder its index calls for. */
  lemma TableEntry(index: bv8)
    ensures CrcLookup(index) == Shift8(High(index))
  {
    hide CrcLookup, Shift8, High;
    if index < 64 {
      FirstQuarter(index);
    } else if index < 128 {
      SecondQuarter(index);
    } else if index < 192 {
      ThirdQuarter(index);
    } else {
      LastQuarter(index);
    }
  }

  lemma FirstQuarter(index: bv8)
    requires index < 64
    ensures CrcLookup(index) == Shift8(High(index))
  {
  }

  lemma SecondQuarter(index: bv8)
    requires 64 <= index < 128
    ensures CrcLookup(index) == Shift8(High(index))
  {
  }

  lemma ThirdQuarter(index: bv8)
    requires 128 <= index < 192
    ensures CrcLookup(index) == Shift8(High(index))
  {
  }

  lemma LastQuarter(index: bv8)
    requires 192 <= index
    ensures CrcLookup(index) == Shift8(High(index))
  {
  }

  lemma {:induction false} TwoZeros(reg: bv32, z: seq<bool>)
    requires |z| >= 2 && Quiet(z)
    ensures CrcBits(reg, z) == CrcBits(Shift2(reg), z[2..])
  {
    hide CrcBit;
    assert z[1..][1..] == z[2..];
  }

  lemma EightZeros(reg: bv32, z: seq<bool>)
    requires |z| == 8 && Quiet(z)
    ensures CrcBits(reg, z) == Shift8(reg)
  {
    hide Shift2;
    var r2 := Shift2(reg);
    var r4 := Shift2(r2);
    var r6 := Shift2(r4);
    TwoZeros(reg, z);
    TwoZeros(r2, z[2..]);
    TwoZeros(r4, z[4..]);
    TwoZeros(r6, z[6..]);
    assert z[2..][2..] == z[4..];
    assert z[4..][2..] == z[6..];
    assert z[6..][2..] == [];
  }

  lemma LoadOctet(b: bv8)
    ensures Load(OctetBits(b)) == High(b)
  {
    var o := OctetBits(b);
    LoadEight(o);
    LoadedOctet(b);
  }

  lemma LoadEight(o: seq<bool>)
    requires |o| == 8
    ensures Load(o) == LoadPair(o[0], o[1], LoadPair(o[2], o[3], LoadPair(o[4], o[5], LoadPair(o[6], o[7], 0))))
  {
    hide Plus, Half, Top;
    LoadTwo(o);
    LoadTwo(o[2..]);
    LoadTwo(o[4..]);
    LoadTwo(o[6..]);
    assert o[2..][2..] == o[4..];
    assert o[4..][2..] == o[6..];
    assert o[6..][2..] == [];
  }

  function LoadPair(a: bool, b: bool, l: bv32): bv32 {
    Plus(Top(a), Half(Plus(Top(b), Half(l))))
  }

  lemma LoadTwo(o: seq<bool>)
    requires |o| >= 2
    ensures Load(o) == LoadPair(o[0], o[1], Load(o[2..]))
  {
    hide Plus, Half, Top;
    assert o[1..][1..] == o[2..];
  }

  lemma LoadedOctet(b: bv8)
    ensures LoadPair(b & 0x80 != 0, b & 0x40 != 0, LoadPair(b & 0x20 != 0, b & 0x10 != 0,
            LoadPair(b & 0x08 != 0, b & 0x04 != 0, LoadPair(b & 0x02 != 0, b & 0x01 != 0, 0)))) == (b as bv32) << 24
  {
  }

  lemma Shift2OfPlus(u: bv32, v: bv32)
    ensures Shift2(Plus(u, v)) == Plus(Shift2(u), Shift2(v))
  {
    hide CrcBit, Plus;
    StepIsLinear(u, v, false, false);
    StepIsLinear(CrcBit(u, false), CrcBit(v, false), false, false);
  }

  lemma Shift8OfPlus(u: bv32, v: bv32)
    ensures Shift8(Plus(u, v)) == Plus(Shift8(u), Shift8(v))
  {
    hide Shift2, Plus;
    Shift2OfPlus(u, v);
    Shift2OfPlus(Shift2(u), Shift2(v));
    Shift2OfPlus(Shift2(Shift2(u)), Shift2(Shift2(v)));
    Shift2OfPlus(Shift2(Shift2(Shift2(u))), Shift2(Shift2(Shift2(v))));
  }

  lemma Shift8OfLow24(reg: bv32)
    ensures Shift8(Low24(reg)) == Up8(reg)
  {
  }

  lemma SplitOctet(reg: bv32, b: bv8)
    ensures Plus(High(Index(reg, b)), Low24(reg)) == Plus(reg, High(b))
  {
    hide Plus, High, Low24;
    HighOfIndex(reg, b);
    PlusAssociates(High(b), High((reg >> 24) as bv8), Low24(reg));
    PlusCommutes(High(b), High((reg >> 24) as bv8));
    HighAndLow(reg);
    PlusCommutes(High(b), reg);
  }

  lemma HighOfIndex(reg: bv32, b: bv8)
    ensures High(Index(reg, b)) == Plus(High((reg >> 24) as bv8), High(b))
  {
  }

  lemma HighAndLow(reg: bv32)
    ensures Plus(High((reg >> 24) as bv8), Low24(reg)) == reg
  {
  }

  lemma TableStep(reg: bv32, b: bv8)
    ensures StepTable(reg, b) == Shift8(Plus(reg, High(b)))
  {
    hide CrcLookup, Shift8, Plus, High, Low24, Up8, Index;
    var index := Index(reg, b);
    StepTableParts(reg, b);
    TableEntry(index);
    Shift8OfPlus(High(index), Low24(reg));
    Shift8OfLow24(reg);
    SplitOctet(reg, b);
    PlusCommutes(Up8(reg), Shift8(High(index)));
  }

  function Index(reg: bv32, b: bv8): bv8 { ((reg >> 24) as bv8) ^ b }

  function High(b: bv8): bv32 { (b as bv32) << 24 }

  function Low24(reg: bv32): bv32 { reg & 0x00ffffff }

  function Up8(reg: bv32): bv32 { reg << 8 }

  lemma StepTableParts(reg: bv32, b: bv8)
    ensures StepTable(reg, b) == Plus(Up8(reg), CrcLookup(Index(reg, b)))
  {
    hide CrcLookup;
  }

  lemma OctetStep(reg: bv32, b: bv8)
    ensures StepTable(reg, b) == CrcBits(reg, OctetBits(b))
  {
    hide StepTable, OctetBits, CrcBits, Shift8, Plus, Load, High;
    TableStep(reg, b);
    LoadOctet(b);
    var z := seq(8, _ => false);
    FeedIsLoadThenShift(reg, OctetBits(b), z);
    EightZeros(Plus(reg, Load(OctetBits(b))), z);
  }

  /** The table-driven loop is the bit-by-bit division, for every message and starting register. */
  lemma {:induction false} TableLoopIsDivision(reg: bv32, s: seq<byte>)
    ensures Crc(reg, s) == CrcBits(reg, Bits(s))
  {
    hide StepTable, CrcBit, OctetBits, Octet;
    if s != [] {
      var init, last := s[..|s| - 1], s[|s| - 1];
      TableLoopIsDivision(reg, init);
      OctetStep(Crc(reg, init), Octet(last));
      CrcBitsConcat(reg, Bits(init), OctetBits(Octet(last)));
    }
  }

  // ----- Linearity and bursts -----

  function Xor(a: seq<bool>, b: seq<bool>): (c: seq<bool>)
    requires |a| == |b|
    ensures |c| == |a| && forall i :: 0 <= i < |a| ==> c[i] == (a[i] != b[i])
  {
    seq(|a|, i requires 0 <= i < |a| => a[i] != b[i])
  }

  /** The CRC of the XOR of two equally long messages is the XOR of their CRCs. */
  lemma {:induction false} Linear(r: bv32, s: bv32, a: seq<bool>, b: seq<bool>)
    requires |a| == |b|
    ensures CrcBits(Plus(r, s), Xor(a, b)) == Plus(CrcBits(r, a), CrcBits(s, b))
    decreases |a|
  {
    hide CrcBit, Plus;
    if a != [] {
      StepIsLinear(r, s, a[0], b[0]);
      Linear(CrcBit(r, a[0]), CrcBit(s, b[0]), a[1..], b[1..]);
      assert Xor(a, b)[1..] == Xor(a[1..], b[1..]);
    }
  }

  /** A message that is zero outside a window of 32 bits, and not inside, has a nonzero CRC. */
  lemma BurstLeavesTrace(head: seq<bool>, burst: seq<bool>, tail: seq<bool>)
    requires Quiet(head) && Quiet(tail) && |burst| <= 32
    ensures CrcBits(0, head + (burst + tail)) == 0 ==> Quiet(burst)
  {
    hide CrcBits, Load, Plus;
    CrcBitsConcat(0, head, burst + tail);
    CrcBitsConcat(CrcBits(0, head), burst, tail);
    QuietKeeps(0, head);
    QuietKeeps(CrcBits(0, burst), tail);
    var z := seq(|burst|, _ => false);
    FeedIsLoadThenShift(0, burst, z);
    PlusZero(Load(burst));
    QuietKeeps(Load(burst), z);
    if Load(burst) == 0 {
      LoadedNothing(burst);
    }
  }

  /** Two bit messages of one length that agree outside a window of 32 bits and have one CRC are equal. */
  lemma BurstChangesBits(a: seq<bool>, b: seq<bool>, start: nat)
    requires |a| == |b|
    requires forall i :: 0 <= i < |a| && !(start <= i < start + 32) ==> a[i] == b[i]
    ensures CrcBits(0, a) == CrcBits(0, b) ==> a == b
  {
    hide CrcBits, Plus;
    var d := Xor(a, b);
    var lo := if start <= |d| then start else |d|;
    var hi := if lo + 32 <= |d| then lo + 32 else |d|;
    var head, burst, tail := d[..lo], d[lo..hi], d[hi..];
    assert d == head + (burst + tail);
    BurstLeavesTrace(head, burst, tail);
    PlusZero(0);
    PlusZero(CrcBits(0, b));
    Linear(0, 0, a, b);
    if Quiet(burst) {
      forall i | 0 <= i < |a| ensures a[i] == b[i] {
        assert lo <= i < hi ==> d[i] == burst[i - lo];
      }
    }
  }

  // ----- A known value -----

  lemma OneOctetMore(s: seq<byte>, b: byte, before: bv32, after: bv32) returns (t: seq<byte>)
    requires Crc(0, s) == before && StepTable(before, Octet(b)) == after
    ensures t == s + [b] && Crc(0, t) == after
  {
    hide StepTable, Octet;
    t := s + [b];
    assert t[..|s|] == s;
  }

  lemma StepAt(before: bv32, b: byte, index: bv8)
    requires index == Index(before, Octet(b))
    ensures StepTable(before, Octet(b)) == (before << 8) ^ CrcLookup(index)
  {
    hide CrcLookup;
  }

  lemma FirstDigits()
    ensures StepTable(0x00000000, Octet(0x31)) == 0xd0f37027
    ensures StepTable(0xd0f37027, Octet(0x32)) == 0x3f5b3a17
    ensures StepTable(0x3f5b3a17, Octet(0x33)) == 0x6e368c64
  {
    hide StepTable;
    StepAt(0x00000000, 0x31, 0x31);
    StepAt(0xd0f37027, 0x32, 0xe2);
    StepAt(0x3f5b3a17, 0x33, 0x0c);
  }

  lemma MiddleDigits()
    ensures StepTable(0x6e368c64, Octet(0x34)) == 0x619119d1
    ensures StepTable(0x619119d1, Octet(0x35)) == 0xfa8a0cdb
    ensures StepTable(0xfa8a0cdb, Octet(0x36)) == 0xe28ad0fd
  {
    hide StepTable;
    StepAt(0x6e368c64, 0x34, 0x5a);
    StepAt(0x619119d1, 0x35, 0x54);
    StepAt(0xfa8a0cdb, 0x36, 0xcc);
  }

  lemma LastDigits()
    ensures StepTable(0xe28ad0fd, Octet(0x37)) == 0x8c8edd82
    ensures StepTable(0x8c8edd82, Octet(0x38)) == 0x20e779a2
    ensures StepTable(0x20e779a2, Octet(0x39)) == 0x89a1897f
  {
    hide StepTable;
    StepAt(0xe28ad0fd, 0x37, 0xd5);
    StepAt(0x8c8edd82, 0x38, 0xb4);
    StepAt(0x20e779a2, 0x39, 0x19);
  }

  /** The published check value of the algorithm, of the digits "123456789". */
  lemma CheckValue()
    ensures Crc(0, [0x31, 0x32, 0x33, 0x34, 0x35, 0x36, 0x37, 0x38, 0x39]) == 0x89a1897f
  {
    hide StepTable, Octet;
    FirstDigits();
    MiddleDigits();
    LastDigits();
    var s: seq<byte> := [];
    s := OneOctetMore(s, 0x31, 0x00000000, 0xd0f37027);
    s := OneOctetMore(s, 0x32, 0xd0f37027, 0x3f5b3a17);
    s := OneOctetMore(s, 0x33, 0x3f5b3a17, 0x6e368c64);
    s := OneOctetMore(s, 0x34, 0x6e368c64, 0x619119d1);
    s := OneOctetMore(s, 0x35, 0x619119d1, 0xfa8a0cdb);
    s := OneOctetMore(s, 0x36, 0xfa8a0cdb, 0xe28ad0fd);
    s := OneOctetMore(s, 0x37, 0xe28ad0fd, 0x8c8edd82);
    s := OneOctetMore(s, 0x38, 0x8c8edd82, 0x20e779a2);
    s := OneOctetMore(s, 0x39, 0x20e779a2, 0x89a1897f);
    assert s == [0x31, 0x32, 0x33, 0x34, 0x35, 0x36, 0x37, 0x38, 0x39];
  }

  // ----- The checksum of a page -----

  /** The octets the checksum is computed over: the page with its own checksum field cleared. */
  function WithoutField(page: seq<byte>): (z: seq<byte>)
    requires |page| >= 26
    ensures |z| == |page|
  {
    page[..22] + [0, 0, 0, 0] + page[26..]
  }

  function PageCrc(page: seq<byte>): bv32
    requires |page| >= 26
  {
    Crc(0, WithoutField(page))
  }

  lemma BitsOfThree(a: seq<byte>, b: seq<byte>, c: seq<byte>)
    ensures Bits(a + b + c) == Bits(a) + Bits(b) + Bits(c)
  {
    hide Bits;
    BitsConcat(a + b, c);
    BitsConcat(a, b);
  }

  lemma SplitAtField(page: seq<byte>)
    requires |page| >= 26
    ensures Bits(page) == Bits(page[..22]) + Bits(page[22..26]) + Bits(page[26..])
    ensures Bits(WithoutField(page)) == Bits(page[..22]) + Bits([0, 0, 0, 0]) + Bits(page[26..])
  {
    hide Bits;
    BitsOfThree(page[..22], page[22..26], page[26..]);
    BitsOfThree(page[..22], [0, 0, 0, 0], page[26..]);
    Seqs.ThreeParts(page, 22, 26);
  }

  /** Two pages of one length that differ, but only within 32 consecutive bits outside the checksum field,
      have different checksums. */
  lemma BurstIsDetected(p: seq<byte>, q: seq<byte>, start: nat)
    requires |p| == |q| >= 26
    requires p[22..26] == q[22..26]
    requires Bits(p) != Bits(q)
    requires forall i :: 0 <= i < 8 * |p| && !(start <= i < start + 32) ==> Bits(p)[i] == Bits(q)[i]
    ensures PageCrc(p) != PageCrc(q)
  {
    hide Bits, Crc;
    var a, b := WithoutField(p), WithoutField(q);
    SplitAtField(p);
    SplitAtField(q);
    forall i | 0 <= i < 8 * |p| && !(start <= i < start + 32) ensures Bits(a)[i] == Bits(b)[i] {
      assert Bits(p)[i] == Bits(q)[i];
    }
    BurstChangesBits(Bits(a), Bits(b), start);
    TableLoopIsDivision(0, a);
    TableLoopIsDivision(0, b);
    SameParts(Bits(p[..22]), Bits([0, 0, 0, 0]), Bits(p[26..]), Bits(q[..22]), Bits(q[26..]));
  }

  lemma SameParts(p1: seq<bool>, mid: seq<bool>, p2: seq<bool>, q1: seq<bool>, q2: seq<bool>)
    requires |p1| == |q1| && |p2| == |q2|
    ensures p1 + mid + p2 == q1 + mid + q2 ==> p1 == q1 && p2 == q2
  {
    var p, q := p1 + mid + p2, q1 + mid + q2;
    assert p1 == p[..|p1|] && q1 == q[..|p1|];
    assert p2 == p[|p1 + mid|..] && q2 == q[|p1 + mid|..];
  }

  // ----- The checksum field -----

  /** The four octets stored in the header, least significant first. */
  function FieldOctets(reg: bv32): (s: seq<byte>)
    ensures |s| == 4
  {
    [(reg & 0xff) as bv8 as byte, ((reg >> 8) & 0xff) as bv8 as byte,
     ((reg >> 16) & 0xff) as bv8 as byte, ((reg >> 24) & 0xff) as bv8 as byte]
  }

  /** The stored octets, least significant first, are the register as a number. */
  lemma FieldIsRegister(reg: bv32)
    ensures Unsigned(FieldOctets(reg)) == reg as int
  {
    var a, b, c, d := (reg & 0xff) as bv8, ((reg >> 8) & 0xff) as bv8, ((reg >> 16) & 0xff) as bv8, ((reg >> 24) & 0xff) as bv8;
    RegisterOfOctets(reg, a, b, c, d);
    NumberOfOctets(a, b, c, d);
    UnsignedOfFour(a as byte, b as byte, c as byte, d as byte);
  }

  lemma RegisterOfOctets(reg: bv32, a: bv8, b: bv8, c: bv8, d: bv8)
    requires a == (reg & 0xff) as bv8 && b == ((reg >> 8) & 0xff) as bv8
    requires c == ((reg >> 16) & 0xff) as bv8 && d == ((reg >> 24) & 0xff) as bv8
    ensures reg == ((d as bv32) << 24) | ((c as bv32) << 16) | ((b as bv32) << 8) | (a as bv32)
  {
  }

  lemma NumberOfOctets(a: bv8, b: bv8, c: bv8, d: bv8)
    ensures (((d as bv32) << 24) | ((c as bv32) << 16) | ((b as bv32) << 8) | (a as bv32)) as int
         == a as int + 0x100 * b as int + 0x1_0000 * c as int + 0x100_0000 * d as int
  {
  }

  lemma UnsignedOfFour(a: byte, b: byte, c: byte, d: byte)
    ensures Unsigned([a, b, c, d]) == a + 0x100 * b + 0x1_0000 * c + 0x100_0000 * d
  {
    hide Unsigned;
    NothingIsZero();
    assert [d] + [] == [d] && [c] + [d] == [c, d] && [b] + [c, d] == [b, c, d] && [a] + [b, c, d] == [a, b, c, d];
    UnsignedOfMore(d, []);
    UnsignedOfMore(c, [d]);
    UnsignedOfMore(b, [c, d]);
    UnsignedOfMore(a, [b, c, d]);
  }

  lemma NothingIsZero()
    ensures Unsigned([]) == 0
  {
  }

  lemma UnsignedOfMore(x: byte, s: seq<byte>)
    ensures Unsigned([x] + s) == x + 256 * Unsigned(s)
  {
    assert ([x] + s)[1..] == s;
  }

  /** What is stored in a page is the division of the page with a zero field, as a little-endian number. */
  lemma StoredIsDivision(page: seq<byte>)
    requires |page| >= 26
    ensures Unsigned(FieldOctets(PageCrc(page))) == CrcBits(0, Bits(page[..22] + [0, 0, 0, 0] + page[26..])) as int
  {
    hide FieldOctets, Crc, CrcBits, Bits, Unsigned;
    FieldIsRegister(PageCrc(page));
    TableLoopIsDivision(0, WithoutField(page));
  }

  /** Comparing the four stored octets is comparing the whole registers. */
  lemma FieldIdentifiesRegister(r: bv32, s: bv32)
    requires FieldOctets(r) == FieldOctets(s)
    ensures r == s
  {
    assert FieldOctets(r)[0] == FieldOctets(s)[0];
    assert FieldOctets(r)[1] == FieldOctets(s)[1];
    assert FieldOctets(r)[2] == FieldOctets(s)[2];
    assert FieldOctets(r)[3] == FieldOctets(s)[3];
    SameOctet((r & 0xff) as bv8, (s & 0xff) as bv8);
    SameOctet(((r >> 8) & 0xff) as bv8, ((s >> 8) & 0xff) as bv8);
    SameOctet(((r >> 16) & 0xff) as bv8, ((s >> 16) & 0xff) as bv8);
    SameOctet(((r >> 24) & 0xff) as bv8, ((s >> 24) & 0xff) as bv8);
  }

  lemma SameOctet(x: bv8, y: bv8)
    requires x as int == y as int
    ensures x == y
  {
    assert x as int as bv8 == y as int as bv8;
  }
}
