/** Base64: the printing code of SBuffer, as section 4 of RFC 4648 has it but for what it reads past the end of its
    input. */
module Base64 {
  import opened Bytes
  import opened BitOps

  const MAXVAL := 63

  /** The table six2pr. */
  function Six(v: nat): char
    requires v <= MAXVAL
  {
    if v < 26 then ('A' as int + v) as char
    else if v < 52 then ('a' as int + (v - 26)) as char
    else if v < 62 then ('0' as int + (v - 52)) as char
    else if v == 62 then '+' else '/'
  }

  /** The table pr2six: the value a character stands for, or 64. */
  function Index(c: char): (v: nat)
    ensures v <= MAXVAL + 1
    ensures v <= MAXVAL ==> Six(v) == c
  {
    if 'A' <= c <= 'Z' then c as int - 'A' as int
    else if 'a' <= c <= 'z' then c as int - 'a' as int + 26
    else if '0' <= c <= '9' then c as int - '0' as int + 52
    else if c == '+' then 62
    else if c == '/' then 63
    else MAXVAL + 1
  }

  lemma IndexOfSix(v: nat)
    requires v <= MAXVAL
    ensures Index(Six(v)) == v
  {
  }

  /** The alphabet of section 4 of RFC 4648: capitals, small letters, digits, plus and slash; what is not in it is 64. */
  lemma AlphabetIs()
    ensures Six(0) == 'A' && Six(25) == 'Z' && Six(26) == 'a' && Six(51) == 'z' && Six(52) == '0' && Six(61) == '9'
    ensures Six(62) == '+' && Six(63) == '/'
    ensures forall v :: 0 <= v < 62 && v != 25 && v != 51 && v != 61 ==> Six(v + 1) as int == Six(v) as int + 1
    ensures forall c :: Index(c) != 64 <==> exists v: nat :: v < 64 && Six(v) == c
  {
    forall c ensures Index(c) != 64 <==> exists v: nat :: v < 64 && Six(v) == c {
      InAlphabet(c);
    }
  }

  lemma InAlphabet(c: char)
    ensures Index(c) != 64 <==> exists v: nat :: v < 64 && Six(v) == c
  {
    var index := Index(c);
    if index < 64 {
      assert Six(index) == c;
    }
    forall v: nat | v < 64 ensures Index(Six(v)) == v {
      IndexOfSix(v);
    }
  }

  // ----- Groups -----

  /** The four values of a group of three octets. */
  function Values(a: byte, b: byte, c: byte): (v: seq<nat>)
    ensures |v| == 4 && forall i :: 0 <= i < 4 ==> v[i] <= MAXVAL
  {
    [a / 4, a % 4 * 16 + b / 16, b % 16 * 4 + c / 64, c % 64]
  }

  /** The shifts and masks that make them. */
  lemma ValuesInDigits(a: byte, b: byte, c: byte)
    ensures Shr(a, 2) == a / 4 && Or(Shl(Low(a, 2), 4), Shr(b, 4)) == a % 4 * 16 + b / 16
    ensures Or(Shl(Low(b, 4), 2), Shr(c, 6)) == b % 16 * 4 + c / 64 && Low(c, 6) == c % 64
  {
    hide Or, Shl, Shr, Low;
    SmallPowers();
    ShrDivides(a);
    ShrDivides(b);
    ShrDivides(c);
    LowIsMod(a, 2);
    LowIsMod(b, 4);
    LowIsMod(c, 6);
    OrOfDisjoint(a % 4, 4, b / 16);
    OrOfDisjoint(b % 16, 2, c / 64);
  }

  function Group(a: byte, b: byte, c: byte): (g: string)
    ensures |g| == 4
  {
    var v := Values(a, b, c);
    [Six(v[0]), Six(v[1]), Six(v[2]), Six(v[3])]
  }

  /** The three octets the decoder makes of four values, each masked to 8 bits; a value may also be 64. */
  function Octets(d: seq<nat>): (o: seq<byte>)
    requires |d| == 4
    ensures |o| == 3
  {
    EightBits();
    [Low(Or(Shl(d[0], 2), Shr(d[1], 4)), 8), Low(Or(Shl(d[1], 4), Shr(d[2], 2)), 8), Low(Or(Shl(d[2], 6), d[3]), 8)]
  }

  function Ungroup(g: string): (o: seq<byte>)
    requires |g| == 4
    ensures |o| == 3
  {
    Octets([Index(g[0]), Index(g[1]), Index(g[2]), Index(g[3])])
  }

  /** A group is one number of 24 bits, in base 256 and in base 64. */
  lemma GroupIsOneNumber(a: byte, b: byte, c: byte)
    ensures var v := Values(a, b, c);
            0x40000 * v[0] + 0x1000 * v[1] + 0x40 * v[2] + v[3] == 0x10000 * a + 0x100 * b + c
  {
  }

  lemma {:induction false} OrOfDisjoint(x: nat, k: nat, y: nat)
    requires y < Pow2(k)
    ensures Or(Shl(x, k), y) == x * Pow2(k) + y
    decreases k
  {
    ShlDoubles(x, k);
    if k == 0 {
      OrZero(x);
    } else {
      OrOfDisjoint(x, k - 1, y / 2);
      if x > 0 || y > 0 {
        OrUnfolds(Shl(x, k), y);
      }
      TimesDouble(x, Pow2(k - 1));
    }
  }

  lemma {:induction false} ShlDoubles(x: nat, k: nat)
    ensures k > 0 ==> Shl(x, k) == 2 * Shl(x, k - 1)
    ensures x > 0 ==> Shl(x, k) > 0
    decreases k
  {
    if k > 0 {
      ShlDoubles(2 * x, k - 1);
      ShlDoubles(x, k - 1);
    }
  }

  lemma OrUnfolds(x: nat, y: nat)
    ensures Or(x, y) == (if x % 2 == 1 || y % 2 == 1 then 1 else 0) + 2 * Or(x / 2, y / 2)
  {
  }

  lemma TimesDouble(x: nat, p: nat)
    ensures 2 * (x * p) == x * (2 * p)
  {
  }

  lemma ShrDivides(x: nat)
    ensures Shr(x, 2) == x / 4 && Shr(x, 4) == x / 16 && Shr(x, 6) == x / 64
  {
    ShrIsDivision(x, 2);
    ShrIsDivision(x, 4);
    ShrIsDivision(x, 6);
    SmallPowers();
  }

  lemma {:induction false} ShrIsDivision(x: nat, k: nat)
    ensures Shr(x, k) == x / Pow2(k)
    decreases k
  {
    if k > 0 {
      ShrIsDivision(x / 2, k - 1);
      DivideTwice(x, 2, Pow2(k - 1));
    }
  }

  /** What is decoded of a group is what was encoded; a missing last value leaves the first two octets, and a missing
      third one the first, whatever stands there instead. */
  lemma GroupComesBack(a: byte, b: byte, c: byte, x: char, y: char)
    ensures Ungroup(Group(a, b, c)) == [a, b, c]
    ensures Ungroup(Group(a, b, c)[..3] + [x])[..2] == [a, b]
    ensures Ungroup(Group(a, b, c)[..2] + [x, y])[0] == a
  {
    hide Six, Index, Or, Shl, Shr, Low;
    var v := Values(a, b, c);
    IndexOfSix(v[0]);
    IndexOfSix(v[1]);
    IndexOfSix(v[2]);
    IndexOfSix(v[3]);
    FirstOctet(v[0], v[1], a);
    SecondOctet(v[1], v[2], b);
    ThirdOctet(v[2], v[3], c);
  }

  lemma FirstOctet(d0: nat, d1: nat, a: byte)
    requires d0 == a / 4 && d1 <= 63 && d1 / 16 == a % 4
    ensures Low(Or(Shl(d0, 2), Shr(d1, 4)), 8) == a
  {
    hide Or, Shl, Shr, Low;
    ShrDivides(d1);
    SmallPowers();
    OrOfDisjoint(d0, 2, d1 / 16);
    LowOfSmall(a, 8);
  }

  lemma SecondOctet(d1: nat, d2: nat, b: byte)
    requires d1 <= 63 && d1 % 16 == b / 16 && d2 <= 63 && d2 / 4 == b % 16
    ensures Low(Or(Shl(d1, 4), Shr(d2, 2)), 8) == b
  {
    hide Or, Shl, Shr, Low;
    ShrDivides(d2);
    SmallPowers();
    OrOfDisjoint(d1, 4, d2 / 4);
    LowIsMod(d1 * 16 + d2 / 4, 8);
    Nibbles(d1, d2 / 4, b);
  }

  lemma Nibbles(high: nat, low: nat, b: byte)
    requires high % 16 == b / 16 && low == b % 16
    ensures (high * 16 + low) % 256 == b
  {
    assert high * 16 + low == high / 16 * 256 + b;
  }

  lemma ThirdOctet(d2: nat, d3: nat, c: byte)
    requires d2 <= 63 && d2 % 4 == c / 64 && d3 == c % 64
    ensures Low(Or(Shl(d2, 6), d3), 8) == c
  {
    hide Or, Shl, Low;
    SmallPowers();
    OrOfDisjoint(d2, 6, d3);
    LowIsMod(d2 * 64 + d3, 8);
  }

  lemma SmallPowers()
    ensures Pow2(2) == 4 && Pow2(4) == 16 && Pow2(6) == 64 && Pow2(8) == 256
  {
    assert Pow2(2) == 4;
    assert Pow2(4) == 16;
    assert Pow2(6) == 64;
  }

  // ----- Encoding -----

  /** k whole groups. */
  ghost function Groups(data: seq<byte>, k: nat): (t: string)
    requires 3 * k <= |data|
    ensures |t| == 4 * k
  {
    if k == 0 then [] else Groups(data, k - 1) + Group(data[3 * k - 3], data[3 * k - 2], data[3 * k - 1])
  }

  /** What the encoder makes of the first n octets, and of what follows them up to a whole group. */
  ghost function Text(data: seq<byte>, n: nat): (t: string)
    requires 3 * ((n + 2) / 3) <= |data|
    ensures |t| == 4 * ((n + 2) / 3)
  {
    var all := Groups(data, (n + 2) / 3);
    if n % 3 == 0 then all else if n % 3 == 2 then all[..|all| - 1] + "=" else all[..|all| - 2] + "=="
  }

  /** HTUU_encode: the text, its end mark, and its length. */
  method HtuuEncode(bufin: array<byte>, n: nat, bufcoded: array<char>) returns (len: nat)
    requires 3 * ((n + 2) / 3) <= bufin.Length && 4 * ((n + 2) / 3) < bufcoded.Length
    modifies bufcoded
    ensures len == 4 * ((n + 2) / 3) && bufcoded[..len] == Text(bufin[..], n) && bufcoded[len] == '\0'
    ensures forall q :: len < q < bufcoded.Length ==> bufcoded[q] == old(bufcoded[q])
  {
    hide Groups;
    ghost var k := (n + 2) / 3;
    var out, i := PutGroups(bufin, n, bufcoded, k);
    PutPads(bufcoded, out, i - n);
    bufcoded[out] := '\0';
    len := out;
    PaddedText(bufin[..], n, k);
    assert bufcoded[..len] == Text(bufin[..], n);
  }

  lemma PaddedText(data: seq<byte>, n: nat, k: nat)
    requires k == (n + 2) / 3 && 3 * k <= |data|
    ensures var pads := 3 * k - n;
            Text(data, n) == Groups(data, k)[..4 * k - pads] + if pads == 1 then "=" else if pads == 2 then "==" else ""
  {
    hide Groups;
    var all := Groups(data, k);
    if n % 3 == 0 {
      assert n == 3 * k;
      assert all[..4 * k] + "" == all;
    } else {
      assert n == 3 * k - if n % 3 == 2 then 1 else 2;
    }
  }

  /** The pads stand for what a last group lacks, and for nothing else. */
  lemma PadsAre(data: seq<byte>, n: nat, i: nat)
    requires 3 * ((n + 2) / 3) <= |data| && i < |Text(data, n)|
    ensures |Text(data, n)| == 4 * ((n + 2) / 3)
    ensures Text(data, n)[i] == '=' <==>
            (n % 3 == 1 && i >= |Text(data, n)| - 2) || (n % 3 == 2 && i == |Text(data, n)| - 1)
  {
    hide Groups;
    var k := (n + 2) / 3;
    GroupsAreCoded(data, k, i);
    NoPadIsCoded();
  }

  lemma NoPadIsCoded()
    ensures Index('=') == 64
  {
  }

  /** The loop over groups. */
  method PutGroups(bufin: array<byte>, n: nat, bufcoded: array<char>, ghost k: nat) returns (out: nat, i: nat)
    requires n <= 3 * k < n + 3 && 3 * k <= bufin.Length && 4 * k <= bufcoded.Length
    modifies bufcoded
    ensures i == 3 * k && out == 4 * k && bufcoded[..out] == Groups(bufin[..], k)
    ensures forall q :: out <= q < bufcoded.Length ==> bufcoded[q] == old(bufcoded[q])
  {
    hide Group, Values, Groups;
    ghost var data := bufin[..];
    ghost var m := 0;
    out, i := 0, 0;
    NoGroups(data);
    while i < n
      invariant i == 3 * m && out == 4 * m && m <= k && bufcoded[..out] == Groups(data, m)
      invariant forall q :: out <= q < bufcoded.Length ==> bufcoded[q] == old(bufcoded[q])
    {
      ghost var before := bufcoded[..out];
      PutGroup(bufcoded, out, bufin[i], bufin[i + 1], bufin[i + 2]);
      m, out, i := m + 1, out + 4, i + 3;
      OneGroupMore(data, m, data[3 * m - 3], data[3 * m - 2], data[3 * m - 1]);
      assert bufcoded[..out] == before + bufcoded[out - 4..out];
    }
  }

  method PutPads(bufcoded: array<char>, out: nat, pads: nat)
    requires pads <= 2 && pads <= out <= bufcoded.Length
    modifies bufcoded
    ensures bufcoded[..out] == old(bufcoded[..out - pads]) + if pads == 1 then "=" else if pads == 2 then "==" else ""
    ensures forall q :: out <= q < bufcoded.Length ==> bufcoded[q] == old(bufcoded[q])
  {
    if pads == 1 {
      bufcoded[out - 1] := '=';
    } else if pads == 2 {
      bufcoded[out - 1] := '=';
      bufcoded[out - 2] := '=';
    }
  }

  method PutGroup(bufcoded: array<char>, out: nat, a: byte, b: byte, c: byte)
    requires out + 4 <= bufcoded.Length
    modifies bufcoded
    ensures bufcoded[..out] == old(bufcoded[..out]) && bufcoded[out..out + 4] == Group(a, b, c)
    ensures forall q :: out + 4 <= q < bufcoded.Length ==> bufcoded[q] == old(bufcoded[q])
  {
    ValuesInDigits(a, b, c);
    hide Shl, Shr, Or, Low, Six;
    bufcoded[out] := Six(Shr(a, 2));
    bufcoded[out + 1] := Six(Or(Shl(Low(a, 2), 4), Shr(b, 4)));
    bufcoded[out + 2] := Six(Or(Shl(Low(b, 4), 2), Shr(c, 6)));
    bufcoded[out + 3] := Six(Low(c, 6));
  }

  // The canonical form.

  /** k digits in base 64. */
  ghost function Digits(v: nat, k: nat): string {
    if k == 0 then [] else Digits(v / 64, k - 1) + [Six(v % 64)]
  }

  /** Octets as one number. */
  ghost function Number(a: int, b: int, c: int): int {
    0x10000 * a + 0x100 * b + c
  }

  ghost function FullGroups(data: seq<byte>, k: nat): string
    requires 3 * k <= |data|
  {
    if k == 0 then []
    else FullGroups(data, k - 1) + Digits(Number(data[3 * k - 3], data[3 * k - 2], data[3 * k - 1]), 4)
  }

  /** Section 4 of RFC 4648: groups of 24 bits as four digits; a last group of 8 or 16 bits, with zero bits added to a
      whole number of digits, as two or three, and pads. */
  ghost function Canonical(data: seq<byte>): string {
    FullGroups(data, |data| / 3) + Tail(data[3 * (|data| / 3)..])
  }

  ghost function Tail(rest: seq<byte>): string
    requires |rest| < 3
  {
    if |rest| == 0 then []
    else if |rest| == 1 then Digits(16 * Number(0, 0, rest[0]), 2) + "=="
    else Digits(4 * Number(0, rest[0], rest[1]), 3) + "="
  }

  lemma LastDigit(v: nat, d: nat, k: nat)
    requires d < 64
    ensures Digits(64 * v + d, k + 1) == Digits(v, k) + [Six(d)]
  {
  }

  lemma DigitsOfValues(v0: nat, v1: nat, v2: nat, v3: nat)
    requires v0 < 64 && v1 < 64 && v2 < 64 && v3 < 64
    ensures Digits(0x40 * v0 + v1, 2) == [Six(v0), Six(v1)]
    ensures Digits(0x1000 * v0 + 0x40 * v1 + v2, 3) == [Six(v0), Six(v1), Six(v2)]
    ensures Digits(0x40000 * v0 + 0x1000 * v1 + 0x40 * v2 + v3, 4) == [Six(v0), Six(v1), Six(v2), Six(v3)]
  {
    hide Six, Digits;
    TwoDigits(v0, v1);
    LastDigit(0x40 * v0 + v1, v2, 2);
    LastDigit(0x1000 * v0 + 0x40 * v1 + v2, v3, 3);
  }

  lemma TwoDigits(v0: nat, v1: nat)
    requires v0 < 64 && v1 < 64
    ensures Digits(0x40 * v0 + v1, 2) == [Six(v0), Six(v1)]
  {
    hide Six, Digits;
    NoDigits();
    LastDigit(0, v0, 0);
    LastDigit(v0, v1, 1);
  }

  lemma NoDigits()
    ensures Digits(0, 0) == []
  {
  }

  lemma GroupInDigits(a: byte, b: byte, c: byte)
    ensures Group(a, b, c) == Digits(Number(a, b, c), 4)
  {
    hide Six, Digits;
    var v := Values(a, b, c);
    DigitsOfValues(v[0], v[1], v[2], v[3]);
    GroupIsOneNumber(a, b, c);
  }

  lemma {:induction false} GroupsAreFull(data: seq<byte>, k: nat)
    requires 3 * k <= |data|
    ensures Groups(data, k) == FullGroups(data, k)
  {
    hide *;
    if k > 0 {
      GroupsAreFull(data, k - 1);
      OneGroupMore(data, k, data[3 * k - 3], data[3 * k - 2], data[3 * k - 1]);
    } else {
      NoGroups(data);
    }
  }

  lemma NoGroups(data: seq<byte>)
    ensures Groups(data, 0) == FullGroups(data, 0) == []
  {
  }

  lemma OneGroupMore(data: seq<byte>, k: nat, a: byte, b: byte, c: byte)
    requires 0 < k && 3 * k <= |data| && a == data[3 * k - 3] && b == data[3 * k - 2] && c == data[3 * k - 1]
    ensures Groups(data, k) == Groups(data, k - 1) + Group(a, b, c)
    ensures FullGroups(data, k) == FullGroups(data, k - 1) + Group(a, b, c)
  {
    hide Group, Digits, Number;
    GroupInDigits(a, b, c);
  }

  lemma {:induction false} FullGroupsOfPrefix(data: seq<byte>, n: nat, k: nat)
    requires 3 * k <= n <= |data|
    ensures FullGroups(data[..n], k) == FullGroups(data, k)
  {
    if k > 0 {
      FullGroupsOfPrefix(data, n, k - 1);
    }
  }

  /** The last group, of one octet and what follows it. */
  lemma TailOfOne(a: byte, b: byte, c: byte)
    ensures Group(a, b, c)[..2] + "==" == Tail([a]) <==> b < 16
  {
    hide Six, Digits;
    OneOctet(a);
    SameDigit(a % 4 * 16 + b / 16, a % 4 * 16);
    var l, r := Group(a, b, c)[..2] + "==", Tail([a]);
    assert l == [Six(a / 4), Six(a % 4 * 16 + b / 16), '=', '='];
    assert l[1] == r[1] <==> b / 16 == 0;
  }

  lemma OneOctet(a: byte)
    ensures Tail([a]) == [Six(a / 4), Six(a % 4 * 16), '=', '=']
  {
    hide Six, Digits;
    DigitsOfValues(a / 4, a % 4 * 16, 0, 0);
  }

  /** The last group, of two octets and what follows them. */
  lemma TailOfTwo(a: byte, b: byte, c: byte)
    ensures Group(a, b, c)[..3] + "=" == Tail([a, b]) <==> c < 64
  {
    hide Six, Digits;
    TwoOctets(a, b);
    SameDigit(b % 16 * 4 + c / 64, b % 16 * 4);
    var l, r := Group(a, b, c)[..3] + "=", Tail([a, b]);
    assert l == [Six(a / 4), Six(a % 4 * 16 + b / 16), Six(b % 16 * 4 + c / 64), '='];
    assert l[2] == r[2] <==> c / 64 == 0;
  }

  lemma TwoOctets(a: byte, b: byte)
    ensures Tail([a, b]) == [Six(a / 4), Six(a % 4 * 16 + b / 16), Six(b % 16 * 4), '=']
  {
    hide Six, Digits;
    DigitsOfValues(a / 4, a % 4 * 16 + b / 16, b % 16 * 4, 0);
  }

  lemma SameDigit(v: nat, w: nat)
    requires v <= MAXVAL && w <= MAXVAL
    ensures Six(v) == Six(w) <==> v == w
  {
    IndexOfSix(v);
    IndexOfSix(w);
  }

  /** The output is canonical exactly when the bits that are read past the end are zero. */
  lemma TextIsCanonical(data: seq<byte>, n: nat)
    requires 3 * ((n + 2) / 3) <= |data|
    ensures Text(data, n) == Canonical(data[..n])
            <==> (n % 3 == 1 ==> data[n] < 16) && (n % 3 == 2 ==> data[n] < 64)
  {
    hide *;
    var k := n / 3;
    GroupsAreFull(data, k);
    CanonicalParts(data, n, k);
    var full := Groups(data, k);
    if n == 3 * k {
      assert data[3 * k..n] == [];
      NoneLeft(data, n, k, full);
    } else if n == 3 * k + 1 {
      assert data[3 * k..n] == [data[3 * k]];
      OneLeft(data, n, k, full);
    } else {
      assert data[3 * k..n] == [data[3 * k], data[3 * k + 1]];
      TwoLeft(data, n, k, full);
    }
  }

  lemma CanonicalParts(data: seq<byte>, n: nat, k: nat)
    requires 3 * k <= n < 3 * k + 3 && n <= |data|
    ensures Canonical(data[..n]) == FullGroups(data, k) + Tail(data[3 * k..n])
  {
    hide FullGroups, Tail;
    FullGroupsOfPrefix(data, n, k);
    assert n / 3 == k && data[..n][3 * k..] == data[3 * k..n];
  }

  lemma NoneLeft(data: seq<byte>, n: nat, k: nat, full: string)
    requires n == 3 * k <= |data| && (n + 2) / 3 == k && Groups(data, k) == full
    ensures Text(data, n) == full + Tail([])
  {
    hide Groups;
  }

  lemma OneLeft(data: seq<byte>, n: nat, k: nat, full: string)
    requires n == 3 * k + 1 && (n + 2) / 3 == k + 1 && 3 * k + 3 <= |data| && Groups(data, k) == full
    ensures Text(data, n) == full + Tail([data[n - 1]]) <==> data[n] < 16
  {
    hide Groups, Group, Tail;
    var a, b, c := data[3 * k], data[3 * k + 1], data[3 * k + 2];
    OneGroupMore(data, k + 1, a, b, c);
    TailOfOne(a, b, c);
    PaddedText(data, n, k + 1);
    assert Text(data, n) == full + (Group(a, b, c)[..2] + "==");
    SameEnd(full, Group(a, b, c)[..2] + "==", Tail([a]));
  }

  lemma TwoLeft(data: seq<byte>, n: nat, k: nat, full: string)
    requires n == 3 * k + 2 && (n + 2) / 3 == k + 1 && 3 * k + 3 <= |data| && Groups(data, k) == full
    ensures Text(data, n) == full + Tail([data[n - 2], data[n - 1]]) <==> data[n] < 64
  {
    hide Groups, Group, Tail;
    var a, b, c := data[3 * k], data[3 * k + 1], data[3 * k + 2];
    OneGroupMore(data, k + 1, a, b, c);
    TailOfTwo(a, b, c);
    PaddedText(data, n, k + 1);
    assert Text(data, n) == full + (Group(a, b, c)[..3] + "=");
    SameEnd(full, Group(a, b, c)[..3] + "=", Tail([a, b]));
  }

  lemma SameEnd(a: string, b: string, c: string)
    ensures a + b == a + c <==> b == c
  {
    if a + b == a + c {
      assert b == (a + b)[|a|..] && c == (a + c)[|a|..];
    }
  }

  // ----- Decoding -----

  ghost predicate Blank(c: char) { c == ' ' || c == '\t' }

  /** How many blanks lead. */
  ghost function Blanks(t: string): (n: nat)
    ensures n <= |t| && forall i :: 0 <= i < n ==> Blank(t[i])
    ensures n < |t| ==> !Blank(t[n])
  {
    if t != [] && Blank(t[0]) then 1 + Blanks(t[1..]) else 0
  }

  /** Spaces and tabs are passed over. */
  lemma BlanksAre(t: string)
    ensures forall i :: 0 <= i < Blanks(t) ==> t[i] == ' ' || t[i] == '\t'
    ensures Blanks(t) < |t| ==> t[Blanks(t)] != ' ' && t[Blanks(t)] != '\t'
  {
  }

  /** How many characters of the table lead. */
  ghost function Coded(t: string): (n: nat)
    ensures n <= |t| && forall i :: 0 <= i < n ==> Index(t[i]) <= MAXVAL
    ensures n < |t| ==> Index(t[n]) > MAXVAL
  {
    if t != [] && Index(t[0]) <= MAXVAL then 1 + Coded(t[1..]) else 0
  }

  lemma {:induction false} CodedIs(t: string, n: nat)
    requires n < |t| && Index(t[n]) > MAXVAL && forall i :: 0 <= i < n ==> Index(t[i]) <= MAXVAL
    ensures Coded(t) == n
  {
    hide Index;
  }

  lemma {:induction false} BlanksIs(t: string, n: nat)
    requires n < |t| && !Blank(t[n]) && forall i :: 0 <= i < n ==> Blank(t[i])
    ensures Blanks(t) == n
  {
    hide Blank;
  }

  /** The text after leading blanks. */
  ghost function Stripped(t: string): string {
    t[Blanks(t)..]
  }

  /** Groups of four that so many characters make, the last one perhaps short. */
  function Quanta(characters: nat): (q: nat)
    ensures characters <= 4 * q < characters + 4
  {
    (characters + 3) / 4
  }

  /** Characters taken: all that are coded, or what the output has room for. */
  function Taken(coded: nat, outbufsize: nat): nat {
    if 3 * Quanta(coded) > outbufsize then outbufsize * 4 / 3 else coded
  }

  /** A room too small is filled by the least number of whole groups that fill it. */
  lemma TakenFillsRoom(coded: nat, outbufsize: nat)
    ensures var q := Quanta(Taken(coded, outbufsize));
            if 3 * Quanta(coded) <= outbufsize then q == Quanta(coded) else 3 * q - 3 < outbufsize <= 3 * q
  {
  }

  /** q whole groups. */
  ghost function Ungroups(t: string, q: nat): (o: seq<byte>)
    requires 4 * q <= |t|
    ensures |o| == 3 * q
  {
    if q == 0 then [] else Ungroups(t, q - 1) + Ungroup(t[4 * q - 4..4 * q])
  }

  lemma NoUngroups(t: string)
    ensures Ungroups(t, 0) == []
  {
  }

  lemma OneUngroupMore(t: string, k: nat)
    requires 0 < k && 4 * k <= |t|
    ensures Ungroups(t, k) == Ungroups(t, k - 1) + Ungroup(t[4 * k - 4..4 * k])
  {
    hide Ungroup;
  }

  /** The length that is returned: all coded characters count, whatever was taken of them; a last group that is cut short
      loses one octet, or two if its third character is not coded. */
  ghost function Count(t: string, coded: nat, taken: nat): int
    requires 4 * Quanta(taken) <= |t|
  {
    3 * Quanta(coded) - Missing(t, Quanta(taken), taken)
  }

  ghost function Missing(t: string, q: nat, taken: nat): nat
    requires taken <= 4 * q < taken + 4 && 4 * q <= |t|
  {
    if taken == 4 * q then 0 else if Index(t[4 * q - 2]) > MAXVAL then 2 else 1
  }

  /** The decoder and its table, which is filled on first use. */
  class Decoder {
    var first: bool
    const pr2six: array<nat>

    ghost predicate Valid()
      reads this, pr2six
    {
      pr2six.Length == 256 && (!first ==> forall c: char :: c as int < 256 ==> pr2six[c as int] == Index(c))
    }

    constructor ()
      ensures Valid() && fresh(pr2six)
    {
      first := true;
      pr2six := new nat[256];
    }

    method FillTable()
      requires pr2six.Length == 256
      modifies pr2six
      ensures forall c: char :: c as int < 256 ==> pr2six[c as int] == Index(c)
    {
      for j := 0 to 256
        invariant forall k :: 0 <= k < j ==> pr2six[k] == MAXVAL + 1
      {
        pr2six[j] := MAXVAL + 1;
      }
      for j := 0 to 64
        invariant forall c: char :: c as int < 256 ==> pr2six[c as int] == if Index(c) < j then Index(c) else MAXVAL + 1
      {
        IndexOfSix(j);
        pr2six[Six(j) as int] := j;
      }
    }

    method SkipBlanks(bufcoded: array<char>) returns (start: nat)
      requires Blanks(bufcoded[..]) < bufcoded.Length
      ensures start == Blanks(bufcoded[..])
    {
      start := 0;
      while bufcoded[start] == ' ' || bufcoded[start] == '\t'
        invariant start <= Blanks(bufcoded[..])
        decreases bufcoded.Length - start
      {
        assert bufcoded[..][start] == bufcoded[start];
        start := start + 1;
      }
      assert bufcoded[..][start] == bufcoded[start];
    }

    method ScanCoded(bufcoded: array<char>, start: nat, ghost t: string) returns (nprbytes: nat)
      requires Valid() && !first && forall k :: 0 <= k < bufcoded.Length ==> bufcoded[k] as int < 128
      requires start <= bufcoded.Length && t == bufcoded[start..] && Coded(t) < |t|
      ensures nprbytes == Coded(t)
    {
      hide Index;
      nprbytes := 0;
      while pr2six[bufcoded[start + nprbytes] as int] <= MAXVAL
        invariant nprbytes <= Coded(t)
        decreases |t| - nprbytes
      {
        assert t[nprbytes] == bufcoded[start + nprbytes];
        nprbytes := nprbytes + 1;
      }
      assert t[nprbytes] == bufcoded[start + nprbytes];
    }

    /** The loop over groups, and the correction for a last one that is cut short. */
    method TakeGroups(bufcoded: array<char>, bufplain: array<byte>, start: nat, taken: nat, full: nat,
                      ghost t: string, ghost q: nat)
      returns (nbytesdecoded: int)
      requires Valid() && !first && forall k :: 0 <= k < bufcoded.Length ==> bufcoded[k] as int < 128
      requires start <= bufcoded.Length && t == bufcoded[start..]
      requires taken <= 4 * q < taken + 4 && 4 * q <= |t| && 3 * q <= bufplain.Length
      modifies bufplain
      ensures nbytesdecoded == full - Missing(t, q, taken)
      ensures bufplain[..3 * q] == Ungroups(t, q) && forall i :: 3 * q <= i < bufplain.Length ==> bufplain[i] == old(bufplain[i])
    {
      hide Index, Ungroup, Ungroups;
      nbytesdecoded := full;
      NoUngroups(t);
      var bufin, bufout, nprbytes: int := start, 0, taken;
      ghost var k := 0;
      while nprbytes > 0
        invariant 0 <= k <= q && bufin == start + 4 * k && bufout == 3 * k && nprbytes == taken - 4 * k
        invariant bufplain[..bufout] == Ungroups(t, k)
        invariant forall i :: 3 * q <= i < bufplain.Length ==> bufplain[i] == old(bufplain[i])
      {
        ghost var before := bufplain[..bufout];
        TakeGroup(bufcoded, bufplain, bufin, bufout);
        k, bufin, bufout, nprbytes := k + 1, bufin + 4, bufout + 3, nprbytes - 4;
        assert t[4 * k - 4..4 * k] == bufcoded[bufin - 4..bufin];
        OneUngroupMore(t, k);
        assert bufplain[..bufout] == before + bufplain[bufout - 3..bufout];
      }
      assert k == q;
      nbytesdecoded := Correct(bufcoded, bufin, nprbytes, nbytesdecoded);
      assert taken != 4 * q ==> t[4 * q - 2] == bufcoded[bufin - 2];
    }

    /** A last group that is cut short; what is left is then negative. */
    method Correct(bufcoded: array<char>, bufin: nat, nprbytes: int, full: nat) returns (nbytesdecoded: int)
      requires Valid() && !first && forall k :: 0 <= k < bufcoded.Length ==> bufcoded[k] as int < 128
      requires -3 <= nprbytes <= 0 && (nprbytes < 0 ==> 2 <= bufin <= bufcoded.Length + 1)
      ensures nbytesdecoded ==
              full - if nprbytes == 0 then 0 else if Index(bufcoded[bufin - 2]) > MAXVAL then 2 else 1
    {
      hide Index;
      nbytesdecoded := full;
      if nprbytes % 4 != 0 {
        if pr2six[bufcoded[bufin - 2] as int] > MAXVAL {
          nbytesdecoded := nbytesdecoded - 2;
        } else {
          nbytesdecoded := nbytesdecoded - 1;
        }
      }
    }

    method TakeGroup(bufcoded: array<char>, bufplain: array<byte>, bufin: nat, bufout: nat)
      requires Valid() && !first && forall k :: 0 <= k < bufcoded.Length ==> bufcoded[k] as int < 128
      requires bufin + 4 <= bufcoded.Length && bufout + 3 <= bufplain.Length
      modifies bufplain
      ensures bufplain[..bufout] == old(bufplain[..bufout])
      ensures bufplain[bufout..bufout + 3] == Ungroup(bufcoded[bufin..bufin + 4])
      ensures forall i :: bufout + 3 <= i < bufplain.Length ==> bufplain[i] == old(bufplain[i])
    {
      hide Index;
      EightBits();
      var d0, d1 := pr2six[bufcoded[bufin] as int], pr2six[bufcoded[bufin + 1] as int];
      var d2, d3 := pr2six[bufcoded[bufin + 2] as int], pr2six[bufcoded[bufin + 3] as int];
      ghost var g := bufcoded[bufin..bufin + 4];
      assert [Index(g[0]), Index(g[1]), Index(g[2]), Index(g[3])] == [d0, d1, d2, d3];
      hide Or, Shl, Shr, Low;
      bufplain[bufout] := Low(Or(Shl(d0, 2), Shr(d1, 4)), 8);
      bufplain[bufout + 1] := Low(Or(Shl(d1, 4), Shr(d2, 2)), 8);
      bufplain[bufout + 2] := Low(Or(Shl(d2, 6), d3), 8);
    }

    /** HTUU_decode. The text is marked by a character that is not coded, and reaches as far as the last group read. */
    method HtuuDecode(bufcoded: array<char>, bufplain: array<byte>, outbufsize: nat) returns (nbytesdecoded: int)
      requires Valid() && forall k :: 0 <= k < bufcoded.Length ==> bufcoded[k] as int < 128
      requires Blanks(bufcoded[..]) < bufcoded.Length && Coded(Stripped(bufcoded[..])) < |Stripped(bufcoded[..])|
      requires var q := Quanta(Taken(Coded(Stripped(bufcoded[..])), outbufsize));
               4 * q <= |Stripped(bufcoded[..])| && 3 * q <= bufplain.Length
      modifies this`first, pr2six, bufplain
      ensures Valid()
      ensures var t := Stripped(bufcoded[..]);
              var taken := Taken(Coded(t), outbufsize);
              && nbytesdecoded == Count(t, Coded(t), taken)
              && bufplain[..3 * Quanta(taken)] == Ungroups(t, Quanta(taken))
              && forall i :: 3 * Quanta(taken) <= i < bufplain.Length ==> bufplain[i] == old(bufplain[i])
    {
      hide Index, Ungroups, Blanks, Coded, Quanta, Missing, Stripped;
      if first {
        first := false;
        FillTable();
      }
      var start, nprbytes := Measure(bufcoded);
      ghost var t := Stripped(bufcoded[..]);
      var full := 3 * Quanta(nprbytes);
      if full > outbufsize {
        nprbytes := outbufsize * 4 / 3;
      }
      nbytesdecoded := TakeGroups(bufcoded, bufplain, start, nprbytes, full, t, Quanta(nprbytes));
    }

    /** Where the text begins after blanks, and how many coded characters it has. */
    method Measure(bufcoded: array<char>) returns (start: nat, nprbytes: nat)
      requires Valid() && !first && forall k :: 0 <= k < bufcoded.Length ==> bufcoded[k] as int < 128
      requires Blanks(bufcoded[..]) < bufcoded.Length && Coded(Stripped(bufcoded[..])) < |Stripped(bufcoded[..])|
      ensures start == Blanks(bufcoded[..]) <= bufcoded.Length && bufcoded[start..] == Stripped(bufcoded[..])
      ensures nprbytes == Coded(Stripped(bufcoded[..]))
    {
      hide Index, Blanks, Coded;
      start := SkipBlanks(bufcoded);
      assert bufcoded[start..] == Stripped(bufcoded[..]);
      nprbytes := ScanCoded(bufcoded, start, Stripped(bufcoded[..]));
    }
  }

  // ----- Round trip -----

  lemma {:induction false} UngroupsOfGroups(data: seq<byte>, t: string, k: nat)
    requires 3 * k <= |data| && 4 * k <= |t| && t[..4 * k] == Groups(data, k)
    ensures Ungroups(t, k) == data[..3 * k]
  {
    hide Ungroup, Group, Groups, Ungroups;
    if k == 0 {
      NoUngroups(t);
    } else {
      var a, b, c := data[3 * k - 3], data[3 * k - 2], data[3 * k - 1];
      OneGroupMore(data, k, a, b, c);
      OneUngroupMore(t, k);
      assert t[..4 * k][..4 * k - 4] == t[..4 * k - 4];
      assert t[..4 * k][4 * k - 4..] == t[4 * k - 4..4 * k];
      UngroupsOfGroups(data, t, k - 1);
      GroupComesBack(a, b, c, a as char, a as char);
      assert data[..3 * k] == data[..3 * k - 3] + [a, b, c];
    }
  }

  /** Coded characters in the text of n octets. */
  ghost function CodedLength(n: nat): nat {
    if n % 3 == 0 then 4 * (n / 3) else 4 * (n / 3) + n % 3 + 1
  }

  lemma {:induction false} GroupsAreCoded(data: seq<byte>, k: nat, i: nat)
    requires 3 * k <= |data| && i < 4 * k
    ensures Index(Groups(data, k)[i]) <= MAXVAL
  {
    hide Six, Index;
    if i < 4 * k - 4 {
      GroupsAreCoded(data, k - 1, i);
    } else {
      var v := Values(data[3 * k - 3], data[3 * k - 2], data[3 * k - 1]);
      IndexOfSix(v[i - (4 * k - 4)]);
    }
  }

  /** The text as it is measured by the decoder: it ends with its pads or the end mark. */
  lemma TextIsMeasured(data: seq<byte>, n: nat, k: nat, rest: string)
    requires k == (n + 2) / 3 && 3 * k <= |data| && rest != [] && rest[0] == '\0'
    ensures Blanks(Text(data, n) + rest) == 0 && Coded(Text(data, n) + rest) == CodedLength(n)
    ensures Quanta(CodedLength(n)) == k && (n == 3 * k - 2 ==> (Text(data, n) + rest)[4 * k - 2] == '=')
  {
    hide Groups, Index, Blanks, Coded, CodedLength, Text, Quanta;
    var t, c := Text(data, n) + rest, CodedLength(n);
    CodedLengthIs(n, k);
    TextInParts(data, n, k, rest);
    CodesOfMarks();
    CodedIs(t, c);
    BlanksIs(t, 0);
  }

  lemma CodedLengthIs(n: nat, k: nat)
    requires k == (n + 2) / 3
    ensures CodedLength(n) == (if n == 3 * k then 4 * k else if n == 3 * k - 1 then 4 * k - 1 else 4 * k - 2)
    ensures Quanta(CodedLength(n)) == k
  {
  }

  lemma TextInParts(data: seq<byte>, n: nat, k: nat, rest: string)
    requires k == (n + 2) / 3 && 3 * k <= |data| && rest != [] && rest[0] == '\0'
    ensures var t, c := Text(data, n) + rest, CodedLength(n);
            && c < |t| && t[c] == (if n == 3 * k then '\0' else '=') && !Blank(t[0])
            && forall i :: 0 <= i < c ==> Index(t[i]) <= MAXVAL
    ensures n == 3 * k - 2 ==> (Text(data, n) + rest)[4 * k - 2] == '='
  {
    hide Groups, Index, CodedLength;
    var t, c := Text(data, n) + rest, CodedLength(n);
    CodedLengthIs(n, k);
    PaddedText(data, n, k);
    CodesOfMarks();
    forall i | 0 <= i < c ensures Index(t[i]) <= MAXVAL {
      GroupsAreCoded(data, k, i);
      assert t[i] == Groups(data, k)[i];
    }
  }

  lemma CodesOfMarks()
    ensures Index('=') > MAXVAL && Index('\0') > MAXVAL && Index(' ') > MAXVAL && Index('\t') > MAXVAL
  {
  }

  /** With room for n octets, all groups are read, and n is the length returned. */
  lemma LengthComesBack(data: seq<byte>, n: nat, k: nat, rest: string, outbufsize: nat)
    requires k == (n + 2) / 3 && 3 * k <= |data| && rest != [] && rest[0] == '\0' && outbufsize >= n
    ensures Quanta(Taken(CodedLength(n), outbufsize)) == k
    ensures Count(Text(data, n) + rest, CodedLength(n), Taken(CodedLength(n), outbufsize)) == n
  {
    hide Groups, Index, Text;
    TextIsMeasured(data, n, k, rest);
    var t, taken := Text(data, n) + rest, Taken(CodedLength(n), outbufsize);
    if n == 3 * k {
      assert taken == 4 * k;
    } else if n == 3 * k - 1 {
      assert taken == 4 * k - 1 || taken == 4 * k - 2;
      ThirdIsCoded(data, n, k, rest);
    } else {
      assert taken == 4 * k - 2 || taken == 4 * k - 3;
      CodesOfMarks();
    }
  }

  lemma ThirdIsCoded(data: seq<byte>, n: nat, k: nat, rest: string)
    requires n == 3 * k - 1 && 3 * k <= |data| && k == (n + 2) / 3
    ensures Index((Text(data, n) + rest)[4 * k - 2]) <= MAXVAL
  {
    hide Groups, Index;
    PaddedText(data, n, k);
    GroupsAreCoded(data, k, 4 * k - 2);
  }

  /** The octets come back, whatever followed them when they were encoded. */
  lemma OctetsComeBack(data: seq<byte>, n: nat, k: nat, rest: string)
    requires k == (n + 2) / 3 && 3 * k <= |data|
    ensures Ungroups(Text(data, n) + rest, k)[..n] == data[..n]
  {
    hide Group, Ungroup, Groups, Ungroups;
    var t := Text(data, n) + rest;
    PaddedText(data, n, k);
    if n == 3 * k {
      assert t[..4 * k] == Groups(data, k);
      UngroupsOfGroups(data, t, k);
    } else {
      var a, b, c := data[3 * k - 3], data[3 * k - 2], data[3 * k - 1];
      OneGroupMore(data, k, a, b, c);
      OneUngroupMore(t, k);
      assert t[..4 * k - 4] == Groups(data, k - 1);
      UngroupsOfGroups(data, t, k - 1);
      var g := t[4 * k - 4..4 * k];
      GroupComesBack(a, b, c, '=', '=');
      assert g == if n == 3 * k - 1 then Group(a, b, c)[..3] + ['='] else Group(a, b, c)[..2] + ['=', '='];
      LastOctets(data, n, k, Ungroups(t, k), Ungroup(g), a, b);
    }
  }

  lemma LastOctets(data: seq<byte>, n: nat, k: nat, all: seq<byte>, last: seq<byte>, a: byte, b: byte)
    requires 0 < k && 3 * k - 2 <= n <= 3 * k - 1 && 3 * k <= |data| && |last| == 3
    requires all == data[..3 * k - 3] + last && a == data[3 * k - 3] && b == data[3 * k - 2]
    requires if n == 3 * k - 1 then last[..2] == [a, b] else last[0] == a
    ensures all[..n] == data[..n]
  {
    if n == 3 * k - 1 {
      assert last[0] == last[..2][0] && last[1] == last[..2][1];
    }
    assert data[..n] == data[..3 * k - 3] + data[3 * k - 3..n];
  }

  lemma TextIsAscii(data: seq<byte>, n: nat, k: nat)
    requires k == (n + 2) / 3 && 3 * k <= |data|
    ensures forall i :: 0 <= i < |Text(data, n)| ==> Text(data, n)[i] as int < 128
  {
    hide Groups;
    PaddedText(data, n, k);
    forall i | 0 <= i < 4 * k ensures Groups(data, k)[i] as int < 128 {
      GroupsAreCoded(data, k, i);
    }
  }

  /** Encoding n octets and decoding the text, with room for them, gives them back, whatever lies past their end. */
  method RoundTrip(bufin: array<byte>, n: nat, outbufsize: nat) returns (plain: array<byte>, length: int)
    requires 3 * ((n + 2) / 3) <= bufin.Length && outbufsize >= n
    ensures length == n && n <= plain.Length && plain[..n] == bufin[..n]
  {
    hide Groups, Text, Ungroups, Blanks, Coded, CodedLength, Quanta, Taken, Count, Index, Stripped;
    ghost var k := (n + 2) / 3;
    var coded := new char[4 * ((n + 2) / 3) + 1](_ => '\0');
    var len := HtuuEncode(bufin, n, coded);
    ghost var t := Text(bufin[..], n);
    assert coded[..] == t + ['\0'];
    TextIsMeasured(bufin[..], n, k, ['\0']);
    LengthComesBack(bufin[..], n, k, ['\0'], outbufsize);
    OctetsComeBack(bufin[..], n, k, ['\0']);
    TextIsAscii(bufin[..], n, k);
    var d := new Decoder();
    plain := new byte[3 * ((n + 2) / 3)];
    NothingStripped(coded[..]);
    length := d.HtuuDecode(coded, plain, outbufsize);
    FirstOctets(plain[..], 3 * k, n);
    FirstOctets(bufin[..], bufin.Length, n);
  }

  lemma NothingStripped(t: string)
    requires Blanks(t) == 0
    ensures Stripped(t) == t
  {
  }

  lemma FirstOctets(s: seq<byte>, m: nat, n: nat)
    requires n <= m <= |s|
    ensures s[..m][..n] == s[..n]
  {
  }

  // ----- When the length returned is true -----

  /** The first of the two characters that octet p of the output is made of. */
  function Maker(p: nat): nat {
    4 * (p / 3) + p % 3
  }

  /** Octet p has been written, and both of its characters are coded ones. */
  predicate MadeOfCoded(coded: nat, taken: nat, p: nat) {
    p < 3 * Quanta(taken) && Maker(p) + 1 < coded
  }

  /** What such an octet is: eight of the twelve bits of its two characters. */
  lemma OctetOfCoded(t: string, coded: nat, taken: nat, p: nat)
    requires coded <= Coded(t) && 4 * Quanta(taken) <= |t| && MadeOfCoded(coded, taken, p)
    ensures Maker(p) + 1 < |t| && Index(t[Maker(p)]) <= MAXVAL && Index(t[Maker(p) + 1]) <= MAXVAL
    ensures var pair := 64 * Index(t[Maker(p)]) + Index(t[Maker(p) + 1]);
            Ungroups(t, Quanta(taken))[p] == (if p % 3 == 0 then pair / 16 else if p % 3 == 1 then pair / 4 else pair) % 256
  {
    hide Index, Ungroup, Ungroups, Quanta, Coded;
    var g := p / 3;
    assert Maker(p) + 1 < 4 * Quanta(taken);
    OctetInGroup(t, Quanta(taken), g, p % 3);
    PairOfCoded(t[4 * g..4 * g + 4], p % 3);
  }

  lemma {:induction false} OctetInGroup(t: string, q: nat, g: nat, o: nat)
    requires g < q && o < 3 && 4 * q <= |t|
    ensures Ungroups(t, q)[3 * g + o] == Ungroup(t[4 * g..4 * g + 4])[o]
    decreases q
  {
    hide Ungroup;
    if g < q - 1 {
      OctetInGroup(t, q - 1, g, o);
    }
  }

  lemma PairOfCoded(g: string, o: nat)
    requires |g| == 4 && o < 3 && Index(g[o]) <= MAXVAL && Index(g[o + 1]) <= MAXVAL
    ensures var pair := 64 * Index(g[o]) + Index(g[o + 1]);
            Ungroup(g)[o] == (if o == 0 then pair / 16 else if o == 1 then pair / 4 else pair) % 256
  {
    hide Index, Or, Shl, Shr, Low;
    PairAsOctets(Index(g[o]), Index(g[o + 1]));
  }

  lemma PairAsOctets(d: nat, e: nat)
    requires d <= MAXVAL && e <= MAXVAL
    ensures Low(Or(Shl(d, 2), Shr(e, 4)), 8) == (64 * d + e) / 16 % 256
    ensures Low(Or(Shl(d, 4), Shr(e, 2)), 8) == (64 * d + e) / 4 % 256
    ensures Low(Or(Shl(d, 6), e), 8) == (64 * d + e) % 256
  {
    hide Or, Shl, Shr, Low;
    SmallPowers();
    ShrDivides(e);
    OrOfDisjoint(d, 2, e / 16);
    LowIsMod(d * 4 + e / 16, 8);
    OrOfDisjoint(d, 4, e / 4);
    LowIsMod(d * 16 + e / 4, 8);
    OrOfDisjoint(d, 6, e);
    LowIsMod(d * 64 + e, 8);
  }

  /** Every octet counted is made of coded characters exactly when the text has no single character left over and the room
      cuts off no whole group. */
  lemma CountedAreDecoded(t: string, outbufsize: nat)
    requires Coded(t) < |t| && 4 * Quanta(Taken(Coded(t), outbufsize)) <= |t|
    ensures var taken := Taken(Coded(t), outbufsize);
            (forall p :: 0 <= p < Count(t, Coded(t), taken) ==> MadeOfCoded(Coded(t), taken, p))
            <==> Coded(t) % 4 != 1 && 3 * Quanta(Coded(t)) < outbufsize + 3
  {
    hide Index, Coded;
    var coded := Coded(t);
    var taken := Taken(coded, outbufsize);
    var q := Quanta(taken);
    if coded % 4 == 1 {
      OneLeftOver(t, coded, taken, outbufsize);
    } else if 3 * Quanta(coded) < outbufsize + 3 {
      AllMade(t, coded, taken, outbufsize);
    } else {
      assert !MadeOfCoded(coded, taken, 3 * q);
    }
  }

  /** A single character left over makes no octet, and at least one is counted for it. */
  lemma OneLeftOver(t: string, coded: nat, taken: nat, outbufsize: nat)
    requires coded == Coded(t) && taken == Taken(coded, outbufsize) && 4 * Quanta(taken) <= |t| && coded % 4 == 1
    ensures var p := 3 * (coded / 4);
            p < Count(t, coded, taken) && !MadeOfCoded(coded, taken, p)
  {
    hide Index, Coded;
  }

  lemma AllMade(t: string, coded: nat, taken: nat, outbufsize: nat)
    requires coded == Coded(t) < |t| && taken == Taken(coded, outbufsize) && 4 * Quanta(taken) <= |t|
    requires coded % 4 != 1 && 3 * Quanta(coded) < outbufsize + 3
    ensures forall p :: 0 <= p < Count(t, coded, taken) ==> MadeOfCoded(coded, taken, p)
  {
    hide Index, Coded, Quanta, Taken, Maker, Missing;
    var q := Quanta(coded);
    TakenOfWhole(coded, outbufsize);
    MissingAtLeast(t, coded, taken, q);
    forall p | 0 <= p < Count(t, coded, taken) ensures MadeOfCoded(coded, taken, p) {
      MakerBefore(p, q, 4 * q - coded);
    }
  }

  lemma MissingAtLeast(t: string, coded: nat, taken: nat, q: nat)
    requires coded == Coded(t) < |t| && q == Quanta(coded) && coded % 4 != 1 && 4 * q <= |t|
    requires taken == coded || taken == 4 * q - 2 || taken == 4 * q - 3
    ensures Missing(t, q, taken) >= 4 * q - coded
  {
    hide Index, Coded;
  }

  /** A room that cuts off no whole group. */
  lemma TakenOfWhole(coded: nat, outbufsize: nat)
    requires 3 * Quanta(coded) < outbufsize + 3
    ensures var taken, q := Taken(coded, outbufsize), Quanta(coded);
            (taken == coded || taken == 4 * q - 2 || taken == 4 * q - 3) && Quanta(taken) == q
  {
    var q := Quanta(coded);
    if 3 * q > outbufsize {
      assert outbufsize == 3 * q - 1 || outbufsize == 3 * q - 2;
    }
  }

  lemma MakerBefore(p: nat, q: nat, d: nat)
    requires d <= 2 && p < 3 * q - d
    ensures Maker(p) + 1 < 4 * q - d
  {
    assert p == 3 * (p / 3) + p % 3;
  }

  /** Texts that fail: one coded character, room for a whole group, and the octet counted holds the value of a pad. */
  lemma LoneCharacter(t: string)
    requires |t| == 5 && t[0] == 'A' && t[1] == '=' && t[2] == '=' && t[3] == '=' && t[4] == '\0'
    ensures Coded(t) == 1 && Taken(1, 3) == 1 && Quanta(1) == 1 && Count(t, 1, 1) == 1
    ensures Ungroups(t, 1)[0] == 4 && !MadeOfCoded(1, 1, 0)
  {
    hide Ungroup, Ungroups;
    CodedIs(t, 1);
    NoUngroups(t);
    OneUngroupMore(t, 1);
    PadsOctet(t[0..4]);
  }

  lemma PadsOctet(g: string)
    requires |g| == 4 && g[0] == 'A' && g[1] == '='
    ensures Ungroup(g)[0] == 4
  {
    hide Or, Shl, Shr, Low;
    ShrDivides(64);
    OrOfDisjoint(0, 2, 0);
    SmallPowers();
    OrZero(Shl(0, 2));
    OrZero(4);
    LowOfSmall(4, 8);
    assert Index(g[0]) == 0 && Index(g[1]) == 64;
    assert Or(Shl(0, 2), 0) == 0 && Shl(0, 2) == 0;
  }

  /** Every octet counted has been written exactly when the room cuts off no whole group. */
  lemma CountedAreWritten(t: string, coded: nat, outbufsize: nat)
    requires 4 * Quanta(Taken(coded, outbufsize)) <= |t|
    ensures Count(t, coded, Taken(coded, outbufsize)) <= 3 * Quanta(Taken(coded, outbufsize))
            <==> 3 * Quanta(coded) < outbufsize + 3
  {
    hide Index;
  }

  /** The length returned is within the room exactly when the text fits or its last group is cut short by the room: by one
      octet, or by two of which the text has none. */
  lemma CountIsWithinRoom(t: string, coded: nat, outbufsize: nat)
    requires 4 * Quanta(Taken(coded, outbufsize)) <= |t|
    ensures var full := 3 * Quanta(coded);
            Count(t, coded, Taken(coded, outbufsize)) <= outbufsize
            <==> full <= outbufsize + 1
                 || (full == outbufsize + 2 && Index(t[4 * Quanta(Taken(coded, outbufsize)) - 2]) > MAXVAL)
  {
    hide Index;
  }
}
