/** Octets, and the little-endian fields of a page header. */
module Bytes {
  type byte = x: int | 0 <= x < 256

  /** 256 to the power k. */
  function Pow256(k: nat): (p: nat)
    ensures p > 0
  {
    if k == 0 then 1 else 256 * Pow256(k - 1)
  }

  /** The k low-order octets of n, least significant first; n may be negative (two's complement). */
  function LittleEndian(n: int, k: nat): (s: seq<byte>)
    ensures |s| == k
    decreases k
  {
    if k == 0 then [] else [n % 256] + LittleEndian(n / 256, k - 1)
  }

  /** The unsigned value of octets stored least significant first. */
  function Unsigned(s: seq<byte>): (n: nat)
    ensures n < Pow256(|s|)
  {
    if s == [] then 0 else s[0] + 256 * Unsigned(s[1..])
  }

  /** The two's complement value of the same octets, which is what a C signed integer of that width holds. */
  function Signed(s: seq<byte>): int {
    var u := Unsigned(s);
    if 2 * u < Pow256(|s|) then u else u - Pow256(|s|)
  }

  lemma {:induction false} UnsignedOfLittleEndian(n: int, k: nat) returns (q: int)
    ensures n == Unsigned(LittleEndian(n, k)) + Pow256(k) * q
    decreases k
  {
    if k == 0 {
      q := n;
    } else {
      q := UnsignedOfLittleEndian(n / 256, k - 1);
      assert LittleEndian(n, k)[1..] == LittleEndian(n / 256, k - 1);
      assert 256 * (Pow256(k - 1) * q) == Pow256(k) * q;
    }
  }

  /** Octet i of a stored value is its digit i in base 256. */
  lemma {:induction false} LittleEndianDigit(n: int, k: nat, i: nat)
    requires i < k
    ensures LittleEndian(n, k)[i] == n / Pow256(i) % 256
    decreases i
  {
    if i > 0 {
      LittleEndianDigit(n / 256, k - 1, i - 1);
      DivideTwice(n, 256, Pow256(i - 1));
    }
  }

  lemma DivideTwice(n: int, a: nat, p: nat)
    requires a > 0 && p > 0
    ensures n / a / p == n / (a * p)
  {
    var m := n / a;
    var q := m / p;
    DivideUnique(n, a, m);
    DivideUnique(m, p, q);
    Scale(a, p, q, m);
    DivideUnique(n, a * p, q);
  }

  lemma Scale(a: nat, p: nat, q: int, m: int)
    requires p * q <= m <= p * q + p - 1
    ensures a * p * q <= a * m && a * m + a <= a * p * q + a * p
  {
    var d := m - p * q;
    assert a * m == a * (p * q) + a * d && a * (p * q) == a * p * q;
    assert a * d <= a * (p - 1) == a * p - a;
  }

  lemma DivideUnique(a: int, d: nat, r: int)
    requires d > 0
    ensures r == a / d <==> d * r <= a < d * r + d
  {
    var q := a / d;
    assert d * q <= a < d * q + d;
    if r < q {
      assert d * r + d == d * (r + 1) <= d * q;
    } else if r > q {
      assert d * q + d == d * (q + 1) <= d * r;
    }
  }

  lemma Quotient(n: int, u: int, p: int, q: int)
    requires 0 <= u < p && n == u + p * q && 0 - p <= 2 * n && 2 * n < p
    ensures q == if 2 * u < p then 0 else -1
  {
    assert q >= 1 ==> p * q >= p;
    assert q <= -2 ==> p * q <= p * -2;
  }

  /** A value that fits in k octets, signed, survives being stored and loaded. */
  lemma SignedRoundTrip(n: int, k: nat)
    requires 0 - Pow256(k) <= 2 * n && 2 * n < Pow256(k)
    ensures Signed(LittleEndian(n, k)) == n
  {
    var q := UnsignedOfLittleEndian(n, k);
    Quotient(n, Unsigned(LittleEndian(n, k)), Pow256(k), q);
  }

  /** The sum of a run of octets: the body length a segment table announces. */
  function Sum(s: seq<byte>): nat {
    if s == [] then 0 else Sum(s[..|s| - 1]) + s[|s| - 1]
  }

  lemma {:induction false} SumConcat(s: seq<byte>, t: seq<byte>)
    ensures Sum(s + t) == Sum(s) + Sum(t)
  {
    if t == [] {
      assert s + t == s;
    } else {
      SumConcat(s, t[..|t| - 1]);
      assert (s + t)[..|s + t| - 1] == s + t[..|t| - 1];
    }
  }
}
