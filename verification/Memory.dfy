/** The C memory operations the modelled code is written with, on arrays. */
module Memory {
  /** memmove(a, a + from, n). */
  method Slide<T>(a: array<T>, from: nat, n: nat)
    requires from + n <= a.Length
    modifies a
    ensures a[..n] == old(a[from..from + n])
    ensures a[n..] == old(a[n..])
  {
    forall i | 0 <= i < n {
      a[i] := a[from + i];
    }
  }

  /** realloc(a, size) to a larger block. The allocation always succeeds. */
  method Grow<T(0)>(a: array<T>, size: nat) returns (b: array<T>)
    requires size >= a.Length
    ensures fresh(b) && b.Length == size && b[..a.Length] == a[..]
  {
    b := new T[size];
    forall i | 0 <= i < a.Length {
      b[i] := a[i];
    }
  }

  /** memcpy(dst + to, src + from, n) between different blocks. */
  method Copy<T>(src: array<T>, from: nat, dst: array<T>, to: nat, n: nat)
    requires src != dst && from + n <= src.Length && to + n <= dst.Length
    modifies dst
    ensures dst[..to] == old(dst[..to]) && dst[to..to + n] == src[from..from + n] && dst[to + n..] == old(dst[to + n..])
  {
    forall i | to <= i < to + n {
      dst[i] := src[from + i - to];
    }
    assert dst[..to] == old(dst[..to]);
    assert dst[to..to + n] == src[from..from + n];
    assert dst[to + n..] == old(dst[to + n..]);
  }

  /** memcpy(dst + to, data, n) from read-only data. */
  method Store<T>(data: seq<T>, dst: array<T>, to: nat)
    requires to + |data| <= dst.Length
    modifies dst
    ensures dst[..to] == old(dst[..to]) && dst[to..to + |data|] == data && dst[to + |data|..] == old(dst[to + |data|..])
  {
    forall i | to <= i < to + |data| {
      dst[i] := data[i - to];
    }
    assert dst[..to] == old(dst[..to]);
    assert dst[to..to + |data|] == data;
    assert dst[to + |data|..] == old(dst[to + |data|..]);
  }

  /** memset(a + to, v, n) */
  method Fill<T>(a: array<T>, to: nat, n: nat, v: T)
    requires to + n <= a.Length
    modifies a
    ensures forall i :: 0 <= i < a.Length ==> a[i] == if to <= i < to + n then v else old(a[i])
  {
    forall i | to <= i < to + n {
      a[i] := v;
    }
  }
}
