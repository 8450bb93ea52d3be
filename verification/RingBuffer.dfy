/** RingBuffer: the Speex ring buffer against a first-in-first-out queue. */
module RingBuffer {
  import opened Bytes
  import BitOps
  import Memory

  // ----- Cells in ring order -----

  /** Where cell i after a pointer lies. A pointer may rest at the end of the block. */
  function Cell(size: nat, p: nat, i: nat): (c: nat)
    requires p <= size && i < size
    ensures c < size
  {
    if p + i < size then p + i else p + i - size
  }

  /** n cells from a pointer on, in ring order. */
  ghost function Ring(data: seq<byte>, p: nat, n: nat): (r: seq<byte>)
    requires p <= |data| && n <= |data|
    ensures |r| == n
  {
    seq(n, i requires 0 <= i < n => data[Cell(|data|, p, i)])
  }

  /** The pointers agree: so many cells after one comes the other, round the ring. */
  ghost predicate InStep(size: nat, r: nat, available: nat, w: nat)
    requires size > 0
  {
    (r + available) % size == w % size
  }

  function Once(x: nat, size: nat): nat {
    if x < size then x else if x < 2 * size then x - size else 0
  }

  lemma InStepIs(size: nat, r: nat, available: nat, w: nat)
    requires size > 0 && r + available <= 2 * size && w <= size
    ensures InStep(size, r, available, w) <==> Once(r + available, size) == Once(w, size)
  {
    Reduced(r + available, size);
    Reduced(w, size);
  }

  lemma Reduced(x: nat, size: nat)
    requires size > 0 && x <= 2 * size
    ensures x % size == Once(x, size)
  {
    if x < size {
      BitOps.Remainder(x, size, 0, x);
    } else if x < 2 * size {
      BitOps.Remainder(x, size, 1, x - size);
    } else {
      BitOps.Remainder(x, size, 2, 0);
    }
  }

  /** What is waiting is the last part of the ring, seen from the write pointer. */
  lemma WaitingIsLast(data: seq<byte>, r: nat, available: nat, w: nat)
    requires |data| > 0 && r <= |data| && w <= |data| && available <= |data| && InStep(|data|, r, available, w)
    ensures Ring(data, r, available) == Ring(data, w, |data|)[|data| - available..]
  {
    hide InStep;
    var size := |data|;
    var a, b := Ring(data, r, available), Ring(data, w, size)[size - available..];
    forall i | 0 <= i < available ensures a[i] == b[i] {
      SameCell(size, r, available, w, i);
    }
  }

  /** Cell i from the read pointer is cell i from the end of what is waiting, seen from the write pointer. */
  lemma SameCell(size: nat, r: nat, available: nat, w: nat, i: nat)
    requires size > 0 && r <= size && w <= size && i < available <= size && InStep(size, r, available, w)
    ensures Cell(size, r, i) == Cell(size, w, size - available + i)
  {
    InStepIs(size, r, available, w);
    hide InStep;
  }

  /** Where a pointer stands n cells on. */
  function Next(size: nat, p: nat, n: nat): (q: nat)
    requires p <= size && n <= size
    ensures q <= size
  {
    if p + n > size then p + n - size else p + n
  }

  /** d has been written over the cells from w on. */
  ghost predicate WrittenAt(before: seq<byte>, after: seq<byte>, w: nat, d: seq<byte>)
    requires w <= |before| == |after| && |d| <= |before|
  {
    Ring(after, w, |after|) == d + Ring(before, w, |before|)[|d|..]
  }

  /** A write that fits adds to the end of what is waiting. */
  lemma FittingWrite(before: seq<byte>, after: seq<byte>, r: nat, available: nat, w: nat, d: seq<byte>)
    requires |before| == |after| > 0 && r <= |before| && w <= |before| && available + |d| <= |before|
    requires InStep(|before|, r, available, w) && WrittenAt(before, after, w, d)
    ensures Ring(after, r, available + |d|) == Ring(before, r, available) + d
  {
    var size, n := |before|, |d|;
    hide InStep;
    InStepIs(size, r, available, w);
    WaitingIsLast(before, r, available, w);
    var cycle := Ring(before, w, size);
    var left, right := Ring(after, r, available + n), Ring(before, r, available) + d;
    forall i | 0 <= i < available + n ensures left[i] == right[i] {
      if i < available {
        assert Cell(size, r, i) == Cell(size, w, size - available + i);
        assert left[i] == Ring(after, w, size)[size - available + i] == cycle[size - available + i];
      } else {
        assert Cell(size, r, i) == Cell(size, w, i - available);
        assert left[i] == Ring(after, w, size)[i - available];
      }
    }
  }

  /** Two copies, the second from the start of the block, write over the cells from w on. */
  lemma TwoCopies(before: seq<byte>, after: seq<byte>, w: nat, d: seq<byte>, first: nat)
    requires w <= |before| == |after| && |d| <= |before| && first <= |d| && w + first <= |before|
    requires first == |d| || w + first == |before|
    requires forall i :: 0 <= i < first ==> after[w + i] == d[i]
    requires forall i :: first <= i < |d| ==> after[i - first] == d[i]
    requires forall c :: 0 <= c < |after| && !(w <= c < w + first) && !(c < |d| - first) ==> after[c] == before[c]
    ensures WrittenAt(before, after, w, d)
  {
    var size := |before|;
    var left, right := Ring(after, w, size), d + Ring(before, w, size)[|d|..];
    forall i | 0 <= i < size ensures left[i] == right[i] {
      var c := Cell(size, w, i);
      if i < first {
        assert c == w + i;
      } else if i < |d| {
        assert c == i - first;
        assert after[i - first] == d[i];
      } else {
        assert right[i] == Ring(before, w, size)[i];
      }
    }
  }

  lemma PointersAdvance(size: nat, r: nat, available: nat, w: nat, n: nat, next: nat)
    requires size > 0 && r <= size && w <= size && available + n <= size && InStep(size, r, available, w)
    requires next == Next(size, w, n)
    ensures InStep(size, r, available + n, next)
  {
    hide InStep;
    InStepIs(size, r, available, w);
    InStepIs(size, r, available + n, next);
  }

  /** After an overrun, which moves the read pointer to where the write pointer was, the pointers agree only if the write
      went once round. */
  lemma PointersAfterOverrun(size: nat, w: nat, n: nat, next: nat)
    requires size > 0 && w <= size && 0 < n <= size
    requires next == Next(size, w, n)
    ensures InStep(size, w, size, next) <==> n == size
  {
    hide InStep;
    InStepIs(size, w, size, next);
  }

  lemma PointersAfterRead(size: nat, r: nat, available: nat, w: nat, n: nat, next: nat)
    requires size > 0 && r <= size && w <= size && n <= available <= size && InStep(size, r, available, w)
    requires next == Next(size, r, n)
    ensures InStep(size, next, available - n, w)
  {
    hide InStep;
    InStepIs(size, r, available, w);
    InStepIs(size, next, available - n, w);
  }

  lemma RestOfRing(data: seq<byte>, r: nat, available: nat, n: nat, next: nat)
    requires r <= |data| && n <= available <= |data|
    requires next == Next(|data|, r, n)
    ensures Ring(data, next, available - n) == Ring(data, r, available)[n..]
  {
    var left, right := Ring(data, next, available - n), Ring(data, r, available)[n..];
    forall i | 0 <= i < available - n ensures left[i] == right[i] {
      assert right[i] == Ring(data, r, available)[n + i];
      assert Cell(|data|, next, i) == Cell(|data|, r, n + i);
    }
  }

  /** A read of n in two copies. */
  lemma ReadInTwo(data: seq<byte>, r: nat, available: nat, n: nat, first: nat)
    requires r <= |data| && n <= available <= |data| && first <= n && r + first <= |data|
    requires first == n || r + first == |data|
    ensures n - first <= |data| && data[r..r + first] + data[..n - first] == Ring(data, r, available)[..n]
  {
    var left, right := data[r..r + first] + data[..n - first], Ring(data, r, available)[..n];
    forall i | 0 <= i < n ensures left[i] == right[i] {
      assert right[i] == data[Cell(|data|, r, i)];
    }
  }

  // ----- The buffer -----

  function Zeros(n: nat): (z: seq<byte>)
    ensures |z| == n && forall i :: 0 <= i < n ==> z[i] == 0
  {
    seq(n, _ => 0)
  }

  class Buffer {
    const data: array<byte>
    var read_ptr: nat
    var write_ptr: nat
    var available: nat

    /** Both pointers may rest at the end of the block. */
    ghost predicate Bounded()
      reads this
    {
      data.Length > 0 && read_ptr <= data.Length && write_ptr <= data.Length && available <= data.Length
    }

    ghost predicate Valid()
      reads this
    {
      Bounded() && InStep(data.Length, read_ptr, available, write_ptr)
    }

    /** The counts and pointers after a write of n. */
    ghost predicate Moved(n: nat, r: nat, w: nat, a: nat)
      reads this
    {
      && w <= data.Length && n <= data.Length && write_ptr == Next(data.Length, w, n)
      && (if a + n > data.Length then available == data.Length && read_ptr == w else available == a + n && read_ptr == r)
    }

    /** What is waiting to be read. */
    ghost function Contents(): seq<byte>
      requires Bounded()
      reads this, data
    {
      Ring(data[..], read_ptr, available)
    }

    /** The whole ring from the write pointer on: stale cells, and then what is waiting. */
    ghost function Cycle(): seq<byte>
      requires Bounded()
      reads this, data
    {
      Ring(data[..], write_ptr, data.Length)
    }

    /** speex_buffer_init */
    constructor (size: nat)
      requires size > 0
      ensures Valid() && Contents() == [] && data.Length == size && fresh(data)
    {
      data := new byte[size];
      read_ptr, write_ptr, available := 0, 0, 0;
    }

    /** speex_buffer_write: of more than the size, the last part. A write that fits is queued. One that does not makes the
        ring begin with the new octets, whatever is left of the old ones after them. */
    method Write(src: array<byte>, len: nat) returns (n: nat)
      requires Bounded() && len <= src.Length && src != data
      modifies this, data
      ensures Bounded() && n == if len > data.Length then data.Length else len
      ensures WrittenAt(old(data[..]), data[..], old(write_ptr), src[len - n..len])
      ensures Moved(n, old(read_ptr), old(write_ptr), old(available))
      ensures var d := src[len - n..len];
              && (old(Valid()) && old(available) + n <= data.Length ==> Valid() && Contents() == old(Contents()) + d)
              && (old(available) + n > data.Length ==>
                    Contents() == d + old(Cycle())[n..] && (Valid() <==> n == data.Length))
    {
      hide InStep, Ring;
      var skip := 0;
      n := len;
      if len > data.Length {
        skip := len - data.Length;
        n := data.Length;
      }
      CopyIn(src, skip, n);
      Advance(n, old(data[..]), src[skip..skip + n]);
    }

    /** The copies of speex_buffer_write. */
    method CopyIn(src: array<byte>, skip: nat, n: nat)
      requires Bounded() && skip + n <= src.Length && n <= data.Length && src != data
      modifies data
      ensures WrittenAt(old(data[..]), data[..], write_ptr, src[skip..skip + n])
    {
      var end := write_ptr + n;
      var end1 := if end > data.Length then data.Length else end;
      var first := end1 - write_ptr;
      ghost var before := data[..];
      Memory.Copy(src, skip, data, write_ptr, first);
      ghost var mid := data[..];
      if end > data.Length {
        end := end - data.Length;
        Memory.Copy(src, skip + first, data, 0, end);
      }
      ghost var d := src[skip..skip + n];
      assert src[skip..skip + first] == d[..first] && src[skip + first..skip + n] == d[first..];
      Copied(before, mid, data[..], write_ptr, d, first);
    }

    /** The filling of speex_buffer_writezeros. */
    method FillIn(n: nat)
      requires Bounded() && n <= data.Length
      modifies data
      ensures WrittenAt(old(data[..]), data[..], write_ptr, Zeros(n))
    {
      var end := write_ptr + n;
      var end1 := if end > data.Length then data.Length else end;
      var first := end1 - write_ptr;
      ghost var before := data[..];
      Memory.Fill(data, write_ptr, first, 0);
      if end > data.Length {
        end := end - data.Length;
        Memory.Fill(data, 0, end, 0);
      }
      TwoCopies(before, data[..], write_ptr, Zeros(n), first);
    }

    /** The end of both: the counts and the pointers. */
    method Advance(n: nat, ghost before: seq<byte>, ghost d: seq<byte>)
      requires Bounded() && n == |d| <= data.Length == |before| && WrittenAt(before, data[..], write_ptr, d)
      modifies this
      ensures Bounded() && Moved(n, old(read_ptr), old(write_ptr), old(available))
      ensures old(Valid()) && old(available) + n <= data.Length ==>
                Valid() && Contents() == old(Ring(before, read_ptr, available)) + d
      ensures old(available) + n > data.Length ==>
                Contents() == d + old(Ring(before, write_ptr, data.Length))[n..] && (Valid() <==> n == data.Length)
    {
      hide InStep, Ring;
      ghost var r, a, w := read_ptr, available, write_ptr;
      available := available + n;
      if available > data.Length {
        available := data.Length;
        read_ptr := write_ptr;
      }
      write_ptr := write_ptr + n;
      if write_ptr > data.Length {
        write_ptr := write_ptr - data.Length;
      }
      if a + n > data.Length {
        PointersAfterOverrun(data.Length, w, n, write_ptr);
      } else if InStep(data.Length, r, a, w) {
        PointersAdvance(data.Length, r, a, w, n, write_ptr);
        FittingWrite(before, data[..], r, a, w, d);
      }
    }

    /** speex_buffer_writezeros */
    method WriteZeros(len: nat) returns (n: nat)
      requires Bounded()
      modifies this, data
      ensures Bounded() && n == if len > data.Length then data.Length else len
      ensures WrittenAt(old(data[..]), data[..], old(write_ptr), Zeros(n))
      ensures Moved(n, old(read_ptr), old(write_ptr), old(available))
      ensures old(Valid()) && old(available) + n <= data.Length ==> Valid() && Contents() == old(Contents()) + Zeros(n)
      ensures old(available) + n > data.Length ==>
                Contents() == Zeros(n) + old(Cycle())[n..] && (Valid() <==> n == data.Length)
    {
      hide InStep, Ring;
      n := len;
      if len > data.Length {
        n := data.Length;
      }
      FillIn(n);
      Advance(n, old(data[..]), Zeros(n));
    }

    /** speex_buffer_read: asked for more than is waiting, it also clears what follows, up to the size of the ring. */
    method Read(dst: array<byte>, len: nat) returns (n: nat)
      requires Bounded() && dst != data && (if len > available then data.Length else len) <= dst.Length
      modifies this`read_ptr, this`available, dst
      ensures Bounded() && (old(Valid()) ==> Valid())
      ensures n == (if len > old(available) then old(available) else len) && available == old(available) - n
      ensures n <= data.Length && read_ptr == Next(data.Length, old(read_ptr), n)
      ensures dst[..n] == old(Contents())[..n] && Contents() == old(Contents())[n..]
      ensures var cleared := if len > n then data.Length else n;
              && (forall i :: n <= i < cleared ==> dst[i] == 0)
              && (forall i :: cleared <= i < dst.Length ==> dst[i] == old(dst[i]))
    {
      hide InStep, Ring;
      ghost var r, a := read_ptr, available;
      n := len;
      if len > available {
        Memory.Fill(dst, available, data.Length - available, 0);
        n := available;
      }
      CopyOut(dst, n);
      available := available - n;
      read_ptr := read_ptr + n;
      if read_ptr > data.Length {
        read_ptr := read_ptr - data.Length;
      }
      RestOfRing(data[..], r, a, n, read_ptr);
      if InStep(data.Length, r, a, write_ptr) {
        PointersAfterRead(data.Length, r, a, write_ptr, n, read_ptr);
      }
    }

    /** The copies of speex_buffer_read. */
    method CopyOut(dst: array<byte>, n: nat)
      requires Bounded() && dst != data && n <= available && n <= dst.Length
      modifies dst
      ensures dst[..n] == Contents()[..n] && forall i :: n <= i < dst.Length ==> dst[i] == old(dst[i])
    {
      hide Ring;
      var end := read_ptr + n;
      var end1 := if end > data.Length then data.Length else end;
      var first := end1 - read_ptr;
      Memory.Copy(data, read_ptr, dst, 0, first);
      if end > data.Length {
        end := end - data.Length;
        Memory.Copy(data, 0, dst, first, end);
      }
      ReadInTwo(data[..], read_ptr, available, n, first);
      assert dst[..n] == data[..][read_ptr..read_ptr + first] + data[..][..n - first];
    }
  }

  lemma Copied(before: seq<byte>, mid: seq<byte>, after: seq<byte>, w: nat, d: seq<byte>, first: nat)
    requires w <= |before| == |mid| == |after| && |d| <= |before| && first <= |d| && w + first <= |before|
    requires first == |d| || w + first == |before|
    requires mid[..w] == before[..w] && mid[w..w + first] == d[..first] && mid[w + first..] == before[w + first..]
    requires after[..|d| - first] == d[first..] && after[|d| - first..] == mid[|d| - first..]
    ensures WrittenAt(before, after, w, d)
  {
    forall c | 0 <= c < |after|
      ensures after[c] == if c < |d| - first then d[first + c] else if w <= c < w + first then d[c - w] else before[c]
    {
      if c < |d| - first {
        assert after[c] == after[..|d| - first][c];
      } else {
        assert after[c] == after[|d| - first..][c - (|d| - first)] == mid[c];
        AtCell(before, mid, w, d, first, c);
      }
    }
    TwoCopies(before, after, w, d, first);
  }

  lemma AtCell(before: seq<byte>, mid: seq<byte>, w: nat, d: seq<byte>, first: nat, c: nat)
    requires c < |before| == |mid| && first <= |d| && w + first <= |before|
    requires mid[..w] == before[..w] && mid[w..w + first] == d[..first] && mid[w + first..] == before[w + first..]
    ensures mid[c] == if w <= c < w + first then d[c - w] else before[c]
  {
    if c < w {
      assert mid[..w][c] == mid[c];
    } else if c < w + first {
      assert mid[w..w + first][c - w] == mid[c];
    } else {
      assert mid[w + first..][c - (w + first)] == mid[c];
    }
  }

  // ----- Overruns -----

  /** What an overrun leaves waiting, of a ring seen from the write pointer. */
  ghost function Overrun(cycle: seq<byte>, d: seq<byte>): seq<byte>
    requires |d| <= |cycle|
  {
    d + cycle[|d|..]
  }

  ghost function Last(n: nat, s: seq<byte>): seq<byte>
    requires n <= |s|
  {
    s[|s| - n..]
  }

  /** A queue would keep the last octets. A write that overruns does so, whatever is in the ring and in the write, exactly
      if it goes once round. */
  lemma OverrunKeepsOrder(size: nat, available: nat, n: nat)
    requires available <= size && n <= size && available + n > size
    ensures (forall cycle: seq<byte>, d: seq<byte> :: |cycle| == size && |d| == n ==>
               Overrun(cycle, d) == Last(size, cycle[size - available..] + d))
            <==> n == size
  {
    if n < size {
      var cycle, d := Zeros(size), Ones(n);
      var kept, queued := Overrun(cycle, d), Last(size, cycle[size - available..] + d);
      assert kept[0] == 1 && queued[0] == 0;
    }
  }

  function Ones(n: nat): (z: seq<byte>)
    ensures |z| == n
  {
    seq(n, _ => 1)
  }

  // ----- Runs -----

  datatype Op = Put(octets: seq<byte>) | Clear(n: nat) | Get(n: nat)

  /** The queue after an operation, and what it gave out. */
  ghost function Queue(q: seq<byte>, op: Op): (seq<byte>, seq<byte>) {
    match op
    case Put(octets) => (q + octets, [])
    case Clear(n) => (q + Zeros(n), [])
    case Get(n) => if n <= |q| then (q[n..], q[..n]) else ([], q)
  }

  /** Every write has room, and no read asks for more than there is. */
  ghost predicate Fitting(q: seq<byte>, ops: seq<Op>, size: nat)
    decreases |ops|
  {
    ops != [] ==>
      && Fitting(Queue(q, ops[0]).0, ops[1..], size)
      && match ops[0]
         case Put(octets) => |q| + |octets| <= size
         case Clear(n) => |q| + n <= size
         case Get(n) => n <= |q|
  }

  ghost function Output(q: seq<byte>, ops: seq<Op>): seq<byte>
    decreases |ops|
  {
    if ops == [] then [] else Queue(q, ops[0]).1 + Output(Queue(q, ops[0]).0, ops[1..])
  }

  /** Any fitting run gives out what a queue gives out. */
  method Run(b: Buffer, ops: seq<Op>) returns (out: seq<byte>)
    requires b.Valid() && Fitting(b.Contents(), ops, b.data.Length)
    modifies b, b.data
    ensures b.Valid() && out == Output(old(b.Contents()), ops)
  {
    hide Queue, Fitting, Output;
    out := [];
    var i := 0;
    ghost var start := b.Contents();
    assert ops[0..] == ops;
    while i < |ops|
      invariant 0 <= i <= |ops| && b.Valid() && Fitting(b.Contents(), ops[i..], b.data.Length)
      invariant out + Output(b.Contents(), ops[i..]) == Output(start, ops)
    {
      assert ops[i..][0] == ops[i] && ops[i..][1..] == ops[i + 1..];
      NextOp(b.Contents(), ops[i..], b.data.Length, out);
      var given := Do(b, ops[i]);
      out := out + given;
      i := i + 1;
    }
    assert ops[i..] == [];
    NoOps(b.Contents());
    assert out + [] == out;
  }

  lemma NextOp(q: seq<byte>, ops: seq<Op>, size: nat, out: seq<byte>)
    requires ops != [] && Fitting(q, ops, size)
    ensures Fitting(q, [ops[0]], size) && Fitting(Queue(q, ops[0]).0, ops[1..], size)
    ensures out + Output(q, ops) == out + Queue(q, ops[0]).1 + Output(Queue(q, ops[0]).0, ops[1..])
  {
  }

  lemma NoOps(q: seq<byte>)
    ensures Output(q, []) == []
  {
  }

  method Do(b: Buffer, op: Op) returns (given: seq<byte>)
    requires b.Valid() && Fitting(b.Contents(), [op], b.data.Length)
    modifies b, b.data
    ensures b.Valid() && (b.Contents(), given) == Queue(old(b.Contents()), op)
  {
    given := [];
    match op {
      case Put(octets) =>
        var src := new byte[|octets|](i requires 0 <= i < |octets| => octets[i]);
        assert src[..] == octets && src[0..|octets|] == octets;
        var n := b.Write(src, |octets|);
      case Clear(n) =>
        var m := b.WriteZeros(n);
      case Get(n) =>
        var dst := new byte[n];
        var m := b.Read(dst, n);
        given := dst[..];
        assert dst[..] == dst[..n];
    }
  }
}
