/** Packet segments: the parallel lacing and granule tables and the body octets they measure, and the packets
    (sections 5 and 6 of RFC 3533) that such a table spells out. */
module OggSegments {
  import opened Bytes
  import Seqs

  /** One entry of lacing_vals: the low octet, and the flag bits 0x100, 0x200 and 0x400. */
  datatype Lacing = Lacing(val: byte, first: bool, last: bool, hole: bool)

  const HOLE := Lacing(0, false, false, true)

  /** A value below 255 closes a packet; so does a hole marker, whose value is 0. */
  predicate Ends(l: Lacing) {
    l.val < 255
  }

  datatype Segs = Segs(lac: seq<Lacing>, gran: seq<int>, body: seq<byte>) {
    ghost predicate Valid() {
      |gran| == |lac| && |body| == Off(lac, |lac|)
    }

    /** No packet is left open at the end. */
    ghost predicate Closed() {
      lac == [] || Ends(lac[|lac| - 1])
    }
  }

  const NONE := Segs([], [], [])

  /** Where in the body the segment k begins. */
  function Off(lac: seq<Lacing>, k: nat): nat
    requires k <= |lac|
  {
    if k == 0 then 0 else Off(lac, k - 1) + lac[k - 1].val
  }

  /** The first segment of the packet that segment e belongs to. */
  function Start(lac: seq<Lacing>, e: nat): (s: nat)
    requires e < |lac|
    ensures s <= e && (s == 0 || Ends(lac[s - 1]))
    ensures forall i :: s <= i < e ==> !Ends(lac[i])
  {
    if e == 0 || Ends(lac[e - 1]) then e else Start(lac, e - 1)
  }

  /** What a packet reader sees at a closing entry: a loss marker, or a whole packet. */
  datatype Event = Hole | Packet(data: seq<byte>, bos: bool, eos: bool, granulepos: int)

  function AnyLast(lac: seq<Lacing>, i: nat, j: nat): bool
    requires i <= j <= |lac|
    decreases j
  {
    i < j && (lac[j - 1].last || AnyLast(lac, i, j - 1))
  }

  function EventAt(s: Segs, e: nat): Event
    requires s.Valid() && e < |s.lac|
  {
    if s.lac[e].hole then Hole
    else
      var b := Start(s.lac, e);
      OffIsMonotone(s.lac, b, e + 1);
      OffIsMonotone(s.lac, e + 1, |s.lac|);
      Packet(s.body[Off(s.lac, b)..Off(s.lac, e + 1)], s.lac[b].first, AnyLast(s.lac, b, e + 1), s.gran[e])
  }

  /** The events of the first k segments, in order. */
  function Events(s: Segs, k: nat): seq<Event>
    requires s.Valid() && k <= |s.lac|
  {
    if k == 0 then [] else Events(s, k - 1) + (if Ends(s.lac[k - 1]) then [EventAt(s, k - 1)] else [])
  }

  lemma {:induction false} OffIsMonotone(lac: seq<Lacing>, i: nat, j: nat)
    requires i <= j <= |lac|
    ensures Off(lac, i) <= Off(lac, j)
    decreases j
  {
    if i < j {
      OffIsMonotone(lac, i, j - 1);
    }
  }

  // ----- Joining and cutting -----

  function Append(s: Segs, t: Segs): Segs {
    Segs(s.lac + t.lac, s.gran + t.gran, s.body + t.body)
  }

  function Slice(s: Segs, i: nat, j: nat): Segs
    requires s.Valid() && i <= j <= |s.lac|
  {
    OffIsMonotone(s.lac, i, j);
    OffIsMonotone(s.lac, j, |s.lac|);
    Segs(s.lac[i..j], s.gran[i..j], s.body[Off(s.lac, i)..Off(s.lac, j)])
  }

  lemma {:induction false} OffOfAppend(a: seq<Lacing>, b: seq<Lacing>, k: nat)
    requires k <= |a + b|
    ensures k <= |a| ==> Off(a + b, k) == Off(a, k)
    ensures k >= |a| ==> Off(a + b, k) == Off(a, |a|) + Off(b, k - |a|)
  {
    if k > 0 {
      OffOfAppend(a, b, k - 1);
    }
  }

  lemma AppendIsValid(s: Segs, t: Segs)
    requires s.Valid() && t.Valid()
    ensures Append(s, t).Valid()
  {
    OffOfAppend(s.lac, t.lac, |s.lac + t.lac|);
  }

  lemma {:induction false} OffOfSlice(lac: seq<Lacing>, i: nat, j: nat, k: nat)
    requires i <= j <= |lac| && k <= j - i
    ensures Off(lac[i..j], k) == Off(lac, i + k) - Off(lac, i)
  {
    if k > 0 {
      OffOfSlice(lac, i, j, k - 1);
    }
  }

  lemma SliceIsValid(s: Segs, i: nat, j: nat)
    requires s.Valid() && i <= j <= |s.lac|
    ensures Slice(s, i, j).Valid()
  {
    OffOfSlice(s.lac, i, j, j - i);
    OffIsMonotone(s.lac, i, j);
    OffIsMonotone(s.lac, j, |s.lac|);
  }

  lemma AppendOfSlices(s: Segs, i: nat, j: nat, k: nat)
    requires s.Valid() && i <= j <= k <= |s.lac|
    ensures Append(Slice(s, i, j), Slice(s, j, k)) == Slice(s, i, k)
  {
    OffIsMonotone(s.lac, i, j);
    OffIsMonotone(s.lac, j, k);
    OffIsMonotone(s.lac, k, |s.lac|);
    Seqs.JoinSlices(s.lac, i, j, k);
    Seqs.JoinSlices(s.gran, i, j, k);
    Seqs.JoinSlices(s.body, Off(s.lac, i), Off(s.lac, j), Off(s.lac, k));
  }

  lemma WholeSlice(s: Segs)
    requires s.Valid()
    ensures Slice(s, 0, |s.lac|) == s
  {
    assert s.lac[0..|s.lac|] == s.lac && s.gran[0..|s.gran|] == s.gran && s.body[0..|s.body|] == s.body;
  }

  lemma SliceOfSecond(s: Segs, t: Segs, i: nat, j: nat)
    requires s.Valid() && t.Valid() && i <= j <= |t.lac|
    ensures Append(s, t).Valid()
    ensures Slice(Append(s, t), |s.lac| + i, |s.lac| + j) == Slice(t, i, j)
  {
    hide Off;
    AppendIsValid(s, t);
    OffOfAppend(s.lac, t.lac, |s.lac| + i);
    OffOfAppend(s.lac, t.lac, |s.lac| + j);
    OffIsMonotone(t.lac, i, j);
    OffIsMonotone(t.lac, j, |t.lac|);
    Seqs.SliceInSecond(s.lac, t.lac, i, j);
    Seqs.SliceInSecond(s.gran, t.gran, i, j);
    Seqs.SliceInSecond(s.body, t.body, Off(t.lac, i), Off(t.lac, j));
  }

  lemma SliceOfFirst(s: Segs, t: Segs, i: nat, j: nat)
    requires s.Valid() && t.Valid() && i <= j <= |s.lac|
    ensures Append(s, t).Valid()
    ensures Slice(Append(s, t), i, j) == Slice(s, i, j)
  {
    AppendIsValid(s, t);
    OffOfAppend(s.lac, t.lac, i);
    OffOfAppend(s.lac, t.lac, j);
    OffIsMonotone(s.lac, i, j);
    OffIsMonotone(s.lac, j, |s.lac|);
    Seqs.SliceInFirst(s.lac, t.lac, i, j);
    Seqs.SliceInFirst(s.gran, t.gran, i, j);
    Seqs.SliceInFirst(s.body, t.body, Off(s.lac, i), Off(s.lac, j));
  }

  lemma AppendAssociates(s: Segs, t: Segs, u: Segs)
    ensures Append(Append(s, t), u) == Append(s, Append(t, u))
  {
    Seqs.ConcatAssociates(s.lac, t.lac, u.lac);
    Seqs.ConcatAssociates(s.gran, t.gran, u.gran);
    Seqs.ConcatAssociates(s.body, t.body, u.body);
  }

  lemma AppendNone(s: Segs)
    ensures Append(s, NONE) == s && Append(NONE, s) == s
  {
    assert s.lac + [] == s.lac && s.gran + [] == s.gran && s.body + [] == s.body;
    assert [] + s.lac == s.lac && [] + s.gran == s.gran && [] + s.body == s.body;
  }

  // ----- Events of joined tables -----

  lemma {:induction false} StartOfFirst(a: seq<Lacing>, b: seq<Lacing>, e: nat)
    requires e < |a|
    ensures Start(a + b, e) == Start(a, e)
  {
    if e > 0 && !Ends(a[e - 1]) {
      StartOfFirst(a, b, e - 1);
    }
  }

  lemma {:induction false} StartOfSecond(a: seq<Lacing>, b: seq<Lacing>, e: nat)
    requires e < |b| && (a == [] || Ends(a[|a| - 1]))
    ensures Start(a + b, |a| + e) == |a| + Start(b, e)
  {
    if e > 0 && !Ends(b[e - 1]) {
      assert (a + b)[|a| + e - 1] == b[e - 1];
      StartOfSecond(a, b, e - 1);
    }
  }

  lemma {:induction false} AnyLastOfFirst(a: seq<Lacing>, b: seq<Lacing>, i: nat, j: nat)
    requires i <= j <= |a|
    ensures AnyLast(a + b, i, j) == AnyLast(a, i, j)
    decreases j
  {
    if i < j {
      AnyLastOfFirst(a, b, i, j - 1);
    }
  }

  lemma {:induction false} AnyLastOfSecond(a: seq<Lacing>, b: seq<Lacing>, i: nat, j: nat)
    requires i <= j <= |b|
    ensures AnyLast(a + b, |a| + i, |a| + j) == AnyLast(b, i, j)
    decreases j
  {
    if i < j {
      AnyLastOfSecond(a, b, i, j - 1);
    }
  }

  lemma EventOfFirst(s: Segs, t: Segs, e: nat)
    requires s.Valid() && t.Valid() && e < |s.lac|
    ensures Append(s, t).Valid() && EventAt(Append(s, t), e) == EventAt(s, e)
  {
    AppendIsValid(s, t);
    var b := Start(s.lac, e);
    StartOfFirst(s.lac, t.lac, e);
    AnyLastOfFirst(s.lac, t.lac, b, e + 1);
    OffOfAppend(s.lac, t.lac, b);
    OffOfAppend(s.lac, t.lac, e + 1);
    OffIsMonotone(s.lac, b, e + 1);
    OffIsMonotone(s.lac, e + 1, |s.lac|);
    Seqs.SliceInFirst(s.body, t.body, Off(s.lac, b), Off(s.lac, e + 1));
  }

  lemma EventOfSecond(s: Segs, t: Segs, e: nat)
    requires s.Valid() && t.Valid() && s.Closed() && e < |t.lac|
    ensures Append(s, t).Valid() && EventAt(Append(s, t), |s.lac| + e) == EventAt(t, e)
  {
    hide Off, Start, AnyLast;
    AppendIsValid(s, t);
    var b := Start(t.lac, e);
    StartOfSecond(s.lac, t.lac, e);
    AnyLastOfSecond(s.lac, t.lac, b, e + 1);
    OffOfAppend(s.lac, t.lac, |s.lac| + b);
    OffOfAppend(s.lac, t.lac, |s.lac| + e + 1);
    OffIsMonotone(t.lac, b, e + 1);
    OffIsMonotone(t.lac, e + 1, |t.lac|);
    Seqs.SliceInSecond(s.body, t.body, Off(t.lac, b), Off(t.lac, e + 1));
    var u := Append(s, t);
    assert u.lac[|s.lac| + e] == t.lac[e] && u.lac[|s.lac| + b] == t.lac[b] && u.gran[|s.lac| + e] == t.gran[e];
    assert Off(u.lac, |s.lac| + b) == |s.body| + Off(t.lac, b);
    assert Off(u.lac, |s.lac| + e + 1) == |s.body| + Off(t.lac, e + 1);
  }

  lemma {:induction false} EventsOfFirst(s: Segs, t: Segs, k: nat)
    requires s.Valid() && t.Valid() && k <= |s.lac|
    ensures Append(s, t).Valid() && Events(Append(s, t), k) == Events(s, k)
  {
    hide EventAt;
    AppendIsValid(s, t);
    if k > 0 {
      EventsOfFirst(s, t, k - 1);
      EventOfFirst(s, t, k - 1);
    }
  }

  /** After a closed table, a second table reads exactly as it would on its own. */
  lemma {:induction false} EventsOfAppend(s: Segs, t: Segs, k: nat)
    requires s.Valid() && t.Valid() && s.Closed() && k <= |t.lac|
    ensures Append(s, t).Valid()
    ensures Events(Append(s, t), |s.lac| + k) == Events(s, |s.lac|) + Events(t, k)
  {
    hide EventAt;
    AppendIsValid(s, t);
    if k == 0 {
      EventsOfFirst(s, t, |s.lac|);
    } else {
      EventsOfAppend(s, t, k - 1);
      EventOfSecond(s, t, k - 1);
      assert Append(s, t).lac[|s.lac| + k - 1] == t.lac[k - 1];
    }
  }

  lemma {:induction false} NoEvents(s: Segs, i: nat, j: nat)
    requires s.Valid() && i <= j <= |s.lac| && forall e :: i <= e < j ==> !Ends(s.lac[e])
    ensures Events(s, j) == Events(s, i)
    decreases j
  {
    if i < j {
      NoEvents(s, i, j - 1);
    }
  }
}
