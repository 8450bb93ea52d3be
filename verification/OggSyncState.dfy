/** ogg_sync_state: the buffer in which pages are found, updated in place. */
module OggSyncState {
  import opened Options
  import opened Bytes
  import Seqs
  import opened OggPage
  import opened OggStream
  import Checksum
  import Memory
  import Sync = OggSync

  class SyncState {
    var data: array<byte>
    var fill: nat
    var returned: nat
    var unsynced: bool
    var headerBytes: nat
    var bodyBytes: nat

    /** The header and body sizes, once read, are those of the page at hand. */
    ghost predicate Valid()
      reads this, data
    {
      && returned <= fill <= data.Length
      && (headerBytes == 0 ==> bodyBytes == 0)
      && (headerBytes > 0 ==>
            var s := Held();
            |s| >= 27 && s[..4] == CAPTURE && headerBytes == Sync.HeaderLength(s) <= |s| &&
            headerBytes + bodyBytes == Sync.PageLength(s))
    }

    /** The octets fed and not yet passed over or returned. */
    ghost function Held(): seq<byte>
      requires returned <= fill <= data.Length
      reads this, data
    {
      data[returned..fill]
    }

    /** ogg_sync_init */
    constructor ()
      ensures Valid() && Held() == [] && !unsynced && fresh(data)
    {
      data := new byte[0];
      fill, returned, unsynced, headerBytes, bodyBytes := 0, 0, false, 0, 0;
    }

    /** ogg_sync_reset */
    method Reset()
      requires Valid()
      modifies this`fill, this`returned, this`unsynced, this`headerBytes, this`bodyBytes
      ensures Valid() && Held() == [] && !unsynced
    {
      fill, returned, unsynced, headerBytes, bodyBytes := 0, 0, false, 0, 0;
    }

    /** ogg_sync_buffer: move what is held to the front, and make room for `size` more octets behind it. */
    method Buffer(size: nat)
      requires Valid()
      modifies this`data, this`fill, this`returned, data
      ensures Valid() && Held() == old(Held()) && returned == 0 && fill + size <= data.Length
      ensures data == old(data) || fresh(data)
    {
      if returned > 0 {
        fill := fill - returned;
        Memory.Slide(data, returned, fill);
        returned := 0;
      }
      assert data[returned..fill] == old(Held());
      if size > data.Length - fill {
        data := Memory.Grow(data, size + fill + 4096);
      }
      assert data[returned..fill] == old(Held());
    }

    /** ogg_sync_wrote: the caller has put `bytes` octets at the fill mark. */
    method Wrote(bytes: nat) returns (ret: int)
      requires Valid()
      modifies this`fill
      ensures Valid() && ret == (if old(fill) + bytes > data.Length then -1 else 0)
      ensures ret == 0 ==> fill == old(fill) + bytes && Held() == old(Held()) + data[old(fill)..fill]
      ensures ret != 0 ==> fill == old(fill)
    {
      if fill + bytes > data.Length {
        return -1;
      }
      ghost var s := Held();
      fill := fill + bytes;
      assert data[returned..fill] == s + data[fill - bytes..fill];
      MoreKeepsSizes(s, data[fill - bytes..fill]);
      ret := 0;
    }

    /** What a caller does with the two: copy a chunk in. */
    method Feed(chunk: seq<byte>)
      requires Valid()
      modifies this`data, this`fill, this`returned, data
      ensures Valid() && Held() == old(Held()) + chunk
      ensures data == old(data) || fresh(data)
    {
      Buffer(|chunk|);
      ghost var s := Held();
      Memory.Store(chunk, data, fill);
      assert data[returned..fill] == s;
      var ret := Wrote(|chunk|);
    }

    /** memchr for the first octet of the capture pattern, from `at` to the fill mark. */
    method FindCapture(at: nat) returns (next: nat)
      requires Valid() && returned <= at <= fill
      ensures next == returned + Sync.NextCapture(Held(), at - returned) && at <= next <= fill
    {
      ghost var s := Held();
      next := at;
      while next < fill && data[next] != Sync.CAPTURE_FIRST
        invariant at <= next <= fill
        invariant Sync.NextCapture(s, at - returned) == Sync.NextCapture(s, next - returned)
      {
        assert data[next] == s[next - returned];
        next := next + 1;
      }
      assert next < fill ==> data[next] == s[next - returned];
    }

    /** sync_fail: forget the sizes, and pass over octets up to the next possible capture. */
    method LoseSync() returns (ret: int)
      requires returned < fill <= data.Length
      modifies this`returned, this`headerBytes, this`bodyBytes
      ensures Valid() && var n := Sync.NextCapture(old(Held()), 1);
                         ret == -(n as int) && Held() == old(Held())[n..]
    {
      headerBytes, bodyBytes := 0, 0;
      ghost var s := Held();
      var next := FindCapture(returned + 1);
      ret := returned - next;
      returned := next;
      assert data[returned..fill] == s[Sync.NextCapture(s, 1)..];
    }

    /** Put the checksum that the page's other octets call for in its field. */
    method Recompute(log: PageRef)
      requires log.Bounded() && log.header == data
      modifies data
      ensures data[log.headerAt + 22..log.headerAt + 26] == Checksum.FieldOctets(Checksum.PageCrc(old(log.View().Raw())))
      ensures data[..log.headerAt + 22] == old(data[..log.headerAt + 22])
      ensures data[log.headerAt + 26..] == old(data[log.headerAt + 26..])
    {
      hide Checksum.FieldOctets, Checksum.Crc, Checksum.CrcBits, Checksum.Bits, Unsigned;
      ghost var p := log.View();
      StoreField(log, [0, 0, 0, 0]);
      BlankKeepsCrc(p, log.View());
      SetChecksum(log);
    }

    /** Recompute the checksum in place and compare. The data end up as they were, whichever way it goes. */
    method Verify() returns (ok: bool)
      requires Valid() && headerBytes >= 27 && returned + headerBytes + bodyBytes <= fill
      modifies data
      ensures data[..] == old(data[..])
      ensures ok == Sealed(Held()[..headerBytes + bodyBytes])
    {
      hide Checksum.PageCrc, Checksum.FieldOctets, Sync.HeaderLength, Sync.PageLength;
      ghost var before := data[..];
      var log := PageRef(data, returned, headerBytes, data, returned + headerBytes, bodyBytes);
      RawOf(before, returned, headerBytes, bodyBytes, fill);
      FieldOf(log.View(), before, returned, headerBytes);
      var chksum := data[returned + 22..returned + 26];
      Recompute(log);
      var computed := data[returned + 22..returned + 26];
      ok := chksum == computed;
      Restore(returned + 22, chksum, ok, before);
    }

    /** The checksum as it was, if another one has replaced it. */
    method Restore(at: nat, chksum: seq<byte>, same: bool, ghost before: seq<byte>)
      requires |chksum| == 4 && at + 4 <= data.Length == |before| && chksum == before[at..at + 4]
      requires data[..at] == before[..at] && data[at + 4..] == before[at + 4..] && same == (chksum == data[at..at + 4])
      modifies data
      ensures data[..] == before
    {
      if !same {
        Memory.Store(chksum, data, at);
      }
      OnlyField(before, data[..], at, chksum);
    }

    /** Read the sizes of the page at hand out of its header, once enough of it is here. */
    method ReadSizes() returns (lost: bool, more: bool)
      requires Valid() && headerBytes == 0
      modifies this`headerBytes, this`bodyBytes
      ensures Valid() && !(lost && more)
      ensures more ==> Sync.SeekPage(Held()) == Sync.More && headerBytes == 0
      ensures lost ==> |Held()| >= 27 && Held()[..4] != CAPTURE && headerBytes == 0
      ensures !lost && !more ==> headerBytes >= 27
    {
      var bytes := fill - returned;
      if bytes < 27 {
        return false, true;
      }
      ghost var s := Held();
      assert s[26] == data[returned + 26];
      assert data[returned..returned + 4] == s[..4];
      if data[returned..returned + 4] != CAPTURE {
        return true, false;
      }
      var table := data[returned + 26];
      var header := 27 + table as int;
      if bytes < header {
        return false, true;
      }
      Seqs.SliceOfSlice(data[..], returned, fill, 27, header);
      assert data[..][returned..fill] == s && data[..][returned + 27..returned + header] == data[returned + 27..returned + header];
      bodyBytes := TableSum(returned + 27, table as int);
      headerBytes := header;
      return false, false;
    }

    method TableSum(at: nat, n: nat) returns (sum: nat)
      requires at + n <= data.Length
      ensures sum == Sum(data[at..at + n])
    {
      sum := 0;
      var i := 0;
      while i < n
        invariant 0 <= i <= n && sum == Sum(data[at..at + i])
      {
        assert data[at..at + i + 1][..i] == data[at..at + i];
        sum := sum + data[at + i];
        i := i + 1;
      }
    }

    /** ogg_sync_pageseek: n for a page of n octets, 0 for not enough data, -n for n octets passed over. */
    method PageSeek() returns (ret: int, og: Option<PageRef>)
      requires Valid()
      modifies this`returned, this`unsynced, this`headerBytes, this`bodyBytes, data
      ensures Valid() && data[..] == old(data[..]) && fill == old(fill)
      ensures match Sync.SeekPage(old(Held()))
        case More => ret == 0 && og.None? && Held() == old(Held()) && unsynced == old(unsynced)
        case Skip(n) => ret == -(n as int) && og.None? && Held() == old(Held())[n..] && unsynced == old(unsynced)
        case Found(n) =>
          && ret == n && Held() == old(Held())[n..] && !unsynced
          && og.Some? && og.value.Bounded() && og.value.header == og.value.body == data
          && og.value.View().Sized() && og.value.View().Raw() == old(Held())[..n]
    {
      hide Sealed, Sync.PageLength, Sync.NextCapture;
      ghost var s := Held();
      if headerBytes == 0 {
        var lost, more := ReadSizes();
        if more {
          return 0, None;
        }
        if lost {
          ret := LoseSync();
          return ret, None;
        }
      }
      if bodyBytes + headerBytes > fill - returned {
        return 0, None;
      }
      ret, og := CheckPage();
    }

    /** A whole page is at hand: it is taken if its checksum is right. */
    method CheckPage() returns (ret: int, og: Option<PageRef>)
      requires Valid() && headerBytes >= 27 && returned + headerBytes + bodyBytes <= fill
      modifies this`returned, this`unsynced, this`headerBytes, this`bodyBytes, data
      ensures Valid() && data[..] == old(data[..]) && fill == old(fill)
      ensures var s := old(Held());
              var n := Sync.PageLength(s);
              if n <= |s| && Sealed(s[..n]) then
                && ret == n && Held() == s[n..] && !unsynced
                && og.Some? && og.value.Bounded() && og.value.header == og.value.body == data
                && og.value.View().Sized() && og.value.View().Raw() == s[..n]
              else
                var n := Sync.NextCapture(s, 1);
                ret == -(n as int) && og.None? && Held() == s[n..] && unsynced == old(unsynced)
    {
      hide Sealed, Sync.PageLength, Sync.HeaderLength, Sync.NextCapture;
      ghost var s := Held();
      var ok := Verify();
      assert Held() == s;
      if ok {
        ret, og := TakePage();
      } else {
        og := None;
        ret := LoseSync();
      }
    }

    /** A whole page is at hand and its checksum is right. */
    method TakePage() returns (ret: int, og: Option<PageRef>)
      requires Valid() && headerBytes >= 27 && returned + headerBytes + bodyBytes <= fill
      modifies this`returned, this`unsynced, this`headerBytes, this`bodyBytes
      ensures Valid() && !unsynced
      ensures var n := Sync.PageLength(old(Held()));
              && ret == n <= |old(Held())| && Held() == old(Held())[n..]
              && og.Some? && og.value.Bounded() && og.value.header == og.value.body == data
              && og.value.View().Sized() && og.value.View().Raw() == old(Held())[..n]
    {
      hide Sync.PageLength, Sum, Page.Sized;
      ghost var s := Held();
      var h, b := headerBytes, bodyBytes;
      og := Some(PageRef(data, returned, h, data, returned + h, b));
      RawOf(data[..], returned, h, b, fill);
      SizedPage(s, data[returned..returned + h], data[returned + h..returned + h + b]);
      unsynced := false;
      ret := h + b;
      returned := returned + ret;
      headerBytes, bodyBytes := 0, 0;
      assert data[returned..fill] == s[ret..];
    }

    /** ogg_sync_pageout: seek until a page is found or the data run out; report a loss of sync once. */
    method PageOut() returns (ret: int, og: Option<PageRef>)
      requires Valid()
      modifies this`returned, this`unsynced, this`headerBytes, this`bodyBytes, data
      ensures Valid() && fill == old(fill)
      ensures var (rest, flag, outcome) := Sync.PageOut(old(Held()), old(unsynced));
              && Held() == rest && unsynced == flag
              && match outcome
                 case NeedMore => ret == 0 && og.None?
                 case LostSync => ret == -1 && og.None?
                 case PageReady(raw) =>
                   ret == 1 && og.Some? && og.value.Bounded() && og.value.View().Sized() && og.value.View().Raw() == raw
    {
      hide Sync.SeekPage;
      ghost var target := Sync.PageOut(Held(), unsynced);
      while true
        invariant Valid() && fill == old(fill) && data == old(data)
        invariant Sync.PageOut(Held(), unsynced) == target
        decreases |Held()|
      {
        Sync.SeekBounds(Held());
        var r, page := PageSeek();
        if r > 0 {
          return 1, page;
        }
        if r == 0 {
          return 0, None;
        }
        if !unsynced {
          unsynced := true;
          return -1, None;
        }
      }
    }
  }

  lemma MoreKeepsSizes(s: seq<byte>, t: seq<byte>)
    ensures |s| >= 27 ==> (s + t)[..4] == s[..4] && Sync.HeaderLength(s + t) == Sync.HeaderLength(s)
    ensures |s| >= 27 && |s| >= Sync.HeaderLength(s) ==> Sync.PageLength(s + t) == Sync.PageLength(s)
  {
    if |s| >= 27 {
      Sync.PrefixAgrees(s, t, 0, 4);
      if |s| >= Sync.HeaderLength(s) {
        Sync.PrefixAgrees(s, t, 27, Sync.HeaderLength(s));
      }
    }
  }

  lemma RawOf(s: seq<byte>, at: nat, h: nat, b: nat, end: nat)
    requires at + h + b <= end <= |s|
    ensures s[at..at + h] + s[at + h..at + h + b] == s[at..end][..h + b]
  {
  }

  lemma FieldOf(p: Page, s: seq<byte>, at: nat, h: nat)
    requires at + h <= |s| && h >= 27 && p.header == s[at..at + h]
    ensures s[at + 22..at + 26] == p.header[22..26] && p.Raw()[22..26] == p.header[22..26]
  {
    Seqs.SliceOfSlice(s, at, at + h, 22, 26);
  }

  /** Clearing the field first does not change the checksum. */
  lemma BlankKeepsCrc(p: Page, z: Page)
    requires |p.header| >= 27 && z.header == p.header[..22] + [0, 0, 0, 0] + p.header[26..] && z.body == p.body
    ensures Checksum.PageCrc(z.Raw()) == Checksum.PageCrc(p.Raw())
  {
    hide Checksum.Crc;
    BlankIsWithoutField(p, z);
    BlankAgain(z.Raw(), p.Raw());
  }

  lemma BlankAgain(z: seq<byte>, p: seq<byte>)
    requires |p| >= 26 && z == Checksum.WithoutField(p)
    ensures Checksum.WithoutField(z) == z
  {
  }

  lemma OnlyField<T>(before: seq<T>, after: seq<T>, at: nat, field: seq<T>)
    requires |before| == |after| && at + 4 <= |before| && |field| == 4
    requires after[..at] == before[..at] && after[at + 4..] == before[at + 4..]
    requires after[at..at + 4] == field == before[at..at + 4]
    ensures after == before
  {
    Seqs.ThreeParts(before, at, at + 4);
    Seqs.ThreeParts(after, at, at + 4);
  }

  lemma SizedPage(s: seq<byte>, header: seq<byte>, body: seq<byte>)
    requires |s| >= 27 && |header| == Sync.HeaderLength(s) <= |s| && |header| + |body| == Sync.PageLength(s) <= |s|
    requires header + body == s[..Sync.PageLength(s)]
    ensures Page(header, body).Sized()
  {
    var n := Sync.HeaderLength(s);
    assert header == (header + body)[..n] == s[..n];
    assert header[26] == s[26] && header[27..] == s[27..n];
  }
}
