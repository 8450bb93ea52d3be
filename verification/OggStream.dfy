/** ogg_stream_state: one structure with an encoding and a decoding half, updated in place. */
module OggStream {
  import opened Options
  import opened Bytes
  import Seqs
  import opened OggSegments
  import opened OggPage
  import opened Checksum
  import Memory
  import Encoding = OggEncoder
  import Decoding = OggDecoder

  /** An ogg_page: pointers into buffers owned by someone else. */
  datatype PageRef = PageRef(header: array<byte>, headerAt: nat, headerLen: nat,
                             body: array<byte>, bodyAt: nat, bodyLen: nat)
  {
    ghost predicate Bounded() {
      && headerAt + headerLen <= header.Length && bodyAt + bodyLen <= body.Length && headerLen >= 27
      && (header == body ==> headerAt + headerLen <= bodyAt)
    }

    ghost function View(): Page
      requires Bounded()
      reads header, body
    {
      Page(header[headerAt..headerAt + headerLen], body[bodyAt..bodyAt + bodyLen])
    }
  }

  /** The register over a stretch of an array, continued from reg. */
  method CrcOver(reg: bv32, a: array<byte>, at: nat, n: nat) returns (crc: bv32)
    requires at + n <= a.Length
    ensures crc == Crc(reg, a[at..at + n])
  {
    hide StepTable, Octet;
    crc := reg;
    var i := 0;
    while i < n
      invariant i <= n
      invariant crc == Crc(reg, a[at..at + i])
    {
      crc := StepTable(crc, Octet(a[at + i]));
      i := i + 1;
      assert a[at..at + i][..i - 1] == a[at..at + i - 1];
    }
  }

  /** Overwrite the checksum field, and nothing else. */
  method StoreField(og: PageRef, field: seq<byte>)
    requires og.Bounded() && |field| == 4
    modifies og.header
    ensures og.View().body == old(og.View().body)
    ensures og.header[og.headerAt + 22..og.headerAt + 26] == field
    ensures og.View().header == old(og.View().header[..22]) + field + old(og.View().header[26..])
    ensures og.header[..og.headerAt + 22] == old(og.header[..og.headerAt + 22])
    ensures og.header[og.headerAt + 26..] == old(og.header[og.headerAt + 26..])
  {
    Memory.Store(field, og.header, og.headerAt + 22);
    FieldReplaced(old(og.header[..]), og.header[..], og.headerAt, og.headerLen, field);
    if og.header == og.body {
      SuffixKept(old(og.header[..]), og.header[..], og.headerAt + 26, og.bodyAt, og.bodyAt + og.bodyLen);
    }
  }

  lemma FieldReplaced<T>(before: seq<T>, after: seq<T>, at: nat, n: nat, field: seq<T>)
    requires |before| == |after| && at + n <= |before| && n >= 26 && |field| == 4
    requires after[..at + 22] == before[..at + 22] && after[at + 22..at + 26] == field && after[at + 26..] == before[at + 26..]
    ensures after[at..at + n] == before[at..at + n][..22] + field + before[at..at + n][26..]
  {
    var a, b := after[at..at + n], before[at..at + n];
    forall i | 0 <= i < n ensures a[i] == (b[..22] + field + b[26..])[i] {
      if i < 22 {
        assert after[..at + 22][at + i] == before[..at + 22][at + i];
      } else if i < 26 {
        assert after[at + 22..at + 26][i - 22] == a[i];
      } else {
        assert after[at + 26..][i - 26] == before[at + 26..][i - 26];
      }
    }
  }

  lemma SuffixKept<T>(before: seq<T>, after: seq<T>, k: nat, i: nat, j: nat)
    requires k <= i <= j <= |before| == |after| && after[k..] == before[k..]
    ensures after[i..j] == before[i..j]
  {
    Seqs.SliceOfSlice(after, k, |after|, i - k, j - k);
    Seqs.SliceOfSlice(before, k, |before|, i - k, j - k);
  }

  /** ogg_page_checksum_set: clear the field, run the table over header and body, store the register. */
  method SetChecksum(og: PageRef)
    requires og.Bounded()
    modifies og.header
    ensures og.View() == Seal(old(og.View()))
    ensures og.header[og.headerAt + 22..og.headerAt + 26] == FieldOctets(PageCrc(old(og.View().Raw())))
    ensures var page := old(og.View().Raw());
            Unsigned(og.header[og.headerAt + 22..og.headerAt + 26])
            == CrcBits(0, Bits(page[..22] + [0, 0, 0, 0] + page[26..])) as int
    ensures og.header[..og.headerAt + 22] == old(og.header[..og.headerAt + 22])
    ensures og.header[og.headerAt + 26..] == old(og.header[og.headerAt + 26..])
  {
    hide Crc, CrcBits, Bits, Unsigned, FieldOctets, StepTable;
    ghost var page := og.View();
    StoreField(og, [0, 0, 0, 0]);
    ghost var blank := og.View();
    var crc := CrcOver(0, og.header, og.headerAt, og.headerLen);
    crc := CrcOver(crc, og.body, og.bodyAt, og.bodyLen);
    CrcConcat(0, blank.header, blank.body);
    BlankIsWithoutField(page, blank);
    var field := FieldOctets(crc);
    StoreField(og, field);
    SealedParts(page, blank, og.View(), field);
    StoredIsDivision(page.Raw());
  }

  lemma BlankIsWithoutField(p: Page, blank: Page)
    requires |p.header| >= 27 && p.body == blank.body
    requires blank.header == p.header[..22] + [0, 0, 0, 0] + p.header[26..]
    ensures blank.header + blank.body == WithoutField(p.Raw())
  {
    var h, zero, b := p.header, [0, 0, 0, 0], p.body;
    Seqs.SplitConcat(h, b, 22);
    Seqs.SplitConcat(h, b, 26);
    Seqs.ConcatAssociates(h[..22] + zero, h[26..], b);
  }

  lemma SealedParts(p: Page, blank: Page, q: Page, field: seq<byte>)
    requires |p.header| >= 27 && p.body == q.body && |field| == 4
    requires field == FieldOctets(PageCrc(p.Raw()))
    requires blank.header == p.header[..22] + [0, 0, 0, 0] + p.header[26..]
    requires q.header == blank.header[..22] + field + blank.header[26..]
    ensures q == Seal(p)
  {
    hide FieldOctets, PageCrc;
    assert blank.header[..22] == p.header[..22] && blank.header[26..] == p.header[26..];
  }

  /** The granule column as read: the entry beside a loss marker is never looked at. */
  ghost function Granules(lac: seq<Lacing>, gran: seq<int>): (g: seq<int>)
    requires |lac| == |gran|
    ensures |g| == |lac|
  {
    seq(|lac|, i requires 0 <= i < |lac| => if lac[i].hole then -1 else gran[i])
  }

  class Stream {
    var bodyData: array<byte>
    var bodyFill: nat
    var bodyReturned: nat
    var lacingVals: array<Lacing>
    var granuleVals: array<int>
    var lacingFill: nat
    var lacingPacket: nat
    var lacingReturned: nat
    var header: array<byte>
    var headerFill: nat
    var eos: bool
    var bos: bool
    var serialno: int
    var pageno: int
    var packetno: int
    var granulepos: int

    ghost predicate Valid()
      reads this
    {
      && bodyReturned <= bodyFill <= bodyData.Length
      && lacingReturned <= lacingPacket <= lacingFill <= lacingVals.Length == granuleVals.Length
      && header.Length == 282 && header != bodyData
    }

    /** What is buffered and not yet handed out. */
    ghost function Segs(): Segs
      requires Valid()
      reads this, bodyData, lacingVals, granuleVals
    {
      OggSegments.Segs(lacingVals[lacingReturned..lacingFill],
                       Granules(lacingVals[lacingReturned..lacingFill], granuleVals[lacingReturned..lacingFill]),
                       bodyData[bodyReturned..bodyFill])
    }

    /** The structure seen as an encoder. */
    ghost function Encoder(): Encoding.Encoder
      requires Valid()
      reads this, bodyData, lacingVals, granuleVals
    {
      Encoding.Encoder(Segs(), bos, eos, serialno, pageno, granulepos, packetno)
    }

    /** The structure seen as a decoder. */
    ghost function Decoder(): Decoding.Decoder
      requires Valid()
      reads this, bodyData, lacingVals, granuleVals
    {
      Decoding.Decoder(Segs(), lacingPacket - lacingReturned, eos, serialno, pageno, packetno)
    }

    /** In use as an encoder: no read position, no markers. */
    ghost predicate Encodes()
      reads this, bodyData, lacingVals, granuleVals
    {
      && Valid() && Segs().Valid() && lacingReturned == lacingPacket == 0
      && forall i :: 0 <= i < lacingFill ==> !lacingVals[i].hole
    }

    ghost predicate Decodes()
      reads this, bodyData, lacingVals, granuleVals
    {
      Valid() && Decoder().Consistent()
    }

    /** The buffers are the ones before, or new. */
    twostate predicate SameOrNew()
      reads this
    {
      && (bodyData == old(bodyData) || fresh(bodyData)) && (lacingVals == old(lacingVals) || fresh(lacingVals))
      && (granuleVals == old(granuleVals) || fresh(granuleVals)) && header == old(header)
    }

    /** ogg_stream_init */
    constructor (serialno: int)
      ensures Encodes() && Decodes()
      ensures Encoder() == Encoding.Fresh(serialno) && Decoder() == Decoding.Initial(serialno)
      ensures fresh(bodyData) && fresh(lacingVals) && fresh(granuleVals) && fresh(header)
    {
      bodyData := new byte[16 * 1024];
      lacingVals := new Lacing[1024];
      granuleVals := new int[1024];
      header := new byte[282];
      bodyFill, bodyReturned, lacingFill, lacingPacket, lacingReturned, headerFill := 0, 0, 0, 0, 0, 0;
      eos, bos, pageno, packetno, granulepos := false, false, 0, 0, 0;
      this.serialno := serialno;
    }

    /** ogg_stream_reset: nothing buffered, and no page number expected. */
    method Reset()
      requires Valid()
      modifies this`bodyFill, this`bodyReturned, this`lacingFill, this`lacingPacket, this`lacingReturned, this`headerFill,
               this`eos, this`bos, this`pageno, this`packetno, this`granulepos
      ensures Valid() && Decoder() == Decoding.Reset(Decoding.Initial(serialno)) && !bos && granulepos == 0
    {
      ClearBuffers();
      eos, bos, pageno, packetno, granulepos := false, false, -1, 0, 0;
    }

    method ClearBuffers()
      requires Valid()
      modifies this`bodyFill, this`bodyReturned, this`lacingFill, this`lacingPacket, this`lacingReturned, this`headerFill
      ensures Valid() && Segs() == NONE && lacingPacket == lacingReturned
    {
      bodyFill, bodyReturned, lacingFill, lacingPacket, lacingReturned, headerFill := 0, 0, 0, 0, 0, 0;
    }

    /** Room for `needed` more body octets, contents kept. */
    method BodyExpand(needed: nat)
      requires Valid()
      modifies this`bodyData
      ensures Valid() && bodyFill + needed <= bodyData.Length
      ensures bodyData == old(bodyData) || fresh(bodyData)
      ensures bodyData[..bodyFill] == old(bodyData[..bodyFill])
    {
      if bodyData.Length - needed <= bodyFill {
        bodyData := Memory.Grow(bodyData, bodyData.Length + needed + 1024);
      }
    }

    /** Room for `needed` more entries, both tables kept in step. */
    method LacingExpand(needed: nat)
      requires Valid()
      modifies this`lacingVals, this`granuleVals
      ensures Valid() && lacingFill + needed < lacingVals.Length
      ensures lacingVals == old(lacingVals) || fresh(lacingVals)
      ensures granuleVals == old(granuleVals) || fresh(granuleVals)
      ensures lacingVals[..lacingFill] == old(lacingVals[..lacingFill])
      ensures granuleVals[..lacingFill] == old(granuleVals[..lacingFill])
    {
      if lacingVals.Length - needed <= lacingFill {
        var size := lacingVals.Length + needed + 32;
        lacingVals := Memory.Grow(lacingVals, size);
        granuleVals := Memory.Grow(granuleVals, size);
      }
    }

    /** Drop the body octets already handed out. */
    method CompactBody()
      requires Valid()
      modifies this`bodyFill, this`bodyReturned, bodyData
      ensures Valid() && bodyReturned == 0
      ensures bodyData[..bodyFill] == old(bodyData[bodyReturned..bodyFill])
    {
      if bodyReturned > 0 {
        bodyFill := bodyFill - bodyReturned;
        Memory.Slide(bodyData, bodyReturned, bodyFill);
        bodyReturned := 0;
      }
    }

    /** The octets of every vector in turn, at the fill mark. */
    method AppendVectors(iov: seq<seq<byte>>)
      requires Valid() && bodyFill + |Flatten(iov)| <= bodyData.Length
      modifies this`bodyFill, bodyData
      ensures Valid() && bodyFill == old(bodyFill) + |Flatten(iov)|
      ensures bodyData[..bodyFill] == old(bodyData[..bodyFill]) + Flatten(iov)
    {
      ghost var before := bodyData[..bodyFill];
      var i := 0;
      while i < |iov|
        invariant 0 <= i <= |iov|
        invariant bodyReturned <= bodyFill && bodyFill + |Flatten(iov[i..])| == old(bodyFill) + |Flatten(iov)| <= bodyData.Length
        invariant bodyData[..bodyFill] + Flatten(iov[i..]) == before + Flatten(iov)
      {
        assert iov[i..][0] == iov[i] && iov[i..][1..] == iov[i + 1..];
        ghost var filled := bodyData[..bodyFill];
        Memory.Store(iov[i], bodyData, bodyFill);
        bodyFill := bodyFill + |iov[i]|;
        assert bodyData[..bodyFill] == filled + iov[i];
        Seqs.ConcatAssociates(filled, iov[i], Flatten(iov[i + 1..]));
        i := i + 1;
      }
      assert iov[i..] == [];
      assert bodyData[..bodyFill] + [] == bodyData[..bodyFill];
    }

    /** The lacing values of one packet: full segments, then the remainder, the first one flagged. */
    method AppendLacing(bytes: nat, granulepos: int, ghost data: seq<byte>)
      requires Valid() && lacingFill + bytes / 255 + 1 <= lacingVals.Length && |data| == bytes
      modifies this`lacingFill, this`granulepos, lacingVals, granuleVals
      ensures Valid() && this.granulepos == granulepos
      ensures lacingVals[..lacingFill]
           == old(lacingVals[..lacingFill]) + Encoding.PacketSegs(data, old(this.granulepos), granulepos).lac
      ensures granuleVals[..lacingFill]
           == old(granuleVals[..lacingFill]) + Encoding.PacketSegs(data, old(this.granulepos), granulepos).gran
    {
      var n := bytes / 255;
      var i := 0;
      while i < n
        invariant 0 <= i <= n && lacingFill == old(lacingFill) && this.granulepos == old(this.granulepos)
        invariant lacingVals[..lacingFill] == old(lacingVals[..lacingFill])
        invariant granuleVals[..lacingFill] == old(granuleVals[..lacingFill])
        invariant forall k :: lacingFill <= k < lacingFill + i ==> lacingVals[k] == Lacing(255, false, false, false)
        invariant forall k :: lacingFill <= k < lacingFill + i ==> granuleVals[k] == this.granulepos
      {
        lacingVals[lacingFill + i] := Lacing(255, false, false, false);
        granuleVals[lacingFill + i] := this.granulepos;
        i := i + 1;
      }
      lacingVals[lacingFill + i] := Lacing(bytes % 255, false, false, false);
      granuleVals[lacingFill + i] := granulepos;
      this.granulepos := granulepos;
      lacingVals[lacingFill] := lacingVals[lacingFill].(first := true);
      lacingFill := lacingFill + n + 1;
    }

    /** Queue a packet's octets and lacing values. */
    method Enqueue(iov: seq<seq<byte>>, bytes: nat, granulepos: int)
      requires Valid() && bytes == |Flatten(iov)|
      modifies this`bodyData, this`bodyFill, this`bodyReturned, this`lacingVals, this`granuleVals, this`lacingFill,
               this`granulepos, bodyData, lacingVals, granuleVals
      ensures Valid() && SameOrNew() && bodyReturned == 0 && this.granulepos == granulepos
      ensures bodyData[..bodyFill] == old(bodyData[bodyReturned..bodyFill]) + Flatten(iov)
      ensures lacingVals[..lacingFill]
           == old(lacingVals[..lacingFill]) + Encoding.PacketSegs(Flatten(iov), old(this.granulepos), granulepos).lac
      ensures granuleVals[..lacingFill]
           == old(granuleVals[..lacingFill]) + Encoding.PacketSegs(Flatten(iov), old(this.granulepos), granulepos).gran
    {
      hide Flatten;
      CompactBody();
      BodyExpand(bytes);
      LacingExpand(bytes / 255 + 1);
      AppendVectors(iov);
      AppendLacing(bytes, granulepos, Flatten(iov));
    }

    method TotalSize(iov: seq<seq<byte>>) returns (bytes: nat)
      ensures bytes == |Flatten(iov)|
    {
      bytes := 0;
      var i := 0;
      while i < |iov|
        invariant 0 <= i <= |iov| && bytes + |Flatten(iov[i..])| == |Flatten(iov)|
      {
        assert iov[i..][0] == iov[i] && iov[i..][1..] == iov[i + 1..];
        bytes := bytes + |iov[i]|;
        i := i + 1;
      }
    }

    /** ogg_stream_iovecin, and ogg_stream_packetin when there is one vector. */
    method IovecIn(iov: seq<seq<byte>>, eos: bool, granulepos: int)
      requires Encodes()
      modifies this, bodyData, lacingVals, granuleVals
      ensures Encodes() && SameOrNew()
      ensures Encoder() == Encoding.PacketIn(old(Encoder()), Encoding.Input(Flatten(iov), eos, granulepos))
    {
      hide Encoding.PacketSegs, Granules;
      var bytes := TotalSize(iov);
      Queue(iov, bytes, granulepos);
      packetno := packetno + 1;
      if eos {
        this.eos := true;
      }
    }

    /** The packet's segments behind those queued. */
    method Queue(iov: seq<seq<byte>>, bytes: nat, granulepos: int)
      requires Encodes() && bytes == |Flatten(iov)|
      modifies this`bodyData, this`bodyFill, this`bodyReturned, this`lacingVals, this`granuleVals, this`lacingFill,
               this`granulepos, bodyData, lacingVals, granuleVals
      ensures Encodes() && SameOrNew() && this.granulepos == granulepos
      ensures Segs() == Append(old(Segs()), Encoding.PacketSegs(Flatten(iov), old(this.granulepos), granulepos))
    {
      hide Off, Encoding.PacketSegs, Flatten, Granules;
      ghost var before := Segs();
      ghost var l, g, b := lacingVals[..lacingFill], granuleVals[..lacingFill], bodyData[bodyReturned..bodyFill];
      ghost var added := Encoding.PacketSegs(Flatten(iov), this.granulepos, granulepos);
      Encoding.PacketSegsAreValid(Flatten(iov), this.granulepos, granulepos);
      Encoding.BodyOfPacket(Flatten(iov), this.granulepos, granulepos);
      AppendIsValid(before, added);
      assert before == OggSegments.Segs(l, Granules(l, g), b) by {
        assert lacingVals[0..lacingFill] == l && granuleVals[0..lacingFill] == g;
      }
      assert forall k :: 0 <= k < |l| ==> !l[k].hole;
      Enqueue(iov, bytes, granulepos);
      GranulesJoined(l, g, added.lac, added.gran);
      QueueIs(l + added.lac, g + added.gran, b + added.body);
    }

    lemma QueueIs(l: seq<Lacing>, g: seq<int>, b: seq<byte>)
      requires Valid() && lacingReturned == lacingPacket == bodyReturned == 0
      requires l == lacingVals[..lacingFill] && g == granuleVals[..lacingFill] && b == bodyData[..bodyFill]
      ensures Segs() == OggSegments.Segs(l, Granules(l, g), b)
      ensures Segs().Valid() && (forall k :: 0 <= k < |l| ==> !l[k].hole) ==> Encodes()
    {
      hide Granules;
      assert lacingVals[0..lacingFill] == l && granuleVals[0..lacingFill] == g && bodyData[0..bodyFill] == b;
      assert forall k :: 0 <= k < |l| ==> lacingVals[k] == l[k];
    }

    // ----- Encoding: putting out pages -----

    /** The initial header page: up to and including the first closing value. */
    method FirstPacketEnd(maxvals: nat) returns (vals: nat)
      requires Encodes() && 0 < maxvals <= lacingFill
      ensures vals == Encoding.FirstPacket(Segs().lac, 0, maxvals)
    {
      ghost var lac := Segs().lac;
      vals := 0;
      while vals < maxvals
        invariant vals < maxvals ==> Encoding.FirstPacket(lac, 0, maxvals) == Encoding.FirstPacket(lac, vals, maxvals)
        invariant vals <= maxvals && (vals == maxvals ==> Encoding.FirstPacket(lac, 0, maxvals) == maxvals)
      {
        if lacingVals[vals].val < 255 {
          vals := vals + 1;
          break;
        }
        vals := vals + 1;
      }
    }

    /** A page after the first: up to a good stop, or as much as fits. */
    method FillPage(maxvals: nat, nfill: int, wanted: bool) returns (vals: nat, force: bool, granulePos: int)
      requires Encodes() && 0 < maxvals <= lacingFill
      ensures vals == Encoding.FirstStop(Segs().lac, 1, maxvals, nfill)
      ensures force == (wanted || vals < maxvals || vals == 255)
      ensures granulePos == Encoding.LastGranule(Segs(), vals)
    {
      ghost var segs := Segs();
      ghost var lac := segs.lac;
      var acc, packetsDone, packetJustDone := 0, 0, 0;
      force, granulePos, vals := wanted, -1, 0;
      while vals < maxvals
        invariant vals <= maxvals && force == wanted
        invariant acc == Off(lac, vals) && packetsDone == Encoding.Closings(lac, vals)
        invariant packetJustDone == if vals > 0 && Ends(lac[vals - 1]) then packetsDone else 0
        invariant granulePos == Encoding.LastGranule(segs, vals)
        invariant Encoding.FirstStop(lac, 1, maxvals, nfill)
               == Encoding.FirstStop(lac, if vals == 0 then 1 else vals, maxvals, nfill)
      {
        if acc > nfill && packetJustDone >= 4 {
          force := true;
          break;
        }
        assert lacingVals[vals] == lac[vals] && granuleVals[vals] == segs.gran[vals];
        acc := acc + lacingVals[vals].val;
        if lacingVals[vals].val < 255 {
          granulePos := granuleVals[vals];
          packetsDone := packetsDone + 1;
          packetJustDone := packetsDone;
        } else {
          packetJustDone := 0;
        }
        vals := vals + 1;
      }
      if vals == 255 {
        force := true;
      }
    }

    /** How many segments the next page takes, whether it goes out, and its granule position. */
    method PlanPage(nfill: int, wanted: bool) returns (vals: nat, force: bool, granulePos: int)
      requires Encodes() && lacingFill > 0
      ensures vals == Encoding.Vals(Encoder(), nfill)
      ensures force == (wanted || Encoding.Ripe(Encoder(), nfill))
      ensures granulePos == if !bos then 0 else Encoding.LastGranule(Segs(), vals)
    {
      hide Encoding.FirstStop, Encoding.FirstPacket, Encoding.LastGranule, Off;
      var maxvals := if lacingFill > 255 then 255 else lacingFill;
      if !bos {
        vals := FirstPacketEnd(maxvals);
        force, granulePos := wanted, 0;
      } else {
        vals, force, granulePos := FillPage(maxvals, nfill, wanted);
      }
    }

    /** The octets of `data` at `at`; what lies before stays. */
    method Put(at: nat, data: seq<byte>)
      requires at + |data| <= header.Length
      modifies header
      ensures header[..at + |data|] == old(header[..at]) + data
    {
      Memory.Store(data, header, at);
      assert header[..at + |data|] == header[..at] + header[at..at + |data|];
    }

    /** The k low octets of n at `at`, least significant first. */
    method PutLittleEndian(at: nat, n: int, k: nat)
      requires at + k <= header.Length
      modifies header
      ensures header[..at + k] == old(header[..at]) + LittleEndian(n, k)
    {
      var v, i := n, 0;
      while i < k
        invariant 0 <= i <= k
        invariant header[..at + i] + LittleEndian(v, k - i) == old(header[..at]) + LittleEndian(n, k)
      {
        ghost var done, rest := header[..at + i], LittleEndian(v / 256, k - i - 1);
        header[at + i] := v % 256;
        assert header[..at + i + 1] == done + [v % 256];
        Seqs.ConcatAssociates(done, [v % 256], rest);
        v := v / 256;
        i := i + 1;
      }
    }

    /** The segment table, and the number of body octets it announces. */
    method PutTable(vals: nat) returns (bytes: nat)
      requires Encodes() && vals <= lacingFill && vals <= 255
      modifies header
      ensures header[..27 + vals] == old(header[..27]) + Encoding.ValuesOf(Segs().lac[..vals])
      ensures bytes == Off(Segs().lac, vals)
    {
      ghost var lac := Segs().lac;
      var i := 0;
      bytes := 0;
      while i < vals
        invariant 0 <= i <= vals && header[..27] == old(header[..27])
        invariant forall m :: 0 <= m < i ==> header[27 + m] == lac[m].val
        invariant bytes == Off(lac, i)
      {
        assert lacingVals[i] == lac[i];
        header[27 + i] := lacingVals[i].val;
        bytes := bytes + lacingVals[i].val;
        i := i + 1;
      }
    }

    /** The 27 octets before the segment table. */
    method PutFixedPart(flags: byte, granulePos: int, page: int, vals: byte)
      requires header.Length == 282
      modifies header
      ensures header[..27] == CAPTURE + [0, flags] + LittleEndian(granulePos, 8) + LittleEndian(serialno, 4) +
                              LittleEndian(page, 4) + [0, 0, 0, 0, vals]
    {
      hide LittleEndian;
      Put(0, CAPTURE + [0, flags]);
      PutLittleEndian(6, granulePos, 8);
      PutLittleEndian(14, serialno, 4);
      PutLittleEndian(18, page, 4);
      Put(22, [0, 0, 0, 0, vals]);
    }

    /** The header of a page of the first `vals` segments, checksum still blank. */
    method BuildHeader(vals: nat, granulePos: int) returns (bytes: nat)
      requires Encodes() && 0 < vals <= lacingFill && vals <= 255
      requires granulePos == if !bos then 0 else Encoding.LastGranule(Segs(), vals)
      modifies header, this`headerFill
      ensures bytes == Off(Segs().lac, vals) && headerFill == 27 + vals
      ensures header[..27 + vals] == BlankHeader(Encoding.PageFields(Encoder(), vals))
    {
      hide LittleEndian, Encoding.LastGranule, Off, Flags;
      PrologueOf(Encoding.PageFields(Encoder(), vals));
      var page := if pageno == -1 then 0 else pageno;
      PutFixedPart(Flags(!lacingVals[0].first, !bos, eos && lacingFill == vals), granulePos, page, vals);
      bytes := PutTable(vals);
      headerFill := vals + 27;
    }

    /** Drop the first `vals` entries of both tables. */
    method ConsumeLacing(vals: nat)
      requires Valid() && lacingReturned == lacingPacket == 0 && vals <= lacingFill
      modifies this`lacingFill, lacingVals, granuleVals
      ensures Valid() && lacingVals[..lacingFill] == old(lacingVals[vals..lacingFill])
      ensures granuleVals[..lacingFill] == old(granuleVals[vals..lacingFill])
    {
      lacingFill := lacingFill - vals;
      Memory.Slide(lacingVals, vals, lacingFill);
      Memory.Slide(granuleVals, vals, lacingFill);
    }

    /** ogg_stream_flush_i: put out a page if it is wanted or ripe. The page points into this structure's buffers. */
    method FlushPage(wanted: bool, nfill: int) returns (og: Option<PageRef>)
      requires Encodes()
      modifies this`bos, this`pageno, this`headerFill, this`lacingFill, this`bodyReturned, header, lacingVals, granuleVals
      ensures Encodes()
      ensures og.Some? <==> Encoding.FlushPage(old(Encoder()), wanted, nfill).1.Some?
      ensures Encoder() == Encoding.FlushPage(old(Encoder()), wanted, nfill).0
      ensures og.Some? ==> og.value.Bounded() && og.value.header == header && og.value.body == bodyData
      ensures og.Some? ==> og.value.View() == Write(Encoding.FlushPage(old(Encoder()), wanted, nfill).1.value)
    {
      if lacingFill == 0 {
        return None;
      }
      var vals, force, granulePos := PlanPage(nfill, wanted);
      if !force {
        return None;
      }
      var page := EmitPage(vals, granulePos);
      og := Some(page);
    }

    /** The rest of ogg_stream_flush_i, once the page is decided. */
    method EmitPage(vals: nat, granulePos: int) returns (og: PageRef)
      requires Encodes() && 0 < vals <= lacingFill && vals <= 255
      requires granulePos == if !bos then 0 else Encoding.LastGranule(Segs(), vals)
      modifies this`bos, this`pageno, this`headerFill, this`lacingFill, this`bodyReturned, header, lacingVals, granuleVals
      ensures Encodes() && Encoder() == Encoding.AfterPage(old(Encoder()), vals)
      ensures og.Bounded() && og.header == header && og.body == bodyData
      ensures og.View() == Write(Encoding.PageFields(old(Encoder()), vals))
    {
      hide Seal, BlankHeader, Off, Encoding.LastGranule, FieldOctets, PageCrc, CrcBits, Bits, Unsigned, Granules;
      ghost var before := Encoder();
      OffIsMonotone(before.segs.lac, vals, |before.segs.lac|);
      var bytes := BuildHeader(vals, granulePos);
      og := PageRef(header, 0, vals + 27, bodyData, bodyReturned, bytes);
      PageBody(bodyData[..], bodyReturned, bodyFill, bytes);
      Advance(vals, bytes);
      SetChecksum(og);
    }

    /** Move past a page: the lacing of its segments is dropped and its body counts as handed out. */
    method Advance(vals: nat, bytes: nat)
      requires Encodes() && 0 < vals <= lacingFill && bytes == Off(Segs().lac, vals) && bodyReturned + bytes <= bodyFill
      modifies this`bos, this`pageno, this`lacingFill, this`bodyReturned, lacingVals, granuleVals
      ensures Encodes() && Encoder() == Encoding.AfterPage(old(Encoder()), vals)
    {
      hide Off;
      ghost var before := Segs();
      GranulesOfRest(lacingVals[..lacingFill], granuleVals[..lacingFill], vals);
      SliceIsValid(before, vals, |before.lac|);
      bos := true;
      pageno := (if pageno == -1 then 0 else pageno) + 1;
      ConsumeLacing(vals);
      bodyReturned := bodyReturned + bytes;
      assert Segs() == Slice(before, vals, |before.lac|);
      assert forall i :: 0 <= i < lacingFill ==> lacingVals[i] == lacingVals[..lacingFill][i];
    }

    /** ogg_stream_flush_fill; ogg_stream_flush is the same with 4096. */
    method Flush(nfill: int) returns (og: Option<PageRef>)
      requires Encodes()
      modifies this`bos, this`pageno, this`headerFill, this`lacingFill, this`bodyReturned, header, lacingVals, granuleVals
      ensures Encodes() && Encoder() == Encoding.Flush(old(Encoder()), nfill).0
      ensures og.Some? <==> Encoding.Flush(old(Encoder()), nfill).1.Some?
      ensures og.Some? ==> og.value.Bounded() && og.value.header == header && og.value.body == bodyData
      ensures og.Some? ==> og.value.View() == Write(Encoding.Flush(old(Encoder()), nfill).1.value)
    {
      og := FlushPage(true, nfill);
    }

    /** ogg_stream_pageout_fill; ogg_stream_pageout is the same with 4096. */
    method PageOut(nfill: int) returns (og: Option<PageRef>)
      requires Encodes()
      modifies this`bos, this`pageno, this`headerFill, this`lacingFill, this`bodyReturned, header, lacingVals, granuleVals
      ensures Encodes() && Encoder() == Encoding.PageOut(old(Encoder()), nfill).0
      ensures og.Some? <==> Encoding.PageOut(old(Encoder()), nfill).1.Some?
      ensures og.Some? ==> og.value.Bounded() && og.value.header == header && og.value.body == bodyData
      ensures og.Some? ==> og.value.View() == Write(Encoding.PageOut(old(Encoder()), nfill).1.value)
    {
      var force := false;
      if (eos && lacingFill > 0) || (lacingFill > 0 && !bos) {
        force := true;
      }
      og := FlushPage(force, nfill);
    }

    // ----- Decoding: taking in pages -----

    /** Drop what has been handed out, from all three buffers. */
    method Cleanup()
      requires Decodes()
      modifies this`bodyFill, this`bodyReturned, this`lacingFill, this`lacingPacket, this`lacingReturned,
               bodyData, lacingVals, granuleVals
      ensures Decodes() && Decoder() == old(Decoder()) && bodyReturned == lacingReturned == 0
    {
      hide Decoding.Decoder.Consistent, Granules;
      ghost var before, l, g := Decoder(), lacingVals[lacingReturned..lacingFill], granuleVals[lacingReturned..lacingFill];
      CompactBody();
      CompactLacing();
      assert bodyData[0..bodyFill] == bodyData[..bodyFill];
      assert lacingVals[0..lacingFill] == l && granuleVals[0..lacingFill] == g;
      assert Segs() == before.segs;
    }

    method CompactLacing()
      requires Valid()
      modifies this`lacingFill, this`lacingPacket, this`lacingReturned, lacingVals, granuleVals
      ensures Valid() && lacingReturned == 0 && lacingPacket == old(lacingPacket - lacingReturned)
      ensures lacingVals[..lacingFill] == old(lacingVals[lacingReturned..lacingFill])
      ensures granuleVals[..lacingFill] == old(granuleVals[lacingReturned..lacingFill])
    {
      var lr := lacingReturned;
      if lr > 0 {
        if lacingFill - lr > 0 {
          Memory.Slide(lacingVals, lr, lacingFill - lr);
          Memory.Slide(granuleVals, lr, lacingFill - lr);
        }
        lacingFill := lacingFill - lr;
        lacingPacket := lacingPacket - lr;
        lacingReturned := 0;
      }
    }

    /** Out of sequence: unroll the partial packet, and note the loss if anything came before. */
    method Resync(ghost f: Fields, page: int)
      requires Decodes() && bodyReturned == lacingReturned == 0 && lacingFill < lacingVals.Length && f.pageno == page
      modifies this`bodyFill, this`lacingFill, this`lacingPacket, lacingVals
      ensures Decodes() && Decoder() == Decoding.Resync(old(Decoder()), f)
      ensures lacingFill <= old(lacingFill) + 1
    {
      hide Decoding.Decoder.Consistent, Off;
      Decoding.ResyncKeepsConsistent(Decoder(), f);
      if page != pageno {
        DropPartial();
        if pageno != -1 {
          NoteLoss();
        }
      }
    }

    method NoteLoss()
      requires Valid() && bodyReturned == lacingReturned == 0 && lacingPacket == lacingFill < lacingVals.Length
      modifies this`lacingFill, this`lacingPacket, lacingVals
      ensures Valid() && lacingFill == lacingPacket == old(lacingPacket) + 1
      ensures Segs() == Append(old(Segs()), Decoding.LOSS)
    {
      ghost var l, g := lacingVals[..lacingFill], granuleVals[..lacingFill];
      lacingVals[lacingFill] := HOLE;
      lacingFill := lacingFill + 1;
      lacingPacket := lacingPacket + 1;
      assert lacingVals[0..lacingFill] == l + [HOLE];
      assert granuleVals[0..lacingFill] == g + [granuleVals[lacingFill - 1]];
    }

    method DropPartial()
      requires Decodes() && bodyReturned == lacingReturned == 0
      modifies this`bodyFill, this`lacingFill
      ensures Valid() && lacingFill == lacingPacket && Segs() == Slice(old(Segs()), 0, lacingPacket)
    {
      ghost var segs := Segs();
      ghost var lac := segs.lac;
      PartialSize(segs, lacingPacket);
      var i := lacingPacket;
      while i < lacingFill
        invariant lacingPacket <= i <= lacingFill == old(lacingFill)
        invariant bodyFill == |segs.body| - (Off(lac, i) - Off(lac, lacingPacket))
      {
        assert lacingVals[i] == lac[i];
        OffIsMonotone(lac, i + 1, |lac|);
        OffIsMonotone(lac, lacingPacket, i + 1);
        bodyFill := bodyFill - lacingVals[i].val;
        i := i + 1;
      }
      lacingFill := lacingPacket;
      SegsOfPrefix(lac, old(granuleVals[..lacingFill]), lacingPacket);
    }

    /** Room for n octets of body, and the octets. */
    method AppendBody(og: PageRef, skipped: nat)
      requires Valid() && og.Bounded() && skipped <= og.bodyLen && og.body != bodyData
      modifies this`bodyData, this`bodyFill, bodyData
      ensures Valid() && (bodyData == old(bodyData) || fresh(bodyData))
      ensures bodyFill == old(bodyFill) + og.bodyLen - skipped
      ensures bodyData[..bodyFill] == old(bodyData[..bodyFill]) + old(og.View().body[skipped..])
    {
      var n := og.bodyLen - skipped;
      ghost var before, part := bodyData[..bodyFill], og.View().body[skipped..];
      if n > 0 {
        BodyPart(og.body[..], og.bodyAt, og.bodyLen, skipped);
        assert part == og.body[og.bodyAt + skipped..og.bodyAt + skipped + n];
        BodyExpand(n);
        Memory.Copy(og.body, og.bodyAt + skipped, bodyData, bodyFill, n);
        assert bodyData[..bodyFill] == before && bodyData[bodyFill..bodyFill + n] == part;
        bodyFill := bodyFill + n;
        Seqs.JoinSlices(bodyData[..], 0, bodyFill - n, bodyFill);
      } else {
        assert part == [];
        assert before + [] == before;
      }
    }

    /** One more entry in both tables. */
    method AppendEntry(l: Lacing)
      requires Valid() && lacingFill < lacingVals.Length
      modifies this`lacingFill, lacingVals, granuleVals
      ensures Valid() && lacingFill == old(lacingFill) + 1
      ensures lacingVals[..lacingFill] == old(lacingVals[..lacingFill]) + [l]
      ensures granuleVals[..lacingFill] == old(granuleVals[..lacingFill]) + [-1]
    {
      lacingVals[lacingFill] := l;
      granuleVals[lacingFill] := -1;
      lacingFill := lacingFill + 1;
    }

    /** One entry per remaining value of the page's table; lacing_packet moves past the last one that completes a packet,
        and its place is reported. */
    method AppendEntries(lens: seq<byte>, from: nat, bos: bool) returns (saved: int)
      requires Valid() && from <= |lens| && lacingFill + |lens| < lacingVals.Length
      modifies this`lacingFill, this`lacingPacket, lacingVals, granuleVals
      ensures Valid()
      ensures lacingVals[..lacingFill] == old(lacingVals[..lacingFill]) + Entries(lens[from..], bos)
      ensures granuleVals[..lacingFill] == old(granuleVals[..lacingFill]) + NoGranules(|lens| - from)
      ensures var done := Decoding.Completed(lens[from..]);
              && saved == (if done > 0 then old(lacingFill) + done - 1 else -1)
              && lacingPacket == (if done > 0 then old(lacingFill) + done else old(lacingPacket))
    {
      hide Decoding.Completed, Entries, NoGranules;
      ghost var kept := lens[from..];
      ghost var base, packet := lacingFill, lacingPacket;
      ghost var l, g := lacingVals[..base], granuleVals[..base];
      NoEntries(l, g, bos);
      var segptr, first := from, bos;
      saved := -1;
      assert kept[..0] == [];
      while segptr < |lens|
        invariant from <= segptr <= |lens| && lacingFill == base + segptr - from && Valid()
        invariant first == (bos && segptr == from)
        invariant lacingVals[..lacingFill] == l + Entries(kept[..segptr - from], bos)
        invariant granuleVals[..lacingFill] == g + NoGranules(segptr - from)
        invariant var done := Decoding.Completed(kept[..segptr - from]);
          && saved == (if done > 0 then base + done - 1 else -1)
          && lacingPacket == (if done > 0 then base + done else packet)
      {
        var val := lens[segptr];
        EntriesSnoc(l, g, kept, segptr - from, bos);
        AppendEntry(Lacing(val, first, false, false));
        first := false;
        if val < 255 {
          saved := lacingFill - 1;
        }
        segptr := segptr + 1;
        if val < 255 {
          lacingPacket := lacingFill;
        }
      }
      assert kept[..segptr - from] == kept;
    }

    /** The lacing of a page, with its granule position beside the last entry that completes a packet. */
    method AppendTable(lens: seq<byte>, from: nat, bos: bool, granulepos: int)
      requires Valid() && from <= |lens| && lacingFill + |lens| < lacingVals.Length
      modifies this`lacingFill, this`lacingPacket, lacingVals, granuleVals
      ensures Valid()
      ensures var kept := Decoding.PageSegs(lens[from..], [], bos, granulepos);
              && lacingVals[..lacingFill] == old(lacingVals[..lacingFill]) + kept.lac
              && granuleVals[..lacingFill] == old(granuleVals[..lacingFill]) + kept.gran
      ensures var done := Decoding.Completed(lens[from..]);
              lacingPacket == if done > 0 then old(lacingFill) + done else old(lacingPacket)
    {
      hide Decoding.Completed;
      ghost var g := granuleVals[..lacingFill];
      var saved := AppendEntries(lens, from, bos);
      if saved != -1 {
        granuleVals[saved] := granulepos;
      }
      GranuleSaved(g, lens[from..], bos, granulepos, granuleVals[..lacingFill]);
    }

    /** A page's remaining octets and entries, after what is already there. */
    method AppendPage(og: PageRef, lens: seq<byte>, from: nat, skipped: nat, bos: bool, granulepos: int)
      requires Valid() && bodyReturned == lacingReturned == 0 && og.Bounded() && og.body != bodyData
      requires from <= |lens| && skipped <= og.bodyLen && lacingFill + |lens| < lacingVals.Length
      modifies this`bodyData, this`bodyFill, this`lacingFill, this`lacingPacket, bodyData, lacingVals, granuleVals
      ensures Valid() && (bodyData == old(bodyData) || fresh(bodyData))
      ensures bodyData[..bodyFill] == old(bodyData[..bodyFill]) + old(og.View().body[skipped..])
      ensures var kept := Decoding.PageSegs(lens[from..], [], bos, granulepos);
              && lacingVals[..lacingFill] == old(lacingVals[..lacingFill]) + kept.lac
              && granuleVals[..lacingFill] == old(granuleVals[..lacingFill]) + kept.gran
      ensures var done := Decoding.Completed(lens[from..]);
              lacingPacket == if done > 0 then old(lacingFill) + done else old(lacingPacket)
    {
      hide Decoding.Completed, Decoding.PageSegs;
      AppendBody(og, skipped);
      AppendTable(lens, from, bos, granulepos);
    }

    /** The kept segments of a page, after what is already there. */
    method AppendKept(og: PageRef, lens: seq<byte>, from: nat, skipped: nat, bos: bool, granulepos: int, ghost f: Fields)
      requires Decodes() && bodyReturned == lacingReturned == 0
      requires og.Bounded() && og.View().Sized() && f == Read(og.View()) && og.body != bodyData
      requires lens == f.lens && granulepos == f.granulepos && lacingFill + |f.lens| < lacingVals.Length
      requires from == (if Decoding.Orphan(Decoder(), f) then Decoding.Skipped(f.lens) else 0)
      requires skipped == Sum(f.lens[..from]) && bos == (f.bos && !Decoding.Orphan(Decoder(), f))
      modifies this`bodyData, this`bodyFill, this`lacingFill, this`lacingPacket, bodyData, lacingVals, granuleVals
      ensures Valid() && (bodyData == old(bodyData) || fresh(bodyData))
      ensures Decoder() == Decoding.Extend(old(Decoder()), Decoding.Kept(old(Decoder()), f), f.lens[from..])
    {
      hide Decoding.Orphan, Decoding.Skipped, Decoding.Completed, Sum, Decoding.Decoder.Consistent,
        Decoding.PageSegs, Read, Page.Sized;
      ghost var d, l, g, b := Decoder(), lacingVals[..lacingFill], granuleVals[..lacingFill], bodyData[..bodyFill];
      assert d.segs == OggSegments.Segs(l, Granules(l, g), b);
      LensOf(og.View());
      Decoding.SumOfPrefix(lens, from);
      AppendPage(og, lens, from, skipped, bos, granulepos);
      ExtendedTables(d, f, from, l, g, b, lacingVals[..lacingFill], granuleVals[..lacingFill], bodyData[..bodyFill]);
    }

    /** The last-page flag goes on the last entry, whatever that is. */
    method MarkEnd()
      requires Valid()
      modifies this`eos, lacingVals
      ensures Valid() && eos && Segs() == Decoding.MarkLast(old(Segs()))
    {
      eos := true;
      if lacingFill > lacingReturned {
        lacingVals[lacingFill - 1] := lacingVals[lacingFill - 1].(last := true);
      }
    }

    /** ogg_stream_pagein */
    method PageIn(og: PageRef) returns (ret: int)
      requires Decodes() && og.Bounded() && og.View().Sized() && og.body != bodyData && og.header != bodyData
      modifies this`bodyData, this`bodyFill, this`bodyReturned, this`lacingVals, this`granuleVals, this`lacingFill,
               this`lacingPacket, this`lacingReturned, this`eos, this`pageno, bodyData, lacingVals, granuleVals
      ensures Decodes() && SameOrNew()
      ensures Decoder() == Decoding.PageIn(old(Decoder()), old(Read(og.View())))
      ensures ret == if Decoding.Accepts(old(Decoder()), old(Read(og.View()))) then 0 else -1
    {
      hide Read, Decoding.Decoder.Consistent, Off, Decoding.PageIn;
      ghost var d, f := Decoder(), Read(og.View());
      var version, continued, bos, last, granulepos, serial, page, lens := ReadHeader(og);
      Cleanup();
      if serial != serialno || version > 0 {
        NotAccepted(d, f);
        return -1;
      }
      AcceptPage(og, lens, continued, bos, last, granulepos, page, f);
      ret := 0;
    }

    /** A page of this stream: make room, resynchronise, and take it in. */
    method AcceptPage(og: PageRef, lens: seq<byte>, continued: bool, isBos: bool, last: bool, granulepos: int, page: int,
                      ghost f: Fields)
      requires Decodes() && bodyReturned == lacingReturned == 0
      requires og.Bounded() && og.View().Sized() && f == Read(og.View()) && og.body != bodyData && og.header != bodyData
      requires lens == f.lens && continued == f.continued && isBos == f.bos && last == f.eos && granulepos == f.granulepos
      requires page == f.pageno && Decoding.Accepts(Decoder(), f)
      modifies this`bodyData, this`bodyFill, this`lacingVals, this`granuleVals, this`lacingFill,
               this`lacingPacket, this`eos, this`pageno, bodyData, lacingVals, granuleVals
      ensures Decodes() && SameOrNew()
      ensures Decoder() == Decoding.PageIn(old(Decoder()), f)
    {
      hide Read, Decoding.Decoder.Consistent, Off, Decoding.PageIn, Decoding.Admit, Decoding.Resync,
        Decoding.Accepts, Granules, Page.Sized;
      ghost var d := Decoder();
      Prepare(|lens|, f, page);
      TakePage(og, lens, continued, isBos, last, granulepos, f);
      pageno := page + 1;
      Accepted(d, f, Decoder());
    }

    /** Room for a page's segments, and the tables in step with its number. */
    method Prepare(segments: nat, ghost f: Fields, page: int)
      requires Decodes() && bodyReturned == lacingReturned == 0 && f.pageno == page
      modifies this`lacingVals, this`granuleVals, this`bodyFill, this`lacingFill, this`lacingPacket, lacingVals
      ensures Decodes() && Decoder() == Decoding.Resync(old(Decoder()), f) && lacingFill + segments < lacingVals.Length
      ensures lacingVals == old(lacingVals) || fresh(lacingVals)
      ensures granuleVals == old(granuleVals) || fresh(granuleVals)
    {
      hide Decoding.Decoder.Consistent, Off, Decoding.Resync;
      Expand(segments);
      Resync(f, page);
    }

    method Expand(segments: nat)
      requires Decodes() && lacingReturned == 0
      modifies this`lacingVals, this`granuleVals
      ensures Decodes() && Decoder() == old(Decoder()) && lacingFill + segments + 1 < lacingVals.Length
      ensures lacingVals == old(lacingVals) || fresh(lacingVals)
      ensures granuleVals == old(granuleVals) || fresh(granuleVals)
    {
      hide Decoding.Decoder.Consistent;
      LacingExpand(segments + 1);
      assert lacingVals[0..lacingFill] == lacingVals[..lacingFill] && granuleVals[0..lacingFill] == granuleVals[..lacingFill];
    }

    /** What is kept of a page in sequence, and its flags. */
    method TakePage(og: PageRef, lens: seq<byte>, continued: bool, isBos: bool, last: bool, granulepos: int, ghost f: Fields)
      requires Decodes() && bodyReturned == lacingReturned == 0 && lacingFill + |lens| < lacingVals.Length
      requires og.Bounded() && og.View().Sized() && f == Read(og.View()) && og.body != bodyData && og.header != bodyData
      requires lens == f.lens && continued == f.continued && isBos == f.bos && last == f.eos && granulepos == f.granulepos
      modifies this`bodyData, this`bodyFill, this`lacingFill, this`lacingPacket, this`eos, bodyData, lacingVals, granuleVals
      ensures Decodes() && (bodyData == old(bodyData) || fresh(bodyData))
      ensures Decoder() == Decoding.Admit(old(Decoder()), f).(eos := old(eos) || f.eos)
    {
      hide Read, Decoding.Decoder.Consistent, Decoding.Skipped, Decoding.Extend, Decoding.Kept,
        Decoding.MarkLast, Decoding.Admit, Off;
      ghost var r := Decoder();
      Decoding.AdmitKeepsConsistent(r, f);
      AdmitParts(r, f);
      var bos := isBos;
      var segptr, skipped := 0, 0;
      SkipsNothing(lens);
      if continued {
        if lacingFill < 1 || lacingVals[lacingFill - 1] == HOLE {
          bos := false;
          segptr, skipped := SkipLost(lens);
        }
      }
      AppendKept(og, lens, segptr, skipped, bos, granulepos, f);
      if last {
        MarkEnd();
      }
      Decoding.OtherFieldsDoNotMatter(Decoding.Admit(r, f), Decoder());
    }

    /** ogg_stream_packetout and, without advancing, ogg_stream_packetpeek. Returns 1, 0 or -1; the packet is filled in
        only when 1 is returned, with its running number, which counts markers too. A loss marker is consumed even by a
        peek. */
    method TakePacket(adv: bool) returns (ret: int, op: Option<Event>, number: int)
      requires Decodes()
      modifies this`bodyReturned, this`lacingReturned, this`packetno
      ensures Decodes()
      ensures var (next, event) := Decoding.PacketOut(old(Decoder()));
              && (ret == 0 <==> event.None?) && (ret == -1 <==> event == Some(Hole)) && (ret == 1 || ret == 0 || ret == -1)
              && (ret == 1 ==> op == event && number == old(packetno)) && (ret != 1 ==> op.None?)
              && packetno == old(packetno) + (if ret == -1 || (ret == 1 && adv) then 1 else 0)
              && Decoder() == (if adv || ret == -1 then next else old(Decoder()))
    {
      ghost var d := Decoder();
      Decoding.PacketOutPops(d);
      hide Decoding.Decoder.Consistent, Off, AnyLast;
      var ptr := lacingReturned;
      number := packetno;
      if lacingPacket <= ptr {
        return 0, None, number;
      }
      assert lacingVals[ptr] == d.segs.lac[0];
      if lacingVals[ptr].hole {
        SkipHole();
        return -1, None, number;
      }
      var last, bytes, packet;
      last, bytes, packet := Gather();
      op := Some(packet);
      ret := 1;
      if adv {
        Consume(last, bytes);
      }
    }

    /** Step over a loss marker. */
    method SkipHole()
      requires Decodes() && lacingReturned < lacingPacket && lacingVals[lacingReturned].hole
      modifies this`lacingReturned, this`packetno
      ensures Valid() && Decoder() == Decoding.DropHead(old(Decoder()), 0)
    {
      ghost var segs := Segs();
      assert segs.lac[0] == lacingVals[lacingReturned];
      assert Off(segs.lac, 1) == 0;
      lacingReturned := lacingReturned + 1;
      packetno := packetno + 1;
      assert Segs() == Slice(segs, 1, |segs.lac|);
    }

    /** The packet at the read position: scan over values of 255, collecting its size and flags. */
    method Gather() returns (last: nat, bytes: nat, packet: Event)
      requires Decodes() && lacingReturned < lacingPacket && !lacingVals[lacingReturned].hole
      ensures last == Decoding.LastOfHead(Decoder()) && bytes == Off(Segs().lac, last + 1)
      ensures packet == Decoding.HeadEvent(Decoder(), last)
    {
      hide Off, Granules, AnyLast;
      ghost var segs := Segs();
      var eosFlag;
      last, bytes, eosFlag := Scan();
      OffIsMonotone(segs.lac, last + 1, |segs.lac|);
      PageBody(bodyData[..], bodyReturned, bodyFill, bytes);
      assert segs.lac[0] == lacingVals[lacingReturned] && (last > 0 ==> !Ends(segs.lac[last - 1]));
      GranuleOf(segs.lac, granuleVals[lacingReturned..lacingFill], last);
      packet := Packet(bodyData[bodyReturned..bodyReturned + bytes], lacingVals[lacingReturned].first, eosFlag,
                       granuleVals[lacingReturned + last]);
    }

    /** The last entry of the packet at hand, its size, and whether an entry is flagged as the last of the stream. */
    method Scan() returns (last: nat, bytes: nat, eosFlag: bool)
      requires Decodes() && lacingReturned < lacingPacket && !lacingVals[lacingReturned].hole
      ensures last == Decoding.LastOfHead(Decoder()) && bytes == Off(Segs().lac, last + 1)
      ensures eosFlag == AnyLast(Segs().lac, 0, last + 1)
    {
      hide Granules;
      ghost var lac := Segs().lac;
      ghost var stop := Decoding.LastOfHead(Decoder());
      var ptr := lacingReturned;
      var size := lacingVals[ptr].val;
      bytes := size;
      eosFlag := lacingVals[ptr].last;
      assert lac[0] == lacingVals[ptr];
      assert Off(lac, 1) == Off(lac, 0) + size;
      while size == 255
        invariant lacingReturned <= ptr && ptr - lacingReturned <= stop && size == lac[ptr - lacingReturned].val
        invariant bytes == Off(lac, ptr - lacingReturned + 1)
        invariant eosFlag == AnyLast(lac, 0, ptr - lacingReturned + 1)
        decreases stop - (ptr - lacingReturned)
      {
        ptr := ptr + 1;
        var val := lacingVals[ptr];
        assert val == lac[ptr - lacingReturned];
        size := val.val;
        if val.last {
          eosFlag := true;
        }
        bytes := bytes + size;
      }
      last := ptr - lacingReturned;
    }

    /** Move the read position past the packet that ends `last` entries on. */
    method Consume(last: nat, bytes: nat)
      requires Decodes() && lacingReturned + last < lacingPacket && bytes == Off(Segs().lac, last + 1)
      modifies this`bodyReturned, this`lacingReturned, this`packetno
      ensures Valid() && Decoder() == Decoding.DropHead(old(Decoder()), last)
    {
      assert Segs().Valid();
      hide Off, Granules, Decoding.Decoder.Consistent;
      ghost var segs, n := Segs(), last + 1;
      OffIsMonotone(segs.lac, n, |segs.lac|);
      GranulesOfRest(segs.lac, granuleVals[lacingReturned..lacingFill], n);
      Seqs.SliceOfSlice(lacingVals[..], lacingReturned, lacingFill, n, |segs.lac|);
      Seqs.SliceOfSlice(granuleVals[..], lacingReturned, lacingFill, n, |segs.lac|);
      Seqs.SliceOfSlice(bodyData[..], bodyReturned, bodyFill, bytes, |segs.body|);
      bodyReturned := bodyReturned + bytes;
      lacingReturned := lacingReturned + last + 1;
      packetno := packetno + 1;
      assert Segs() == Slice(segs, n, |segs.lac|);
    }
  }

  /** A peek and then a read: the packet peeked at is the packet read, and nothing but that packet is gone. If the peek met
      a loss marker, the read gets what is behind it. */
  method PeekThenTake(s: Stream)
    returns (peek: int, peeked: Option<Event>, first: int, take: int, taken: Option<Event>, second: int)
    requires s.Decodes()
    modifies s`bodyReturned, s`lacingReturned, s`packetno
    ensures s.Decodes() && (peek == 0 ==> take == 0) && (take == 1 ==> taken.Some?)
    ensures peek == 1 ==> take == 1 && taken == peeked && peeked.Some? && second == first
    ensures peek == 1 ==> old(s.Decoder().Pending()) == [peeked.value] + s.Decoder().Pending()
    ensures peek == -1 && take == 1 ==> old(s.Decoder().Pending()) == [Hole, taken.value] + s.Decoder().Pending()
  {
    hide Decoding.PacketOut, Decoding.Decoder.Consistent, Decoding.Decoder.Pending;
    Decoding.PacketOutPops(s.Decoder());
    peek, peeked, first := s.TakePacket(false);
    Decoding.PacketOutPops(s.Decoder());
    take, taken, second := s.TakePacket(true);
  }

  /** Octets at .. at+k-1, least significant first, as the accessors assemble them: from the high octet down. */
  method LoadSigned(a: array<byte>, at: nat, k: nat) returns (v: int)
    requires at + k <= a.Length
    ensures v == Signed(a[at..at + k])
  {
    var i := k;
    v := 0;
    while i > 0
      invariant 0 <= i <= k && v == Unsigned(a[at + i..at + k])
    {
      i := i - 1;
      assert a[at + i..at + k][1..] == a[at + i + 1..at + k];
      v := v * 256 + a[at + i];
    }
    if 2 * v >= Pow256(k) {
      v := v - Pow256(k);
    }
  }

  /** The page accessors, and the segment table. */
  method ReadHeader(og: PageRef)
    returns (version: byte, continued: bool, bos: bool, eos: bool, granulepos: int, serialno: int, pageno: int, lens: seq<byte>)
    requires og.Bounded() && og.View().Sized()
    ensures Read(og.View()) == Fields(version, continued, bos, eos, granulepos, serialno, pageno, lens, og.View().body)
  {
    hide Signed;
    var h, at := og.header, og.headerAt;
    ghost var p := og.View();
    version := h[at + 4];
    var flags := h[at + 5];
    continued, bos, eos := flags % 2 == 1, flags / 2 % 2 == 1, flags / 4 % 2 == 1;
    granulepos := LoadSigned(h, at + 6, 8);
    serialno := LoadSigned(h, at + 14, 4);
    pageno := LoadSigned(h, at + 18, 4);
    lens := h[at + 27..at + og.headerLen];
    HeaderSlices(h[..], at, og.headerLen);
  }

  lemma HeaderSlices(h: seq<byte>, at: nat, n: nat)
    requires at + n <= |h| && n >= 27
    ensures var p := h[at..at + n];
            && p[4] == h[at + 4] && p[5] == h[at + 5] && p[6..14] == h[at + 6..at + 14] && p[14..18] == h[at + 14..at + 18]
            && p[18..22] == h[at + 18..at + 22] && p[27..] == h[at + 27..at + n]
  {
    Seqs.SliceOfSlice(h, at, at + n, 6, 14);
    Seqs.SliceOfSlice(h, at, at + n, 14, 18);
    Seqs.SliceOfSlice(h, at, at + n, 18, 22);
    Seqs.SliceOfSlice(h, at, at + n, 27, n);
  }

  lemma AdmitParts(r: Decoding.Decoder, f: Fields)
    requires f.Valid()
    ensures var from := if Decoding.Orphan(r, f) then Decoding.Skipped(f.lens) else 0;
            var t := Decoding.Extend(r, Decoding.Kept(r, f), f.lens[from..]);
            Decoding.Admit(r, f) == if f.eos then t.(segs := Decoding.MarkLast(t.segs)) else t
  {
    hide Decoding.Orphan, Decoding.Skipped, Decoding.Extend, Decoding.MarkLast;
    assert |Decoding.Kept(r, f).lac| == |f.lens| - (if Decoding.Orphan(r, f) then Decoding.Skipped(f.lens) else 0);
  }

  lemma NotAccepted(d: Decoding.Decoder, f: Fields)
    requires d.Consistent() && f.Valid() && (f.serialno != d.serialno || f.version > 0)
    ensures Decoding.PageIn(d, f) == d && !Decoding.Accepts(d, f)
  {
  }

  lemma Accepted(d: Decoding.Decoder, f: Fields, e: Decoding.Decoder)
    requires d.Consistent() && f.Valid() && Decoding.Accepts(d, f)
    requires e == Decoding.Admit(Decoding.Resync(d, f), f).(eos := Decoding.Resync(d, f).eos || f.eos, pageno := f.pageno + 1)
    ensures e == Decoding.PageIn(d, f) && e.Consistent() && Decoding.Accepts(d, f)
  {
    Decoding.PageInKeepsConsistent(d, f);
  }

  lemma LensOf(p: Page)
    requires p.Sized()
    ensures Read(p).lens == p.header[27..] && Read(p).body == p.body && |p.body| == Sum(Read(p).lens)
  {
  }

  lemma ExtendedTables(d: Decoding.Decoder, f: Fields, from: nat, l: seq<Lacing>, g: seq<int>, b: seq<byte>,
                       l2: seq<Lacing>, g2: seq<int>, b2: seq<byte>)
    requires f.Valid() && from == (if Decoding.Orphan(d, f) then Decoding.Skipped(f.lens) else 0)
    requires |l| == |g| && d.segs == OggSegments.Segs(l, Granules(l, g), b) && Sum(f.lens[..from]) <= |f.body|
    requires var kept := Decoding.PageSegs(f.lens[from..], [], f.bos && !Decoding.Orphan(d, f), f.granulepos);
             l2 == l + kept.lac && g2 == g + kept.gran && b2 == b + f.body[Sum(f.lens[..from])..]
    ensures |l2| == |g2| && OggSegments.Segs(l2, Granules(l2, g2), b2) == Append(d.segs, Decoding.Kept(d, f))
  {
    hide Decoding.Orphan, Decoding.Skipped, Sum, Decoding.PageSegs;
    KeptParts(f.lens[from..], f.body[Sum(f.lens[..from])..], f.bos && !Decoding.Orphan(d, f), f.granulepos);
    var kept := Decoding.PageSegs(f.lens[from..], [], f.bos && !Decoding.Orphan(d, f), f.granulepos);
    GranulesJoined(l, g, kept.lac, kept.gran);
  }

  lemma KeptParts(lens: seq<byte>, body: seq<byte>, bos: bool, granulepos: int)
    ensures var s, t := Decoding.PageSegs(lens, body, bos, granulepos), Decoding.PageSegs(lens, [], bos, granulepos);
            s.lac == t.lac && s.gran == t.gran && s.body == body && forall i :: 0 <= i < |s.lac| ==> !s.lac[i].hole
  {
  }

  ghost function Entries(lens: seq<byte>, bos: bool): seq<Lacing> {
    Decoding.PageSegs(lens, [], bos, 0).lac
  }

  ghost function NoGranules(n: nat): seq<int> {
    seq(n, _ => -1)
  }

  lemma EntriesSnoc(l: seq<Lacing>, g: seq<int>, kept: seq<byte>, i: nat, bos: bool)
    requires i < |kept|
    ensures l + Entries(kept[..i + 1], bos) == l + Entries(kept[..i], bos) + [Lacing(kept[i], bos && i == 0, false, false)]
    ensures g + NoGranules(i + 1) == g + NoGranules(i) + [-1]
    ensures Decoding.Completed(kept[..i + 1]) == if kept[i] < 255 then i + 1 else Decoding.Completed(kept[..i])
  {
    assert kept[..i + 1][..i] == kept[..i];
    assert Entries(kept[..i + 1], bos) == Entries(kept[..i], bos) + [Lacing(kept[i], bos && i == 0, false, false)];
    assert NoGranules(i + 1) == NoGranules(i) + [-1];
  }

  lemma NoEntries(l: seq<Lacing>, g: seq<int>, bos: bool)
    ensures l + Entries([], bos) == l && g + NoGranules(0) == g && Decoding.Completed([]) == 0
  {
  }

  lemma GranuleSaved(g: seq<int>, lens: seq<byte>, bos: bool, granulepos: int, result: seq<int>)
    requires var done := Decoding.Completed(lens);
             result == if done > 0 then (g + NoGranules(|lens|))[|g| + done - 1 := granulepos] else g + NoGranules(|lens|)
    ensures result == g + Decoding.PageSegs(lens, [], bos, granulepos).gran
    ensures Entries(lens, bos) == Decoding.PageSegs(lens, [], bos, granulepos).lac
  {
    hide Decoding.Completed;
    var done := Decoding.Completed(lens);
    var expected := Decoding.PageSegs(lens, [], bos, granulepos).gran;
    assert |result| == |g| + |lens|;
    forall i | 0 <= i < |result| ensures result[i] == (g + expected)[i] {
    }
  }

  /** The leading values of a segment table that belong to a packet whose beginning was lost, and their body octets. */
  method SkipLost(lens: seq<byte>) returns (segptr: nat, skipped: nat)
    ensures segptr == Decoding.Skipped(lens) && skipped == Sum(lens[..segptr])
  {
    hide Decoding.Skipped, Sum;
    segptr, skipped := 0, 0;
    SkipsNothing(lens);
    while segptr < |lens|
      invariant segptr <= |lens| && skipped == Sum(lens[..segptr])
      invariant Decoding.Skipped(lens) == segptr + Decoding.Skipped(lens[segptr..])
    {
      var val := lens[segptr];
      SkipsOne(lens, segptr);
      skipped := skipped + val;
      segptr := segptr + 1;
      if val < 255 {
        break;
      }
    }
  }

  lemma SkipsNothing(lens: seq<byte>)
    ensures Sum(lens[..0]) == 0 && lens[0..] == lens && Decoding.Skipped([]) == 0
    ensures lens[|lens|..] == []
  {
  }

  lemma SkipsOne(lens: seq<byte>, i: nat)
    requires i < |lens|
    ensures Sum(lens[..i + 1]) == Sum(lens[..i]) + lens[i]
    ensures Decoding.Skipped(lens[i..]) == if lens[i] < 255 then 1 else 1 + Decoding.Skipped(lens[i + 1..])
  {
    assert lens[..i + 1][..i] == lens[..i];
    assert lens[i..][1..] == lens[i + 1..];
  }

  lemma GranuleOf(lac: seq<Lacing>, gran: seq<int>, k: nat)
    requires k < |lac| == |gran| && !lac[k].hole
    ensures Granules(lac, gran)[k] == gran[k]
  {
  }

  lemma BodyPart<T>(s: seq<T>, at: nat, n: nat, k: nat)
    requires at + n <= |s| && k <= n
    ensures s[at..at + n][k..] == s[at + k..at + k + (n - k)]
  {
  }

  lemma PartialSize(s: Segs, k: nat)
    requires s.Valid() && k <= |s.lac|
    ensures Off(s.lac, k) <= Off(s.lac, |s.lac|) == |s.body|
  {
    OffIsMonotone(s.lac, k, |s.lac|);
  }

  lemma SegsOfPrefix(lac: seq<Lacing>, gran: seq<int>, k: nat)
    requires |lac| == |gran| && k <= |lac|
    ensures Granules(lac[..k], gran[..k]) == Granules(lac, gran)[..k]
  {
  }

  lemma GranulesOfRest(lac: seq<Lacing>, gran: seq<int>, k: nat)
    requires |lac| == |gran| && k <= |lac|
    ensures Granules(lac[k..], gran[k..]) == Granules(lac, gran)[k..]
  {
  }

  lemma PageBody<T>(s: seq<T>, i: nat, j: nat, n: nat)
    requires i + n <= j <= |s|
    ensures s[i..i + n] == s[i..j][..n]
  {
  }

  lemma PrologueOf(f: Fields)
    requires |f.lens| <= 255
    ensures BlankHeader(f) == CAPTURE + [f.version, Flags(f.continued, f.bos, f.eos)] + LittleEndian(f.granulepos, 8) +
            LittleEndian(f.serialno, 4) + LittleEndian(f.pageno, 4) + [0, 0, 0, 0, |f.lens|] + f.lens
  {
    hide LittleEndian, Flags;
    Seqs.ConcatAssociates(Prologue(f) + LittleEndian(f.granulepos, 8) + LittleEndian(f.serialno, 4) + LittleEndian(f.pageno, 4),
                     [0, 0, 0, 0], [|f.lens|]);
  }

  lemma GranulesJoined(l1: seq<Lacing>, g1: seq<int>, l2: seq<Lacing>, g2: seq<int>)
    requires |l1| == |g1| && |l2| == |g2| && forall i :: 0 <= i < |l2| ==> !l2[i].hole
    ensures Granules(l1 + l2, g1 + g2) == Granules(l1, g1) + g2
  {
  }

  function Flatten(iov: seq<seq<byte>>): seq<byte> {
    if iov == [] then [] else iov[0] + Flatten(iov[1..])
  }
}
