/** From packets to octets and back: the encoder's pages as one byte stream, cut into arbitrary chunks, found again by
    the synchroniser, and decoded. */
module OggEndToEnd {
  import opened Bytes
  import OggSegments
  import opened OggPage
  import OggDecoder
  import opened OggLoss
  import opened OggEncoder
  import opened OggRoundTrip
  import OggSync

  /** A page as its header and body. */
  function Parse(raw: seq<byte>): (p: Page)
    requires OggSync.IsPage(raw)
    ensures p.Sized()
  {
    var n := OggSync.HeaderLength(raw);
    assert raw[..n][27..] == raw[27..n];
    Page(raw[..n], raw[n..])
  }

  /** The octets of a written page are found as a page, and read back as the fields written. */
  lemma WrittenPageIsRead(f: Fields)
    requires Fits(f)
    ensures OggSync.IsPage(Write(f).Raw()) && Read(Parse(Write(f).Raw())) == f
  {
    hide Sealed, Write, Read, Sum, Fits;
    ReadOfWrite(f);
    var p := Write(f);
    var raw := p.Raw();
    assert raw[26] == p.header[26];
    assert raw[..4] == p.header[..4];
    assert raw[27..|p.header|] == p.header[27..];
    assert raw[..|p.header|] == p.header && raw[|p.header|..] == p.body;
  }

  // ----- The fields fit their widths -----

  predicate IsInt64(n: int) {
    -0x8000_0000_0000_0000 <= n < 0x8000_0000_0000_0000
  }

  ghost predicate PacketsFit(ps: seq<Input>) {
    forall k :: 0 <= k < |ps| ==> IsInt64(ps[k].granulepos)
  }

  ghost predicate QueueFits(e: Encoder) {
    IsInt64(e.granulepos) && forall i :: 0 <= i < |e.segs.gran| ==> IsInt64(e.segs.gran[i])
  }

  ghost predicate GranulesFit(fs: seq<Fields>) {
    forall j :: 0 <= j < |fs| ==> IsInt64(fs[j].granulepos)
  }

  lemma PerformKeepsFit(e: Encoder, call: Call)
    requires e.segs.Valid() && QueueFits(e) && (call.Submitting? ==> IsInt64(call.packet.granulepos))
    ensures var (next, page) := Perform(e, call);
            QueueFits(next) && (page.Some? ==> IsInt64(page.value.granulepos))
  {
    hide OggSegments.Off, Vals, Ripe;
  }

  lemma {:induction false} EncodedGranulesFit(serialno: int, calls: seq<Call>)
    requires PacketsFit(Packets(calls))
    ensures QueueFits(Encode(serialno, calls).0) && GranulesFit(Encode(serialno, calls).1)
    decreases |calls|
  {
    hide Perform, QueueFits, IsInt64;
    if calls == [] {
      FreshFits(serialno);
    } else {
      var before, last := calls[..|calls| - 1], calls[|calls| - 1];
      var more := if last.Submitting? then [last.packet] else [];
      assert Packets(calls) == Packets(before) + more;
      forall k | 0 <= k < |Packets(before)| ensures IsInt64(Packets(before)[k].granulepos) {
        assert Packets(calls)[k] == Packets(before)[k];
      }
      assert last.Submitting? ==> Packets(calls)[|Packets(before)|] == last.packet;
      EncodedGranulesFit(serialno, before);
      PerformKeepsFit(Encode(serialno, before).0, last);
    }
  }

  lemma FreshFits(serialno: int)
    ensures QueueFits(Fresh(serialno))
  {
  }

  function Raws(fs: seq<Fields>): (rs: seq<seq<byte>>)
    requires AllValid(fs)
    ensures |rs| == |fs|
  {
    seq(|fs|, j requires 0 <= j < |fs| => Write(fs[j]).Raw())
  }

  ghost predicate PagesFit(fs: seq<Fields>) {
    forall j :: 0 <= j < |fs| ==> Fits(fs[j])
  }

  lemma CoherentPagesFit(fs: seq<Fields>, serialno: int)
    requires Coherent(fs, serialno) && GranulesFit(fs)
    requires -0x8000_0000 <= serialno < 0x8000_0000 && |fs| <= 0x8000_0000
    ensures PagesFit(fs)
  {
    hide Assemble;
    forall j | 0 <= j < |fs| ensures Fits(fs[j]) {
      assert CoherentAt(fs, serialno, j);
    }
  }

  /** The pages of a stream, as octets cut into any chunks, come out of the synchroniser one for one. */
  lemma StreamIsSynced(fs: seq<Fields>, steps: seq<OggSync.Step>)
    requires AllValid(fs) && PagesFit(fs)
    requires OggSync.Fed(steps) == OggSync.Join(Raws(fs)) && OggSync.SeekPage(OggSync.Run(steps).held).More?
    ensures OggSync.Run(steps).pages == Raws(fs)
    ensures forall j :: 0 <= j < |fs| ==> OggSync.IsPage(Raws(fs)[j]) && Read(Parse(Raws(fs)[j])) == fs[j]
  {
    hide OggSync.SeekPage, OggSync.Run, OggSync.IsPage, Read, Parse, Write, Fits;
    forall j | 0 <= j < |fs| ensures OggSync.IsPage(Raws(fs)[j]) && Read(Parse(Raws(fs)[j])) == fs[j] {
      WrittenPageIsRead(fs[j]);
    }
    OggSync.SoundPagesAreFound(Raws(fs));
    OggSync.ChunkingIsIrrelevant(steps);
  }

  /** Packets, of which only the last closes the stream, are submitted and paged by any mixture of pageout and flush until
      flush has nothing left. The octets of the pages are fed to the synchroniser in any chunks. What it returns, parsed,
      is fed to a fresh or reset decoder, and packets are read at any moments. The reader gets exactly the packets. */
  lemma FullRoundTrip(serialno: int, calls: seq<Call>, nfill: int, steps: seq<OggSync.Step>, fromZero: bool, run: seq<Action>)
    requires -0x8000_0000 <= serialno < 0x8000_0000
    requires EosOnlyLast(Packets(calls)) && PacketsFit(Packets(calls))
    requires Flush(Encode(serialno, calls).0, nfill).1.None?
    requires |Encode(serialno, calls).1| <= 0x8000_0000
    requires OggSync.Fed(steps) == OggSync.Join(Raws(Encode(serialno, calls).1))
    requires OggSync.SeekPage(OggSync.Run(steps).held).More?
    requires InRange(Encode(serialno, calls).1, run) && Submitted(run) == AllPages(|Encode(serialno, calls).1|)
    ensures var pages := OggSync.Run(steps).pages;
            var start := if fromZero then OggDecoder.Initial(serialno) else OggDecoder.Reset(OggDecoder.Initial(serialno));
            && (forall j :: 0 <= j < |pages| ==> OggSync.IsPage(pages[j]))
            && var fs := seq(|pages|, j requires 0 <= j < |pages| && OggSync.IsPage(pages[j]) => Read(Parse(pages[j])));
               && start.Consistent() && AllValid(fs) && InRange(fs, run)
               && var (d, out) := Decode(start, fs, run);
                  out + d.Pending() == Decoded(fs, Packets(calls), |Packets(calls)|)
  {
    hide Decode, Encode, Decoded, OggSync.IsPage, OggSync.SeekPage, OggSync.Run, Read, Parse, Raws, PagesFit,
      OggDecoder.Decoder.Pending;
    var fs := Encode(serialno, calls).1;
    EncodedPagesAreCoherent(serialno, calls);
    EncodedGranulesFit(serialno, calls);
    CoherentPagesFit(fs, serialno);
    StreamIsSynced(fs, steps);
    PagesRoundTrip(serialno, calls, nfill, fromZero, run);
    var pages := OggSync.Run(steps).pages;
    assert seq(|pages|, j requires 0 <= j < |pages| && OggSync.IsPage(pages[j]) => Read(Parse(pages[j]))) == fs;
  }
}
