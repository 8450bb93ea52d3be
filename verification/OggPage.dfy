/** The page format of section 6 of RFC 3533, and the accessors that read it. */
module OggPage {
  import opened Bytes
  import Checksum

  const CAPTURE: seq<byte> := [79, 103, 103, 83] // "OggS"

  /** What an ogg_page points at: the header with its segment table, and the body. */
  datatype Page = Page(header: seq<byte>, body: seq<byte>) {
    function Raw(): seq<byte> {
      header + body
    }

    /** The sizes agree with the segment table, so every accessor below is defined. */
    predicate Sized() {
      |header| >= 27 && |header| == 27 + header[26] as int && |body| == Sum(header[27..])
    }
  }

  /** The fields the accessors read out of a page. */
  datatype Fields = Fields(version: byte, continued: bool, bos: bool, eos: bool, granulepos: int,
                           serialno: int, pageno: int, lens: seq<byte>, body: seq<byte>) {
    ghost predicate Valid() {
      |lens| <= 255 && |body| == Sum(lens)
    }
  }

  function Read(p: Page): (f: Fields)
    requires p.Sized()
    ensures f.Valid()
  {
    Fields(p.header[4], p.header[5] % 2 == 1, p.header[5] / 2 % 2 == 1, p.header[5] / 4 % 2 == 1,
           Signed(p.header[6..14]), Signed(p.header[14..18]), Signed(p.header[18..22]), p.header[27..], p.body)
  }

  function Flags(continued: bool, bos: bool, eos: bool): byte {
    (if continued then 1 else 0) + (if bos then 2 else 0) + (if eos then 4 else 0)
  }

  /** The header of a page before its checksum is filled in. */
  function BlankHeader(f: Fields): (h: seq<byte>)
    requires |f.lens| <= 255
    ensures |h| == 27 + |f.lens|
  {
    Layout(Prologue(f), LittleEndian(f.granulepos, 8), LittleEndian(f.serialno, 4), LittleEndian(f.pageno, 4),
           [0, 0, 0, 0], |f.lens|, f.lens)
  }

  function Prologue(f: Fields): (s: seq<byte>)
    ensures |s| == 6
  {
    CAPTURE + [f.version, Flags(f.continued, f.bos, f.eos)]
  }

  function Layout(start: seq<byte>, granulepos: seq<byte>, serialno: seq<byte>, pageno: seq<byte>, checksum: seq<byte>,
                  segments: byte, lens: seq<byte>): (h: seq<byte>)
    ensures |h| == |start| + |granulepos| + |serialno| + |pageno| + |checksum| + 1 + |lens|
  {
    start + granulepos + serialno + pageno + checksum + [segments] + lens
  }

  /** A page with its checksum field filled in. */
  function Seal(p: Page): (q: Page)
    requires |p.header| >= 26
    ensures |q.header| == |p.header|
  {
    Page(p.header[..22] + Checksum.FieldOctets(Checksum.PageCrc(p.Raw())) + p.header[26..], p.body)
  }

  function Write(f: Fields): (p: Page)
    requires |f.lens| <= 255
  {
    Seal(Page(BlankHeader(f), f.body))
  }

  /** The stored checksum is the one the rest of the page calls for. */
  predicate Sealed(page: seq<byte>)
    requires |page| >= 26
  {
    page[22..26] == Checksum.FieldOctets(Checksum.PageCrc(page))
  }

  /** Field values that fit the widths they are stored in. */
  ghost predicate Fits(f: Fields) {
    && f.Valid()
    && -0x8000_0000_0000_0000 <= f.granulepos < 0x8000_0000_0000_0000
    && -0x8000_0000 <= f.serialno < 0x8000_0000
    && -0x8000_0000 <= f.pageno < 0x8000_0000
  }

  lemma Widths()
    ensures Pow256(4) == 0x1_0000_0000 && Pow256(8) == 0x1_0000_0000_0000_0000
  {
    assert Pow256(4) == 256 * Pow256(3);
    assert Pow256(6) == 256 * Pow256(5);
    assert Pow256(8) == 256 * Pow256(7);
  }

  lemma FlagsAreRead(c: bool, b: bool, e: bool)
    ensures var x := Flags(c, b, e); (x % 2 == 1) == c && (x / 2 % 2 == 1) == b && (x / 4 % 2 == 1) == e
  {
  }

  lemma LayoutIsRead(a: seq<byte>, g: seq<byte>, s: seq<byte>, n: seq<byte>, c: seq<byte>, t: byte, lens: seq<byte>)
    requires |a| == 6 && |g| == 8 && |s| == |n| == |c| == 4
    ensures var h := Layout(a, g, s, n, c, t, lens);
            && h[..6] == a && h[6..14] == g && h[14..18] == s && h[18..22] == n && h[22..26] == c
            && h[26] == t && h[27..] == lens
  {
  }

  lemma LayoutWithField(a: seq<byte>, g: seq<byte>, s: seq<byte>, n: seq<byte>, c: seq<byte>, d: seq<byte>, t: byte,
                        lens: seq<byte>, body: seq<byte>)
    requires |a| == 6 && |g| == 8 && |s| == |n| == |c| == |d| == 4
    ensures var h := Layout(a, g, s, n, c, t, lens); h[..22] + d + h[26..] == Layout(a, g, s, n, d, t, lens)
    ensures var p := Layout(a, g, s, n, c, t, lens) + body;
            p[22..26] == c && p[..22] + d + p[26..] == Layout(a, g, s, n, d, t, lens) + body
  {
  }

  /** Whatever is written to a page is what the accessors read back, and the page passes its own checksum. */
  lemma ReadOfWrite(f: Fields)
    requires Fits(f)
    ensures Write(f).Sized() && Read(Write(f)) == f
    ensures Write(f).header[..4] == CAPTURE && Sealed(Write(f).Raw())
  {
    hide LittleEndian, Layout, Flags, Signed, Prologue, Write, BlankHeader, Sealed, Checksum.PageCrc, Checksum.FieldOctets;
    var g, s, n := LittleEndian(f.granulepos, 8), LittleEndian(f.serialno, 4), LittleEndian(f.pageno, 4);
    var c := Checksum.FieldOctets(Checksum.PageCrc(BlankHeader(f) + f.body));
    WriteIsLayout(f, c);
    LayoutIsRead(Prologue(f), g, s, n, c, |f.lens|, f.lens);
    PrologueIsRead(f);
    Widths();
    SignedRoundTrip(f.granulepos, 8);
    SignedRoundTrip(f.serialno, 4);
    SignedRoundTrip(f.pageno, 4);
  }

  lemma WriteIsLayout(f: Fields, c: seq<byte>)
    requires |f.lens| <= 255 && c == Checksum.FieldOctets(Checksum.PageCrc(BlankHeader(f) + f.body))
    ensures Write(f) == Page(Layout(Prologue(f), LittleEndian(f.granulepos, 8), LittleEndian(f.serialno, 4),
                                    LittleEndian(f.pageno, 4), c, |f.lens|, f.lens), f.body)
    ensures Sealed(Write(f).Raw())
  {
    hide LittleEndian, Checksum.PageCrc, Checksum.FieldOctets, Layout, Prologue, Sealed;
    var g, s, n := LittleEndian(f.granulepos, 8), LittleEndian(f.serialno, 4), LittleEndian(f.pageno, 4);
    LayoutWithField(Prologue(f), g, s, n, [0, 0, 0, 0], c, |f.lens|, f.lens, f.body);
    LayoutIsSealed(Prologue(f), g, s, n, c, |f.lens|, f.lens, f.body);
  }

  lemma LayoutIsSealed(a: seq<byte>, g: seq<byte>, s: seq<byte>, n: seq<byte>, c: seq<byte>, t: byte, lens: seq<byte>,
                       body: seq<byte>)
    requires |a| == 6 && |g| == 8 && |s| == |n| == |c| == 4
    requires c == Checksum.FieldOctets(Checksum.PageCrc(Layout(a, g, s, n, [0, 0, 0, 0], t, lens) + body))
    ensures Sealed(Layout(a, g, s, n, c, t, lens) + body)
  {
    hide Checksum.FieldOctets, Checksum.Crc, Layout;
    LayoutWithField(a, g, s, n, [0, 0, 0, 0], [0, 0, 0, 0], t, lens, body);
    LayoutWithField(a, g, s, n, c, [0, 0, 0, 0], t, lens, body);
  }

  /** The octets of a written page, one by one: section 6 of RFC 3533. */
  lemma WrittenOctets(f: Fields)
    requires |f.lens| <= 255
    ensures var h := Write(f).header;
            && |h| == 27 + |f.lens| && h[..4] == [79, 103, 103, 83] && h[4] == f.version
            && h[5] == (if f.continued then 1 else 0) + (if f.bos then 2 else 0) + (if f.eos then 4 else 0)
            && (forall i :: 6 <= i < 14 ==> h[i] == f.granulepos / Pow256(i - 6) % 256)
            && (forall i :: 14 <= i < 18 ==> h[i] == f.serialno / Pow256(i - 14) % 256)
            && (forall i :: 18 <= i < 22 ==> h[i] == f.pageno / Pow256(i - 18) % 256)
            && h[26] == |f.lens| && h[27..] == f.lens && Write(f).body == f.body
    ensures var raw := Write(f).Raw();
            Unsigned(raw[22..26]) ==
            Checksum.CrcBits(0, Checksum.Bits(raw[..22] + [0, 0, 0, 0] + raw[26..])) as int
  {
    hide LittleEndian, Layout, Flags, Prologue, Write, BlankHeader, Sealed, Unsigned, Pow256, Checksum.PageCrc,
      Checksum.FieldOctets, Checksum.CrcBits, Checksum.Bits;
    var g, s, n := LittleEndian(f.granulepos, 8), LittleEndian(f.serialno, 4), LittleEndian(f.pageno, 4);
    var c := Checksum.FieldOctets(Checksum.PageCrc(BlankHeader(f) + f.body));
    WriteIsLayout(f, c);
    LayoutIsRead(Prologue(f), g, s, n, c, |f.lens|, f.lens);
    PrologueOctets(f);
    var h := Write(f).header;
    FieldDigits(h, 6, 8, f.granulepos);
    FieldDigits(h, 14, 4, f.serialno);
    FieldDigits(h, 18, 4, f.pageno);
    assert h[..4] == h[..6][..4] && h[4] == h[..6][4] && h[5] == h[..6][5];
    SealedIsDivision(Write(f).Raw());
  }

  lemma PrologueOctets(f: Fields)
    ensures Prologue(f) == [79, 103, 103, 83, f.version,
                            (if f.continued then 1 else 0) + (if f.bos then 2 else 0) + (if f.eos then 4 else 0)]
  {
  }

  lemma FieldDigits(h: seq<byte>, at: nat, k: nat, n: int)
    requires at + k <= |h| && h[at..at + k] == LittleEndian(n, k)
    ensures forall i :: at <= i < at + k ==> h[i] == n / Pow256(i - at) % 256
  {
    forall i | at <= i < at + k ensures h[i] == n / Pow256(i - at) % 256 {
      assert h[i] == h[at..at + k][i - at];
      LittleEndianDigit(n, k, i - at);
    }
  }

  /** A page is sealed exactly if the number its field holds is the remainder of the page with a zero field. */
  lemma SealedIsDivision(page: seq<byte>)
    requires |page| >= 26
    ensures Sealed(page) <==>
            Unsigned(page[22..26]) ==
            Checksum.CrcBits(0, Checksum.Bits(page[..22] + [0, 0, 0, 0] + page[26..])) as int
  {
    hide Checksum.PageCrc, Checksum.FieldOctets, Checksum.CrcBits, Checksum.Bits;
    Checksum.StoredIsDivision(page);
    SameNumber(page[22..26], Checksum.FieldOctets(Checksum.PageCrc(page)));
  }

  lemma {:induction false} SameNumber(s: seq<byte>, t: seq<byte>)
    requires |s| == |t|
    ensures Unsigned(s) == Unsigned(t) <==> s == t
    decreases |s|
  {
    if s != [] {
      SameNumber(s[1..], t[1..]);
      assert s == [s[0]] + s[1..] && t == [t[0]] + t[1..];
    }
  }

  lemma PrologueIsRead(f: Fields)
    ensures Prologue(f)[..4] == CAPTURE && Prologue(f)[4] == f.version
    ensures var x := Prologue(f)[5];
            (x % 2 == 1) == f.continued && (x / 2 % 2 == 1) == f.bos && (x / 4 % 2 == 1) == f.eos
  {
    FlagsAreRead(f.continued, f.bos, f.eos);
  }
}
