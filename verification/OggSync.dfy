/** Finding pages in a byte stream: ogg_sync_pageseek and ogg_sync_pageout on the octets not yet consumed. */
module OggSync {
  import opened Bytes
  import Seqs
  import opened OggPage
  import Checksum

  /** The three outcomes of one seek: not enough data, n octets passed over, or a page of n octets. */
  datatype Seek = More | Skip(n: nat) | Found(n: nat)

  const CAPTURE_FIRST: byte := 79 // 'O'

  /** The next place a page could start, at or after k. */
  function NextCapture(s: seq<byte>, k: nat): (n: nat)
    requires k <= |s|
    ensures k <= n <= |s| && (forall i :: k <= i < n ==> s[i] != CAPTURE_FIRST) && (n < |s| ==> s[n] == CAPTURE_FIRST)
    decreases |s| - k
  {
    if k == |s| || s[k] == CAPTURE_FIRST then k else NextCapture(s, k + 1)
  }

  function HeaderLength(s: seq<byte>): nat
    requires |s| >= 27
  {
    27 + s[26] as int
  }

  function PageLength(s: seq<byte>): nat
    requires |s| >= 27 && |s| >= HeaderLength(s)
  {
    HeaderLength(s) + Sum(s[27..HeaderLength(s)])
  }

  /** One seek over the octets not yet consumed. */
  function SeekPage(s: seq<byte>): (r: Seek)
    ensures match r { case More => true case Skip(n) => 0 < n <= |s| case Found(n) => 27 <= n <= |s| }
  {
    if |s| < 27 then More
    else if s[..4] != CAPTURE then Skip(NextCapture(s, 1))
    else if |s| < HeaderLength(s) || |s| < PageLength(s) then More
    else if Sealed(s[..PageLength(s)]) then Found(PageLength(s))
    else Skip(NextCapture(s, 1))
  }

  /** A run of octets that is one whole page: capture pattern, segment table and checksum all agree. */
  predicate IsPage(p: seq<byte>) {
    && |p| >= 27 && p[..4] == CAPTURE && |p| >= HeaderLength(p) && |p| == PageLength(p)
    && Sealed(p)
  }

  /** The pages of a whole input, found by trying every octet in turn. */
  function Scan(s: seq<byte>): seq<seq<byte>>
    decreases |s|
  {
    match SeekPage(s)
    case More => []
    case Found(n) => [s[..n]] + Scan(s[n..])
    case Skip(_) => Scan(s[1..])
  }

  // ----- What a seek decides, in the octets themselves -----

  /** A seek waits for a whole page, finds one if the number in its checksum field is the remainder of the division of the
      page with a zero field, and otherwise passes over everything up to the next 'O'. */
  lemma SeekDecides(s: seq<byte>)
    ensures |s| < 27 ==> SeekPage(s) == More
    ensures |s| >= 27 ==>
      var h := 27 + s[26] as int;
      var n := if |s| < h then 0 else h + Sum(s[27..h]);
      if s[..4] != [79, 103, 103, 83] then SeekPage(s).Skip?
      else if |s| < h || |s| < n then SeekPage(s) == More
      else if Unsigned(s[22..26]) == Checksum.CrcBits(0, Checksum.Bits(s[..22] + [0, 0, 0, 0] + s[26..n])) as int
           then SeekPage(s) == Found(n) else SeekPage(s).Skip?
    ensures SeekPage(s).Skip? ==>
      var n := SeekPage(s).n;
      0 < n <= |s| && (forall i :: 1 <= i < n ==> s[i] != 79) && (n < |s| ==> s[n] == 79)
  {
    hide Sealed, Sum, Checksum.CrcBits, Checksum.Bits, Unsigned;
    if |s| >= 27 && |s| >= HeaderLength(s) && |s| >= PageLength(s) {
      var p := s[..PageLength(s)];
      SealedIsDivision(p);
      assert p[22..26] == s[22..26] && p[..22] == s[..22] && p[26..] == s[26..PageLength(s)];
    }
  }

  /** A page damaged within 32 consecutive bits that are not those of its sizes, or only in its checksum field, is refused,
      whatever follows it. */
  lemma DamagedIsRefused(p: seq<byte>, q: seq<byte>, start: nat, future: seq<byte>)
    requires IsPage(p) && |q| == |p| && q[26..HeaderLength(p)] == p[26..HeaderLength(p)]
    requires || (q != p && q[..22] == p[..22] && q[26..] == p[26..])
             || (Checksum.Bits(q) != Checksum.Bits(p) && q[22..26] == p[22..26]
                 && forall i :: 0 <= i < 8 * |p| && !(start <= i < start + 32) ==> Checksum.Bits(q)[i] == Checksum.Bits(p)[i])
    ensures !IsPage(q) && SeekPage(q + future).Skip?
  {
    hide Sealed, Sum, Checksum.Bits, HeaderLength, PageLength;
    NotSealed(p, q, start);
    SameSizes(p, q);
    SkipsDamaged(q);
    SeekIsStable(q, future);
  }

  lemma SameSizes(p: seq<byte>, q: seq<byte>)
    requires |p| == |q| >= 27 && |p| >= HeaderLength(p) && q[26..HeaderLength(p)] == p[26..HeaderLength(p)]
    ensures HeaderLength(q) == HeaderLength(p) && PageLength(q) == PageLength(p)
  {
    assert q[26] == q[26..HeaderLength(p)][0] && p[26] == p[26..HeaderLength(p)][0];
    assert q[27..HeaderLength(p)] == q[26..HeaderLength(p)][1..];
    assert p[27..HeaderLength(p)] == p[26..HeaderLength(p)][1..];
  }

  lemma SkipsDamaged(q: seq<byte>)
    requires |q| >= 27 && |q| >= HeaderLength(q) && |q| == PageLength(q) && !Sealed(q)
    ensures SeekPage(q).Skip?
  {
    hide Sealed, Sum;
    assert q[..|q|] == q;
  }

  lemma NotSealed(p: seq<byte>, q: seq<byte>, start: nat)
    requires |p| == |q| >= 26 && Sealed(p)
    requires || (q != p && q[..22] == p[..22] && q[26..] == p[26..])
             || (Checksum.Bits(q) != Checksum.Bits(p) && q[22..26] == p[22..26]
                 && forall i :: 0 <= i < 8 * |p| && !(start <= i < start + 32) ==> Checksum.Bits(q)[i] == Checksum.Bits(p)[i])
    ensures !Sealed(q)
  {
    hide Sealed, Checksum.Bits, Checksum.PageCrc;
    if q[22..26] == p[22..26] && Checksum.Bits(q) != Checksum.Bits(p) {
      Checksum.BurstIsDetected(p, q, start);
      OtherChecksum(p, q);
    } else {
      OtherField(p, q);
    }
  }

  lemma OtherChecksum(p: seq<byte>, q: seq<byte>)
    requires |p| == |q| >= 26 && Sealed(p) && q[22..26] == p[22..26] && Checksum.PageCrc(p) != Checksum.PageCrc(q)
    ensures !Sealed(q)
  {
    hide Checksum.PageCrc, Checksum.FieldOctets;
    if Checksum.FieldOctets(Checksum.PageCrc(p)) == Checksum.FieldOctets(Checksum.PageCrc(q)) {
      Checksum.FieldIdentifiesRegister(Checksum.PageCrc(p), Checksum.PageCrc(q));
    }
  }

  lemma OtherField(p: seq<byte>, q: seq<byte>)
    requires |p| == |q| >= 26 && Sealed(p) && q != p && q[..22] == p[..22] && q[26..] == p[26..]
    ensures !Sealed(q)
  {
    hide Checksum.Crc, Checksum.FieldOctets;
    Seqs.ThreeParts(p, 22, 26);
    Seqs.ThreeParts(q, 22, 26);
    assert Checksum.WithoutField(p) == Checksum.WithoutField(q);
  }

  // ----- More input never changes a decision -----

  lemma PrefixAgrees(s: seq<byte>, f: seq<byte>, i: nat, j: nat)
    requires i <= j <= |s|
    ensures (s + f)[i..j] == s[i..j]
  {
  }

  lemma SeekIsStable(s: seq<byte>, f: seq<byte>)
    ensures SeekPage(s).Found? ==> SeekPage(s + f) == SeekPage(s)
    ensures SeekPage(s).Skip? ==> SeekPage(s + f).Skip?
  {
    hide Sealed, Sum;
    if |s| >= 27 {
      PrefixAgrees(s, f, 0, 4);
      assert (s + f)[26] == s[26];
      if |s| >= HeaderLength(s) {
        PrefixAgrees(s, f, 27, HeaderLength(s));
        if |s| >= PageLength(s) {
          PrefixAgrees(s, f, 0, PageLength(s));
        }
      }
    }
  }

  lemma {:induction false} NoCaptureNoPage(x: seq<byte>, t: seq<byte>)
    requires forall i :: 0 <= i < |x| ==> x[i] != CAPTURE_FIRST
    ensures Scan(x + t) == Scan(t)
    decreases |x|
  {
    if x == [] {
      assert x + t == t;
    } else {
      NoCaptureNoPage(x[1..], t);
      assert (x + t)[1..] == x[1..] + t;
      NoCaptureHere(x + t);
      ShortHasNone(x + t);
      ShortHasNone(t);
    }
  }

  lemma NoCaptureHere(s: seq<byte>)
    requires s != [] && s[0] != CAPTURE_FIRST
    ensures |s| >= 27 ==> SeekPage(s).Skip?
  {
    assert |s| >= 27 ==> s[..4][0] == s[0];
  }

  lemma ShortHasNone(s: seq<byte>)
    ensures |s| < 27 ==> Scan(s) == []
  {
  }

  /** Passing over n octets at once, up to the next 'O' in the data at hand, loses no page however the input goes on. */
  lemma SkipLosesNothing(s: seq<byte>, f: seq<byte>)
    requires SeekPage(s).Skip?
    ensures Scan(s + f) == Scan(s[SeekPage(s).n..] + f)
  {
    hide SeekPage, Scan;
    var n := SkipDistance(s);
    SeekIsStable(s, f);
    ScanSkips(s + f);
    var x := s[1..n];
    SkipParts(s, f, n);
    NoCaptureNoPage(x, s[n..] + f);
  }

  lemma SkipDistance(s: seq<byte>) returns (n: nat)
    requires SeekPage(s).Skip?
    ensures n == SeekPage(s).n && 0 < n <= |s| && forall i :: 1 <= i < n ==> s[i] != CAPTURE_FIRST
  {
    n := SeekPage(s).n;
  }

  lemma ScanSkips(s: seq<byte>)
    requires SeekPage(s).Skip?
    ensures |s| > 0 && Scan(s) == Scan(s[1..])
  {
  }

  lemma SkipParts(s: seq<byte>, f: seq<byte>, n: nat)
    requires 0 < n <= |s|
    ensures (s + f)[1..] == s[1..n] + (s[n..] + f)
  {
  }

  lemma FoundParts(s: seq<byte>, f: seq<byte>, n: nat)
    requires n <= |s|
    ensures (s + f)[..n] == s[..n] && (s + f)[n..] == s[n..] + f
  {
  }

  // ----- Runs -----

  /** Input arrives, or the reader seeks once. */
  datatype Step = Feed(chunk: seq<byte>) | SeekOnce

  function Fed(steps: seq<Step>): seq<byte> {
    if steps == [] then []
    else
      var last := steps[|steps| - 1];
      Fed(steps[..|steps| - 1]) + (if last.Feed? then last.chunk else [])
  }

  /** The octets held, the pages returned, and what every seek reported (as ogg_sync_pageseek does: n, 0 or -n). */
  datatype Progress = Progress(held: seq<byte>, pages: seq<seq<byte>>, reports: seq<int>)

  function Advance(p: Progress, step: Step): Progress {
    match step
    case Feed(chunk) => p.(held := p.held + chunk)
    case SeekOnce =>
      match SeekPage(p.held)
      case More => p.(reports := p.reports + [0])
      case Skip(n) => p.(held := p.held[n..], reports := p.reports + [-(n as int)])
      case Found(n) => Progress(p.held[n..], p.pages + [p.held[..n]], p.reports + [n])
  }

  function Run(steps: seq<Step>): Progress {
    if steps == [] then Progress([], [], []) else Advance(Run(steps[..|steps| - 1]), steps[|steps| - 1])
  }

  function Total(reports: seq<int>): int {
    if reports == [] then 0
    else
      var last := reports[|reports| - 1];
      Total(reports[..|reports| - 1]) + (if last < 0 then -last else last)
  }

  /** However the input is cut up and whenever the reader seeks, the pages returned so far, followed by the pages still to
      be found, are the pages of the whole input. */
  lemma {:induction false} RunFollowsScan(steps: seq<Step>, future: seq<byte>)
    ensures Scan(Fed(steps) + future) == Run(steps).pages + Scan(Run(steps).held + future)
    decreases |steps|
  {
    hide SeekPage, Scan;
    if steps == [] {
      assert [] + future == future;
    } else {
      var before, last := steps[..|steps| - 1], steps[|steps| - 1];
      var p := Run(before);
      match last
      case Feed(chunk) =>
        RunFollowsScan(before, chunk + future);
        Seqs.ConcatAssociates(Fed(before), chunk, future);
        Seqs.ConcatAssociates(p.held, chunk, future);
      case SeekOnce =>
        RunFollowsScan(before, future);
        assert Fed(steps) == Fed(before);
        SeekFollowsScan(p, future);
    }
  }

  lemma SeekFollowsScan(p: Progress, future: seq<byte>)
    ensures var q := Advance(p, SeekOnce);
            p.pages + Scan(p.held + future) == q.pages + Scan(q.held + future)
  {
    match SeekPage(p.held)
    case More =>
    case Skip(n) => SkipLosesNothing(p.held, future);
    case Found(n) =>
      hide Scan;
      SeekIsStable(p.held, future);
      FoundParts(p.held, future, n);
      ScanFinds(p.held + future);
      Seqs.ConcatAssociates(p.pages, [p.held[..n]], Scan(p.held[n..] + future));
  }

  lemma ScanFinds(s: seq<byte>)
    requires SeekPage(s).Found?
    ensures var n := SeekPage(s).n; n <= |s| && Scan(s) == [s[..n]] + Scan(s[n..])
  {
  }

  /** Once the reader has sought until no page is ready, what it got depends on the concatenated input alone. */
  lemma ChunkingIsIrrelevant(steps: seq<Step>)
    requires SeekPage(Run(steps).held).More?
    ensures Run(steps).pages == Scan(Fed(steps))
  {
    RunFollowsScan(steps, []);
    assert Fed(steps) + [] == Fed(steps) && Run(steps).held + [] == Run(steps).held;
  }

  /** Every octet fed is held, passed over or returned: the reports account for all that is gone. */
  lemma {:induction false} NothingUnaccounted(steps: seq<Step>)
    ensures |Fed(steps)| == Total(Run(steps).reports) + |Run(steps).held|
    decreases |steps|
  {
    hide SeekPage;
    if steps != [] {
      var before, last := steps[..|steps| - 1], steps[|steps| - 1];
      NothingUnaccounted(before);
      var r, q := Run(before).reports, Run(steps).reports;
      if last.SeekOnce? {
        assert q[..|q| - 1] == r;
        SeekBounds(Run(before).held);
      }
    }
  }

  lemma SeekBounds(s: seq<byte>)
    ensures match SeekPage(s) { case More => true case Skip(n) => 0 < n <= |s| case Found(n) => 27 <= n <= |s| }
  {
  }

  // ----- Where the pages are -----

  datatype Place = Place(at: nat, len: nat)

  /** Positions and lengths of the pages of an input, scanning from position i. */
  function Places(s: seq<byte>, i: nat): seq<Place>
    requires i <= |s|
    decreases |s| - i
  {
    match SeekPage(s[i..])
    case More => []
    case Found(n) => [Place(i, n)] + Places(s, i + n)
    case Skip(_) => Places(s, i + 1)
  }

  lemma FoundIsPage(s: seq<byte>)
    requires SeekPage(s).Found?
    ensures IsPage(s[..SeekPage(s).n])
  {
    hide Sealed, Sum;
    var n := SeekPage(s).n;
    var p := s[..n];
    assert p[..4] == s[..4];
    assert p[26] == s[26];
    assert p[27..HeaderLength(p)] == s[27..HeaderLength(s)];
  }

  predicate PageAt(s: seq<byte>, place: Place) {
    place.at + place.len <= |s| && IsPage(s[place.at..place.at + place.len])
  }

  ghost predicate AllPages(s: seq<byte>, i: nat, ps: seq<Place>) {
    forall k :: 0 <= k < |ps| ==> i <= ps[k].at && PageAt(s, ps[k])
  }

  ghost predicate Apart(ps: seq<Place>) {
    forall k, l :: 0 <= k < l < |ps| ==> ps[k].at + ps[k].len <= ps[l].at
  }

  lemma FirstPlace(s: seq<byte>, i: nat, p: Place, ps: seq<Place>)
    requires p.at == i && PageAt(s, p) && AllPages(s, i + p.len, ps) && Apart(ps)
    ensures AllPages(s, i, [p] + ps) && Apart([p] + ps)
  {
    hide PageAt;
  }

  /** The pages lie in the input one after another without overlap, and each is a whole valid page. */
  lemma {:induction false} PlacesAreDisjointPages(s: seq<byte>, i: nat)
    requires i <= |s|
    ensures AllPages(s, i, Places(s, i)) && Apart(Places(s, i))
    decreases |s| - i
  {
    hide IsPage, SeekPage, Apart;
    var t := s[i..];
    SeekBounds(t);
    match SeekPage(t)
    case More => assert Apart([]) by { NoneApart(); }
    case Skip(_) => PlacesAreDisjointPages(s, i + 1);
    case Found(n) =>
      PlacesAreDisjointPages(s, i + n);
      FoundIsPage(t);
      assert t[..n] == s[i..i + n];
      FirstPlace(s, i, Place(i, n), Places(s, i + n));
  }

  lemma NoneApart()
    ensures Apart([])
  {
  }

  /** Scan returns exactly the octets at those places. */
  lemma {:induction false} ScanIsPlaces(s: seq<byte>, i: nat)
    requires i <= |s|
    ensures var ps := Places(s, i);
            && |Scan(s[i..])| == |ps|
            && forall k :: 0 <= k < |ps| ==> ps[k].at + ps[k].len <= |s| && Scan(s[i..])[k] == s[ps[k].at..ps[k].at + ps[k].len]
    decreases |s| - i
  {
    hide SeekPage;
    var t := s[i..];
    SeekBounds(t);
    match SeekPage(t)
    case More =>
    case Skip(_) =>
      ScanIsPlaces(s, i + 1);
      assert t[1..] == s[i + 1..];
    case Found(n) =>
      ScanIsPlaces(s, i + n);
      assert t[n..] == s[i + n..];
      assert t[..n] == s[i..i + n];
  }

  // ----- A stream of sound pages -----

  function Join(ps: seq<seq<byte>>): seq<byte> {
    if ps == [] then [] else ps[0] + Join(ps[1..])
  }

  lemma PageIsFound(p: seq<byte>, f: seq<byte>)
    requires IsPage(p)
    ensures SeekPage(p + f) == Found(|p|)
  {
    hide Sealed, Sum;
    assert p[..|p|] == p;
    SeekIsStable(p, f);
  }

  /** Sound pages put end to end are found again, all of them and nothing else. */
  lemma {:induction false} SoundPagesAreFound(ps: seq<seq<byte>>)
    requires forall k :: 0 <= k < |ps| ==> IsPage(ps[k])
    ensures Scan(Join(ps)) == ps
    decreases |ps|
  {
    hide SeekPage, IsPage, Scan;
    if ps == [] {
      ShortHasNone([]);
    } else {
      PageIsFound(ps[0], Join(ps[1..]));
      ScanFinds(Join(ps));
      SoundPagesAreFound(ps[1..]);
      FoundParts(ps[0], Join(ps[1..]), |ps[0]|);
      assert ps[0][|ps[0]|..] + Join(ps[1..]) == Join(ps[1..]);
      assert ps[0][..|ps[0]|] == ps[0];
    }
  }

  // ----- ogg_sync_pageout -----

  datatype Outcome = NeedMore | LostSync | PageReady(page: seq<byte>)

  /** Seek until a page or the end of the data; a loss of sync is reported once, until the next page. */
  function PageOut(held: seq<byte>, unsynced: bool): (r: (seq<byte>, bool, Outcome))
    ensures |r.0| <= |held| && (r.2.PageReady? ==> |r.0| < |held|)
    decreases |held|
  {
    match SeekPage(held)
    case More => (held, unsynced, NeedMore)
    case Found(n) => (held[n..], false, PageReady(held[..n]))
    case Skip(n) => if !unsynced then (held[n..], true, LostSync) else PageOut(held[n..], true)
  }

  /** One call of pageout is a number of seeks: it loses no page, and it asks for more only when no page is ready. */
  lemma {:induction false} PageOutFollowsScan(held: seq<byte>, unsynced: bool, future: seq<byte>)
    ensures var (rest, flag, outcome) := PageOut(held, unsynced);
            && Scan(held + future) == (if outcome.PageReady? then [outcome.page] else []) + Scan(rest + future)
            && (outcome.NeedMore? ==> SeekPage(rest).More?)
            && (outcome.LostSync? ==> !unsynced && flag)
            && (outcome.PageReady? ==> !flag)
            && (unsynced && !outcome.PageReady? ==> flag)
    decreases |held|
  {
    hide Scan, SeekPage;
    SeekBounds(held);
    var p := Progress(held, [], []);
    SeekFollowsScan(p, future);
    match SeekPage(held)
    case More =>
    case Found(n) =>
      assert [] + Scan(held + future) == Scan(held + future);
      assert [] + [held[..n]] == [held[..n]];
    case Skip(n) =>
      if unsynced {
        PageOutFollowsScan(held[n..], true, future);
      }
  }

  /** The outcomes of a run of pageout calls, some input, perhaps none, arriving before each. */
  function Calls(held: seq<byte>, unsynced: bool, inputs: seq<seq<byte>>): (cs: seq<Outcome>)
    ensures |cs| == |inputs|
    decreases |inputs|
  {
    if inputs == [] then []
    else
      var (rest, flag, outcome) := PageOut(held + inputs[0], unsynced);
      [outcome] + Calls(rest, flag, inputs[1..])
  }

  lemma {:induction false} LossNotRepeated(held: seq<byte>, inputs: seq<seq<byte>>, j: nat)
    requires j < |inputs| && Calls(held, true, inputs)[j].LostSync?
    ensures exists k :: 0 <= k < j && Calls(held, true, inputs)[k].PageReady?
    decreases |inputs|
  {
    hide PageOut;
    var (rest, flag, outcome) := PageOut(held + inputs[0], true);
    PageOutFollowsScan(held + inputs[0], true, []);
    var cs, ds := Calls(held, true, inputs), Calls(rest, flag, inputs[1..]);
    assert cs == [outcome] + ds;
    if outcome.PageReady? {
      assert cs[0].PageReady?;
    } else {
      LossNotRepeated(rest, inputs[1..], j - 1);
      var k :| 0 <= k < j - 1 && ds[k].PageReady?;
      assert cs[k + 1] == ds[k];
    }
  }

  /** Between two reports of lost sync there is always a page, whatever arrives in between. */
  lemma {:induction false} LossReportedOnce(held: seq<byte>, unsynced: bool, inputs: seq<seq<byte>>, i: nat, j: nat)
    requires i < j < |inputs| && Calls(held, unsynced, inputs)[i].LostSync? && Calls(held, unsynced, inputs)[j].LostSync?
    ensures exists k :: i < k < j && Calls(held, unsynced, inputs)[k].PageReady?
    decreases |inputs|
  {
    hide PageOut;
    var (rest, flag, outcome) := PageOut(held + inputs[0], unsynced);
    PageOutFollowsScan(held + inputs[0], unsynced, []);
    var cs, ds := Calls(held, unsynced, inputs), Calls(rest, flag, inputs[1..]);
    assert cs == [outcome] + ds;
    if i > 0 {
      LossReportedOnce(rest, flag, inputs[1..], i - 1, j - 1);
      var k :| i - 1 < k < j - 1 && ds[k].PageReady?;
      assert cs[k + 1] == ds[k];
    } else {
      LossNotRepeated(rest, inputs[1..], j - 1);
      var k :| 0 <= k < j - 1 && ds[k].PageReady?;
      assert cs[k + 1] == ds[k];
    }
  }
}
