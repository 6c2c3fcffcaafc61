/** Whole runs of printed sentences: a fix, the satellites in view, and a list that overflows. */
module NmeaRuns {
  import opened Common
  import opened NmeaTokenizer
  import opened NmeaSentence
  import opened NmeaHistory
  import opened NmeaPrinting
  import NmeaFramer

  // ---------- A fix ----------

  /** The parts of a position and of one number. */
  function Placed(lat: string, ns: char, lon: string, ew: char): Fix {
    if |lat| >= 6 && |lon| >= 6 then map[LatLong := Position(lat, ns == 'S', lon, ew == 'W')] else map[]
  }

  function Given(field: Field, text: string): Fix {
    if text != "" then map[field := Number(text)] else map[]
  }

  /** MAIN RESULT. When a fix has just been reported, or none ever was, a printed GGA and a printed RMC with
      status A bring one location: the position of the RMC, or else of the GGA, the altitude of the one and
      course and speed of the other, with an accuracy that is made up. */
  lemma GgaThenRmc(beyond: int -> bool, h: seq<string>, gga: seq<string>, rmc: seq<string>,
                   talker: string, lat: string, ns: char, lon: string, ew: char, altitude: string,
                   lat': string, ns': char, lon': string, ew': char, speed: string, course: string,
                   g: seq<string>, r: seq<string>)
    requires FreshUpdates(h) == [] && |talker| == 2 && |g| >= 5 && |r| >= 2
    requires gga == GgaFields(talker, g[0], lat, ns, lon, ew, g[1], g[2], g[3], altitude, g[4], g[5..]) && Printable(gga)
    requires rmc == RmcFields(talker, r[0], 'A', lat', ns', lon', ew', speed, course, r[1], r[2..]) && Printable(rmc)
    ensures var locations := Locations(LastReports(beyond, h + [Printed(gga, '0', '0')] + [Printed(rmc, '0', '0')]));
            && |locations| == 1
            && LocationFor(locations[0], Placed(lat, ns, lon, ew) + Given(Altitude, altitude)
                                         + (Placed(lat', ns', lon', ew') + Given(Bearing, course) + Given(Speed, speed)))
  {
    hide Sentence, Updates, Printed, GgaFields, RmcFields, Locations, LastReports, KindOf, IsFixRmc;
    var l, l' := Printed(gga, '0', '0'), Printed(rmc, '0', '0');
    var h' := h + [l];
    GgaReadBack(talker, g[0], lat, ns, lon, ew, g[1], g[2], g[3], altitude, g[4], g[5..], ModeOf(h), '0', '0');
    RmcReadBack(talker, r[0], 'A', lat', ns', lon', ew', speed, course, r[1], r[2..], ModeOf(h'), '0', '0');
    Append(h, l);
    FreshStep(h');
    CollectedOfTwo(Updates(gga, ModeOf(h)), Updates(rmc, ModeOf(h')));
    LocationReports(beyond, h', l');
  }

  lemma CollectedOfTwo(a: Fix, b: Fix)
    ensures Collected([] + [a] + [b]) == a + b
  {
    assert ([] + [a] + [b])[..1] == [a] && [a][..0] == [];
    assert Collected([a]) == map[] + a == a;
  }

  // ---------- The satellites in view ----------

  /** Four satellites a message. */
  function Count(n: nat): nat {
    (n + 3) / 4
  }

  function Upto(vs: seq<InView>, k: nat): seq<InView> {
    vs[..Min(4 * k, |vs|)]
  }

  /** The satellites of message k, counting from 0. */
  function Part(vs: seq<InView>, k: nat): seq<InView>
    requires k < Count(|vs|)
  {
    vs[4 * k..Min(4 * k + 4, |vs|)]
  }

  function MessageFields(talker: string, vs: seq<InView>, k: nat): (f: seq<string>)
    requires |talker| == 2 && k < Count(|vs|)
    ensures f != []
  {
    GsvFields(talker, Count(|vs|), k + 1, |vs|, Part(vs, k))
  }

  /** The first n messages in which a receiver prints the satellites in view. */
  function Messages(talker: string, vs: seq<InView>, n: nat): seq<string>
    requires |talker| == 2 && n <= Count(|vs|)
  {
    if n == 0 then [] else Messages(talker, vs, n - 1) + [Printed(MessageFields(talker, vs, n - 1), '0', '0')]
  }

  /** Numbers of 32 bits and texts without commas. */
  ghost predicate CanBePrinted(talker: string, vs: seq<InView>) {
    && |talker| == 2 && ',' !in talker && Fits32(vs)
    && forall k :: 0 <= k < |vs| ==> ',' !in vs[k].snr
  }

  lemma {:induction false} DecimalShape(n: nat)
    ensures ',' !in Decimal(n) && Decimal(n) != ""
    ensures (n < 10 ==> |Decimal(n)| == 1) && (n < 100 ==> |Decimal(n)| <= 2) && (n < 1000 ==> |Decimal(n)| <= 3)
  {
    if n >= 10 {
      DecimalShape(n / 10);
    }
  }

  lemma {:induction false} InViewIsCommaFree(vs: seq<InView>)
    requires forall k :: 0 <= k < |vs| ==> ',' !in vs[k].snr
    ensures CommaFree(AllInView(vs)) && |AllInView(vs)| == 4 * |vs|
  {
    if vs != [] {
      DecimalShape(vs[0].prn);
      DecimalShape(vs[0].elevation);
      DecimalShape(vs[0].azimuth);
      InViewIsCommaFree(vs[1..]);
      var a := AllInView(vs);
      assert forall k :: 4 <= k < |a| ==> a[k] == AllInView(vs[1..])[k - 4];
    }
  }

  /** A message is read up to an empty last field, which makes no difference. */
  lemma MessageIsRead(talker: string, vs: seq<InView>, k: nat)
    requires CanBePrinted(talker, vs) && k < Count(|vs|)
    ensures var f := MessageFields(talker, vs, k);
            && Sentence(Printed(f, '0', '0')) == Some(AsRead(f)) && Alike(AsRead(f), f)
  {
    hide Sentence, MessageFields, AsRead, Alike, Printed;
    var f := MessageFields(talker, vs, k);
    MessageShape(talker, vs, k);
    PrintedIsCut(f, '0', '0');
    ReadIsAlike(f);
  }

  lemma MessageShape(talker: string, vs: seq<InView>, k: nat)
    requires CanBePrinted(talker, vs) && k < Count(|vs|)
    ensures var f := MessageFields(talker, vs, k); CommaFree(f) && 2 <= |f| <= 24 && |f[0]| >= 5
  {
    hide Decimal, AllInView;
    var id := talker + ['G', 'S', 'V'];
    assert ',' !in id;
    DecimalShape(Count(|vs|));
    DecimalShape(k + 1);
    DecimalShape(|vs|);
    InViewIsCommaFree(Part(vs, k));
    assert CommaFree([id, Decimal(Count(|vs|)), Decimal(k + 1), Decimal(|vs|)]);
  }

  lemma ReadIsAlike(f: seq<string>)
    requires 2 <= |f| <= 24 && |f[0]| >= 5
    ensures Alike(AsRead(f), f)
  {
  }

  /** The same first field, and the same text at every position. */
  ghost predicate Alike(f: seq<string>, g: seq<string>) {
    && f != [] && g != [] && f[0] == g[0] && |f[0]| >= 5 && forall k: nat :: TextAt(f, k) == TextAt(g, k)
  }

  lemma {:induction false} AlikeAccepted(f: seq<string>, g: seq<string>, r: Reader, n: int)
    requires Alike(f, g) && WellFormed(r)
    ensures KindOf(f) == KindOf(g) && Talker(f) == Talker(g)
    ensures GsvNum(f) == GsvNum(g) && GsvSeq(f) == GsvSeq(g) && GsvCount(f) == GsvCount(g)
    ensures Accepted(f, Talker(f), r, n) == Accepted(g, Talker(g), r, n)
    decreases n
  {
    hide IntOf, SvFor, TextAt, GetSvid, KindOfId, TalkerOfId;
    if n > 0 {
      AlikeAccepted(f, g, r, n - 1);
    }
  }

  lemma {:induction false} EntriesAppend(r: Reader, talker: string, a: seq<InView>, b: seq<InView>)
    requires WellFormed(r)
    ensures InViewEntries(r, talker, a + b) == InViewEntries(r, talker, a) + InViewEntries(r, talker, b)
    decreases b
  {
    hide InViewEntry;
    if b == [] {
      assert a + b == a;
    } else {
      var n := |b| - 1;
      assert (a + b)[..|a + b| - 1] == a + b[..n] && (a + b)[|a + b| - 1] == b[n];
      EntriesAppend(r, talker, a, b[..n]);
    }
  }

  lemma {:induction false} SameEntries(r: Reader, r': Reader, talker: string, vs: seq<InView>)
    requires WellFormed(r) && WellFormed(r') && r.used == r'.used && r.beyond == r'.beyond
    ensures InViewEntries(r, talker, vs) == InViewEntries(r', talker, vs)
  {
    if vs != [] {
      SameEntries(r, r', talker, vs[..|vs| - 1]);
    }
  }

  /** Where a run stands before message k of num. */
  function GroupAt(k: nat, num: nat, count: nat): Group {
    if k == 0 || k == num then Between else Within(k + 1, num, count)
  }

  /** The list holds the satellites of the first k messages; those of the whole group count. */
  ghost predicate Holds(r: Reader, r0: Reader, talker: string, vs: seq<InView>, k: nat)
    requires WellFormed(r) && WellFormed(r0)
  {
    var seen := InViewEntries(r0, talker, Upto(vs, k));
    && r.used == r0.used && r.beyond == r0.beyond
    && Lists(r, GroupAt(k, Count(|vs|), |vs|), seen, if k == Count(|vs|) then seen else [])
  }

  /** What message k says to a reader. */
  lemma MessageSays(r: Reader, talker: string, vs: seq<InView>, k: nat)
    requires WellFormed(r) && CanBePrinted(talker, vs) && k < Count(|vs|) && |vs| < 0x8000_0000
    ensures var f := MessageFields(talker, vs, k);
            var g := AsRead(f);
            && Sentence(Printed(f, '0', '0')) == Some(g) && Processed(g) && KindOf(g) == Gsv
            && GsvNum(g) == Count(|vs|) && GsvSeq(g) == k + 1 && GsvCount(g) == |vs|
            && GsvEntries(g) == |Part(vs, k)|
            && Accepted(g, Talker(g), r, |Part(vs, k)|) == InViewEntries(r, talker, Part(vs, k))
  {
    hide GsvFields, Sentence, Printed, Printable, AsRead, Accepted, InViewEntries;
    var f, part := MessageFields(talker, vs, k), Part(vs, k);
    MessageIsRead(talker, vs, k);
    GsvReadBack(talker, Count(|vs|), k + 1, |vs|, part, r, '0', '0');
    AlikeAccepted(AsRead(f), f, r, |part|);
  }

  lemma MessageStep(r: Reader, r0: Reader, talker: string, vs: seq<InView>, k: nat)
    requires WellFormed(r) && WellFormed(r0) && CanBePrinted(talker, vs)
    requires k < Count(|vs|) && |vs| < 0x8000_0000 && Holds(r, r0, talker, vs, k)
    ensures Holds(AfterLine(r, Printed(MessageFields(talker, vs, k), '0', '0')), r0, talker, vs, k + 1)
  {
    hide MessageFields, Sentence, Printed, Accepted, InViewEntries, AfterLine, Lists, AsRead;
    var line, g := Printed(MessageFields(talker, vs, k), '0', '0'), AsRead(MessageFields(talker, vs, k));
    var num, part := Count(|vs|), Part(vs, k);
    var seen := InViewEntries(r0, talker, Upto(vs, k));
    MessageSays(r, talker, vs, k);
    SameEntries(r, r0, talker, part);
    EntriesAppend(r0, talker, Upto(vs, k), part);
    assert Upto(vs, k) + part == Upto(vs, k + 1);
    assert GroupNext(GroupAt(k, num, |vs|), g) == GroupAt(k + 1, num, |vs|);
    LineLists(r, line, GroupAt(k, num, |vs|), seen, [], g);
    GsvKeepsTable(r, line, g);
  }

  lemma GsvKeepsTable(r: Reader, line: string, g: seq<string>)
    requires WellFormed(r) && Sentence(line) == Some(g) && KindOf(g) == Gsv
    ensures AfterLine(r, line).used == r.used && AfterLine(r, line).beyond == r.beyond
  {
  }

  lemma {:induction false} MessagesHold(beyond: int -> bool, h: seq<string>, talker: string, vs: seq<InView>, n: nat)
    requires After(beyond, h).numSvs == 0 && CanBePrinted(talker, vs) && |vs| < 0x8000_0000 && 0 < |vs|
    requires n <= Count(|vs|)
    ensures Holds(After(beyond, h + Messages(talker, vs, n)), After(beyond, h), talker, vs, n)
    decreases n
  {
    hide After, AfterLine, MessageFields, Messages, Lists, Holds, Fits32, Printed;
    if n == 0 {
      NoMessages(h, talker, vs);
      NothingHeld(After(beyond, h), talker, vs);
    } else {
      var line, front := Printed(MessageFields(talker, vs, n - 1), '0', '0'), Messages(talker, vs, n - 1);
      MessagesHold(beyond, h, talker, vs, n - 1);
      OneMoreMessage(h, talker, vs, n);
      OneMoreLine(beyond, h + front, line);
      MessageStep(After(beyond, h + front), After(beyond, h), talker, vs, n - 1);
    }
  }

  lemma NoMessages(h: seq<string>, talker: string, vs: seq<InView>)
    requires |talker| == 2
    ensures h + Messages(talker, vs, 0) == h
  {
  }

  lemma OneMoreMessage(h: seq<string>, talker: string, vs: seq<InView>, n: nat)
    requires |talker| == 2 && 0 < n <= Count(|vs|)
    ensures h + Messages(talker, vs, n)
            == h + Messages(talker, vs, n - 1) + [Printed(MessageFields(talker, vs, n - 1), '0', '0')]
  {
  }

  lemma NothingHeld(r: Reader, talker: string, vs: seq<InView>)
    requires WellFormed(r) && r.numSvs == 0 && 0 < |vs|
    ensures Holds(r, r, talker, vs, 0)
  {
  }

  /** MAIN RESULT. When no satellites are counted, up to 64 satellites printed four to a message with one
      talker, and then an RMC, bring a report of exactly the listed ones among them, in order, or no report
      when none is listed. */
  lemma SatellitesInView(beyond: int -> bool, h: seq<string>, talker: string, vs: seq<InView>, rmc: string)
    requires After(beyond, h).numSvs == 0 && CanBePrinted(talker, vs) && 1 <= |vs| <= 64
    requires Sentence(rmc).Some? && KindOf(Sentence(rmc).value) == Rmc
    ensures var e := InViewEntries(After(beyond, h), talker, vs);
            SatelliteReports(LastReports(beyond, h + Messages(talker, vs, (|vs| + 3) / 4) + [rmc]))
            == if e == [] then [] else [Satellites(|e|, e)]
  {
    hide After, Lists, InViewEntries, Messages, LineReports, Sentence, KindOf, SatelliteReports;
    var num, e := Count(|vs|), InViewEntries(After(beyond, h), talker, vs);
    var h' := h + Messages(talker, vs, num);
    MessagesHold(beyond, h, talker, vs, num);
    assert Upto(vs, num) == vs;
    assert Lists(After(beyond, h'), Between, e, e);
    assert Cut(e) == e;
    Append(h', rmc);
    RmcReportsCounted(After(beyond, h'), rmc, Between, e, e);
  }

  // ---------- A run whose satellites do not fit the list ----------

  /** Fields of a sentence without commas and with at most m characters each. */
  ghost predicate Short(fs: seq<string>, m: nat) {
    forall k :: 0 <= k < |fs| ==> ',' !in fs[k] && |fs[k]| <= m
  }

  lemma {:induction false} JoinedIsShort(fs: seq<string>, m: nat)
    requires Short(fs, m)
    ensures |Joined(fs)| <= (m + 1) * |fs|
  {
    if fs != [] {
      JoinedIsShort(fs[1..], m);
      assert (m + 1) * |fs| == (m + 1) + (m + 1) * (|fs| - 1);
    }
  }

  /** Satellites 1 to 4. */
  function FourInView(): seq<InView> {
    [InView(1, 45, 90, "30"), InView(2, 45, 90, "30"), InView(3, 45, 90, "30"), InView(4, 45, 90, "30")]
  }

  /** Message 2 of a group of 2 with 20 satellites in view, carrying satellites 1 to 4. */
  function LastOfTwo(): seq<string> {
    GsvFields("GP", 2, 2, 20, FourInView())
  }

  function LastOfTwoLine(): string {
    Printed(LastOfTwo(), '0', '0')
  }

  lemma InViewIsShort(v: InView)
    requires v.prn < 1000 && v.elevation < 1000 && v.azimuth < 1000 && ',' !in v.snr && |v.snr| <= 5
    ensures Short(InViewFields(v), 5)
  {
    DecimalShape(v.prn);
    DecimalShape(v.elevation);
    DecimalShape(v.azimuth);
  }

  lemma FourAreShort()
    ensures var a := AllInView(FourInView()); |a| == 16 && Short(a, 5) && a[15] == "30"
  {
    hide InViewFields, Short, Decimal;
    var vs := FourInView();
    InViewIsShort(vs[0]);
    InViewIsShort(vs[1]);
    InViewIsShort(vs[2]);
    InViewIsShort(vs[3]);
    assert vs[1..] == [vs[1], vs[2], vs[3]] && vs[1..][1..] == [vs[2], vs[3]];
    assert vs[1..][1..][1..] == [vs[3]] && vs[1..][1..][1..][1..] == [];
    var d := InViewFields(vs[3]);
    assert AllInView([vs[3]]) == d + [] == d;
    assert AllInView(vs) == InViewFields(vs[0]) + (InViewFields(vs[1]) + (InViewFields(vs[2]) + d));
    ShortParts(InViewFields(vs[2]), d, 5);
    ShortParts(InViewFields(vs[1]), InViewFields(vs[2]) + d, 5);
    ShortParts(InViewFields(vs[0]), InViewFields(vs[1]) + (InViewFields(vs[2]) + d), 5);
    LastInView(vs[0]);
    LastInView(vs[1]);
    LastInView(vs[2]);
    LastInView(vs[3]);
  }

  lemma LastInView(v: InView)
    ensures |InViewFields(v)| == 4 && InViewFields(v)[3] == v.snr
  {
  }

  lemma ShortParts(a: seq<string>, b: seq<string>, m: nat)
    requires Short(a, m) && Short(b, m)
    ensures Short(a + b, m)
  {
  }

  /** The line survives the framer and is read. */
  lemma LastOfTwoIsRead()
    ensures |LastOfTwoLine()| <= NmeaFramer.NMEA_MAX_SIZE && Sentence(LastOfTwoLine()) == Some(LastOfTwo())
  {
    hide Sentence, AllInView, FourInView, Decimal, Joined;
    var head := ["GPGSV", Decimal(2), Decimal(2), Decimal(20)];
    assert ['G', 'S', 'V'] == "GSV" && "GP" + "GSV" == "GPGSV";
    DecimalShape(2);
    DecimalShape(20);
    FourAreShort();
    ShortParts(head, AllInView(FourInView()), 5);
    var f := LastOfTwo();
    assert f == head + AllInView(FourInView()) && f[19] == "30";
    JoinedIsShort(f, 5);
    PrintedIsRead(f, '0', '0');
  }

  /** All four satellites are listed. */
  lemma FourAreAccepted(r: Reader)
    requires WellFormed(r)
    ensures var f := LastOfTwo();
            && Processed(f) && KindOf(f) == Gsv && GsvNum(f) == 2 && GsvSeq(f) == 2 && GsvCount(f) == 20
            && |Accepted(f, Talker(f), r, 4)| == 4
  {
    var vs, f := FourInView(), LastOfTwo();
    GsvReadBack("GP", 2, 2, 20, vs, r, '0', '0');
    FourEntries(r);
  }

  lemma FourEntries(r: Reader)
    requires WellFormed(r)
    ensures |InViewEntries(r, "GP", FourInView())| == 4
  {
    var vs := FourInView();
    assert vs[..3] == [vs[0], vs[1], vs[2]] && vs[..3][..2] == [vs[0], vs[1]];
    assert vs[..3][..2][..1] == [vs[0]] && vs[..3][..2][..1][..0] == [];
    assert forall k :: 0 <= k < 4 ==> |ToSeq(InViewEntry(r, "GP", vs[k]))| == 1;
    assert |InViewEntries(r, "GP", vs[..3][..2][..1])| == 1;
    assert |InViewEntries(r, "GP", vs[..3][..2])| == 2;
    assert |InViewEntries(r, "GP", vs[..3])| == 3;
  }

  /** The list after that message: as many more as fit are counted, and all that is counted is committed. */
  lemma LastOfTwoCounts(r: Reader)
    requires WellFormed(r) && r.svCount + Fitting(r, 4) <= 20
    ensures var r' := AfterLine(r, LastOfTwoLine());
            r'.svCount == r.svCount + Fitting(r, 4) && r'.numSvs == r.numSvs + r'.svCount
  {
    hide Sentence, LastOfTwo, LastOfTwoLine;
    var f := LastOfTwo();
    FourAreAccepted(r);
    var r1 := WithUpdates(r, Updates(f, r.fixMode)).(fixMode := ModeAfter(f, r.fixMode));
    LastOfTwoIsRead();
    FourAreAccepted(r1);
  }

  lemma RepeatedLine(beyond: int -> bool, h: seq<string>, svCount: nat, numSvs: nat)
    requires After(beyond, h).svCount == svCount && After(beyond, h).numSvs == numSvs && svCount <= 16
    requires svCount + numSvs + 4 <= GNSS_MAX_SVS
    ensures var r := After(beyond, h + [LastOfTwoLine()]);
            r.svCount == svCount + 4 && r.numSvs == numSvs + svCount + 4
  {
    hide After, AfterLine, LastOfTwoLine;
    OneMoreLine(beyond, h, LastOfTwoLine());
    LastOfTwoCounts(After(beyond, h));
  }

  /** Sent six times, that message alone makes the next RMC report 80 satellites and a list of 64. */
  lemma ListCanOverflow(beyond: int -> bool, rmc: string)
    requires Sentence(rmc).Some? && KindOf(Sentence(rmc).value) == Rmc
    ensures var l := LastOfTwoLine();
            var h := [l, l, l, l, l];
            && |l| <= NmeaFramer.NMEA_MAX_SIZE
            && After(beyond, h).numSvs == 60
            && OvercommitsAt(beyond, h + [l], 5)
            && SatelliteReports(LastReports(beyond, h + [l] + [rmc])) == [Satellites(80, After(beyond, h).svs)]
            && |After(beyond, h).svs| == 64
  {
    hide After, Sentence, LastOfTwoLine, LastOfTwo, LastReports, SatelliteReports;
    var l, f := LastOfTwoLine(), LastOfTwo();
    Fresh(beyond);
    RepeatedLine(beyond, [], 0, 0);
    assert [] + [l] == [l] && [l] + [l] == [l, l] && [l, l] + [l] == [l, l, l];
    assert [l, l, l] + [l] == [l, l, l, l] && [l, l, l, l] + [l] == [l, l, l, l, l];
    RepeatedLine(beyond, [l], 4, 4);
    RepeatedLine(beyond, [l, l], 8, 12);
    RepeatedLine(beyond, [l, l, l], 12, 24);
    RepeatedLine(beyond, [l, l, l, l], 16, 40);
    var h := [l, l, l, l, l];
    LastOfTwoIsRead();
    FourAreAccepted(After(beyond, h));
    Append(h, l);
    OvercommitIsReported(beyond, h, l, f, rmc);
  }

  lemma Fresh(beyond: int -> bool)
    ensures After(beyond, []).svCount == 0 && After(beyond, []).numSvs == 0
  {
  }
}
