/** Sentences as a receiver prints them (NMEA 0183, section 5.3), read back by the reader. */
module NmeaPrinting {
  import opened Common
  import opened NmeaTokenizer
  import opened NmeaSentence

  /** "$", the fields between commas, "*" and two checksum characters, carriage return, newline. */
  function Printed(fs: seq<string>, c1: char, c2: char): string {
    ['$'] + Joined(fs) + ['*', c1, c2, '\r', '\n']
  }

  /** Fields that can be printed as one sentence; the last one is not empty. */
  ghost predicate Printable(fs: seq<string>) {
    1 <= |fs| <= 24 && CommaFree(fs) && fs[|fs| - 1] != "" && |fs[0]| >= 5
  }

  /** What is read of printed fields: an empty last one is lost, and so is everything behind the 24th. */
  function AsRead(fs: seq<string>): seq<string>
    requires fs != []
  {
    var g := if fs[|fs| - 1] == "" then fs[..|fs| - 1] else fs;
    g[..Min(|g|, 24)]
  }

  lemma JoinedLength(fs: seq<string>)
    requires fs != []
    ensures |Joined(fs)| >= |fs[0]|
  {
  }

  lemma BodyOfPrinted(body: string, c1: char, c2: char)
    requires body != ""
    ensures Body(['$'] + body + ['*', c1, c2, '\r', '\n']) == body
  {
    var s := ['$'] + body + ['*', c1, c2, '\r', '\n'];
    assert BodyStart(s) == 1 && LineEnd(s) == |s| - 2;
    assert s[|s| - 5] == '*';
    assert BodyEnd(s) == |s| - 5;
    assert s[1..|s| - 5] == body;
  }

  /** Dollar sign and checksum are optional. */
  lemma BodyOfBare(body: string)
    requires body != "" && body[0] != '$' && (|body| >= 3 ==> body[|body| - 3] != '*')
    ensures Body(body + ['\r', '\n']) == body
    ensures body[|body| - 1] != '\r' ==> Body(body + ['\n']) == body
  {
    var s, t := body + ['\n'], body + ['\r', '\n'];
    if body[|body| - 1] != '\r' {
      assert BodyStart(s) == 0 && LineEnd(s) == |body| && BodyEnd(s) == |body|;
      assert s[..|body|] == body;
    }
    assert BodyStart(t) == 0 && LineEnd(t) == |body| && BodyEnd(t) == |body|;
    assert t[..|body|] == body;
  }

  lemma {:induction false} JoinedFront(fs: seq<string>)
    requires |fs| >= 2 && fs[|fs| - 1] == ""
    ensures Joined(fs) == Joined(fs[..|fs| - 1]) + [',']
    decreases fs
  {
    var n := |fs| - 1;
    if n == 1 {
      assert fs[1..] == [""] && fs[..1] == [fs[0]];
      assert Joined([""]) == "" && fs[0] + [','] + "" == fs[0] + [','];
    } else {
      assert fs[1..][..n - 1] == fs[..n][1..];
      JoinedFront(fs[1..]);
      assert Joined(fs) == fs[0] + [','] + (Joined(fs[..n][1..]) + [',']);
    }
  }

  /** The fields of joined fields, an empty last one being lost. */
  lemma FieldsOfJoined(fs: seq<string>)
    requires fs != [] && CommaFree(fs) && fs[0] != ""
    ensures Fields(Joined(fs)) == if fs[|fs| - 1] == "" then fs[..|fs| - 1] else fs
  {
    if fs[|fs| - 1] == "" {
      JoinedFront(fs);
      FieldsInvertJoin(fs[..|fs| - 1]);
    } else {
      FieldsInvertJoin(fs);
    }
  }

  /** Any comma-free fields, printed, are processed, and their tokens are the fields as far as they are read. */
  lemma PrintedIsCut(fs: seq<string>, c1: char, c2: char)
    requires fs != [] && CommaFree(fs) && |fs[0]| >= 5
    ensures Sentence(Printed(fs, c1, c2)) == Some(AsRead(fs))
  {
    hide Fields, Body, Joined;
    JoinedLength(fs);
    BodyOfPrinted(Joined(fs), c1, c2);
    FieldsOfJoined(fs);
  }

  /** So are they without dollar sign and checksum, if the line has at least nine characters. */
  lemma BareIsCut(fs: seq<string>)
    requires fs != [] && CommaFree(fs) && |fs[0]| >= 5
    requires var body := Joined(fs); body[0] != '$' && body[|body| - 3] != '*'
    ensures var line := Joined(fs) + ['\r', '\n'];
            Sentence(line) == if |line| < 9 then None else Some(AsRead(fs))
  {
    hide Fields, Body, Joined;
    JoinedLength(fs);
    BodyOfBare(Joined(fs));
    FieldsOfJoined(fs);
  }

  /** A printed sentence is processed, and its tokens are the fields it was printed from. */
  lemma PrintedIsRead(fs: seq<string>, c1: char, c2: char)
    requires Printable(fs)
    ensures Sentence(Printed(fs, c1, c2)) == Some(fs)
  {
    PrintedIsCut(fs, c1, c2);
    assert fs[..|fs|] == fs;
  }

  /** Recommended minimum data: time, status, position, speed, course, date, then whatever. */
  function RmcFields(talker: string, time: string, status: char, lat: string, ns: char, lon: string, ew: char,
                     speed: string, course: string, date: string, rest: seq<string>): seq<string>
    requires |talker| == 2
  {
    [talker + ['R', 'M', 'C'], time, [status], lat, [ns], lon, [ew], speed, course, date] + rest
  }

  /** A printed RMC with status A updates the position, the bearing from the course field, and the
      speed, each when it is there, and asks for a report; with another status it does nothing. */
  lemma RmcReadBack(talker: string, time: string, status: char, lat: string, ns: char, lon: string, ew: char,
                    speed: string, course: string, date: string, rest: seq<string>, mode: int, c1: char, c2: char)
    requires |talker| == 2
    requires Printable(RmcFields(talker, time, status, lat, ns, lon, ew, speed, course, date, rest))
    ensures var f := RmcFields(talker, time, status, lat, ns, lon, ew, speed, course, date, rest);
            && Sentence(Printed(f, c1, c2)) == Some(f) && (IsFixRmc(f) <==> status == 'A')
            && Updates(f, mode)
               == if status != 'A' then map[]
                  else (if |lat| >= 6 && |lon| >= 6 then map[LatLong := Position(lat, ns == 'S', lon, ew == 'W')] else map[])
                       + (if course != "" then map[Bearing := Number(course)] else map[])
                       + (if speed != "" then map[Speed := Number(speed)] else map[])
  {
    var f := RmcFields(talker, time, status, lat, ns, lon, ew, speed, course, date, rest);
    PrintedIsRead(f, c1, c2);
    assert KindOf(f) == Rmc;
  }

  /** Fix data: time, position, quality, satellites, dilution, altitude and its units, then whatever. */
  function GgaFields(talker: string, time: string, lat: string, ns: char, lon: string, ew: char, quality: string,
                     satellites: string, hdop: string, altitude: string, units: string, rest: seq<string>): seq<string>
    requires |talker| == 2
  {
    [talker + ['G', 'G', 'A'], time, lat, [ns], lon, [ew], quality, satellites, hdop, altitude, units] + rest
  }

  /** A printed GGA updates the position and the altitude, each when it is there, and asks for no report. */
  lemma GgaReadBack(talker: string, time: string, lat: string, ns: char, lon: string, ew: char, quality: string,
                    satellites: string, hdop: string, altitude: string, units: string, rest: seq<string>, mode: int,
                    c1: char, c2: char)
    requires |talker| == 2
    requires Printable(GgaFields(talker, time, lat, ns, lon, ew, quality, satellites, hdop, altitude, units, rest))
    ensures var f := GgaFields(talker, time, lat, ns, lon, ew, quality, satellites, hdop, altitude, units, rest);
            && Sentence(Printed(f, c1, c2)) == Some(f) && !IsFixRmc(f) && ModeAfter(f, mode) == mode
            && Updates(f, mode)
               == (if |lat| >= 6 && |lon| >= 6 then map[LatLong := Position(lat, ns == 'S', lon, ew == 'W')] else map[])
                  + (if altitude != "" then map[Altitude := Number(altitude)] else map[])
  {
    var f := GgaFields(talker, time, lat, ns, lon, ew, quality, satellites, hdop, altitude, units, rest);
    PrintedIsRead(f, c1, c2);
    assert KindOf(f) == Gga;
  }

  /** A printed accuracy sentence updates the accuracy in fix mode 2 or 3, when it is there. */
  lemma AccuracyReadBack(talker: string, accuracy: string, rest: seq<string>, mode: int, c1: char, c2: char)
    requires |talker| == 2 && Printable([talker + "ACCURACY", accuracy] + rest)
    ensures var f := [talker + "ACCURACY", accuracy] + rest;
            && Sentence(Printed(f, c1, c2)) == Some(f) && !IsFixRmc(f) && ModeAfter(f, mode) == mode
            && Updates(f, mode)
               == if (mode == 2 || mode == 3) && accuracy != "" then map[Accuracy := Number(accuracy)] else map[]
  {
    var f := [talker + "ACCURACY", accuracy] + rest;
    PrintedIsRead(f, c1, c2);
    var id := talker + "ACCURACY";
    assert id[2..] == "ACCURACY";
    assert id[2] == 'A' && id[3] == 'C' && id[4] == 'C' && id[5] == 'U' && id[6] == 'R' && id[7] == 'A' && id[8] == 'C'
        && id[9] == 'Y';
    assert KindOf(f) == AccuracyReport;
  }

  /** No other sentence does anything. */
  lemma OthersAreIgnored(r: Reader, f: seq<string>)
    requires WellFormed(r) && Processed(f)
    requires f[0][2..5] !in ["GGA", "GSA", "RMC", "GSV"] && !("ACCURACY" <= f[0][2..])
    ensures Apply(r, f) == r && Reports(r, f) == []
  {
    var id := f[0];
    assert id[2..5] == [id[2], id[3], id[4]];
    assert "GGA" == ['G', 'G', 'A'] && "GSA" == ['G', 'S', 'A'] && "RMC" == ['R', 'M', 'C'] && "GSV" == ['G', 'S', 'V'];
    assert KindOf(f) == Unknown;
    assert r.values + map[] == r.values;
  }

  /** A satellite in view as printed. */
  datatype InView = InView(prn: nat, elevation: nat, azimuth: nat, snr: string)

  function InViewFields(v: InView): seq<string> {
    [Decimal(v.prn), Decimal(v.elevation), Decimal(v.azimuth), v.snr]
  }

  function AllInView(vs: seq<InView>): seq<string> {
    if vs == [] then [] else InViewFields(vs[0]) + AllInView(vs[1..])
  }

  /** A message of a group of satellites in view. */
  function GsvFields(talker: string, num: nat, sequence: nat, count: nat, vs: seq<InView>): seq<string>
    requires |talker| == 2
  {
    [talker + ['G', 'S', 'V'], Decimal(num), Decimal(sequence), Decimal(count)] + AllInView(vs)
  }

  ghost predicate Fits32(vs: seq<InView>) {
    forall k :: 0 <= k < |vs| ==>
      vs[k].prn < 0x8000_0000 && vs[k].elevation < 0x8000_0000 && vs[k].azimuth < 0x8000_0000
  }

  lemma {:induction false} AllInViewAt(vs: seq<InView>, k: nat)
    requires k < |vs|
    ensures |AllInView(vs)| == 4 * |vs|
    ensures AllInView(vs)[4 * k..4 * k + 4] == InViewFields(vs[k])
    decreases vs
  {
    if |vs| > 1 {
      if k > 0 {
        AllInViewAt(vs[1..], k - 1);
      } else {
        AllInViewAt(vs[1..], 0);
      }
    }
    if k > 0 {
      assert AllInView(vs)[4 * k..4 * k + 4] == AllInView(vs[1..])[4 * (k - 1)..4 * (k - 1) + 4];
    }
  }

  /** System and number under which a talker's satellite is listed, if at all. */
  function ListedAs(talker: string, prn: nat): Option<(int, Constellation)> {
    if talker == "GL" && 1 <= prn <= 32 then Some((prn, Glonass))
    else if talker == "BD" && 1 <= prn <= 32 then Some((prn, Beidou))
    else if 1 <= prn <= 31 then Some((prn, Gps))
    else if 65 <= prn <= 96 then Some((prn - 64, Glonass))
    else if 201 <= prn <= 237 then Some((prn - 200, Beidou))
    else if 401 <= prn <= 436 then Some((prn - 400, Galileo))
    else None
  }

  /** The number by which the table of used satellites knows it. */
  function TableNumber(glonass: bool, beidou: bool, prn: nat): nat {
    if glonass && 1 <= prn <= 32 then prn + 64 else if beidou && 1 <= prn <= 32 then prn + 200 else prn
  }

  /** The entry for a printed satellite, if its number is listed. */
  function InViewEntry(r: Reader, talker: string, v: InView): Option<Sv>
    requires WellFormed(r)
  {
    var id, n := ListedAs(talker, v.prn), TableNumber(talker == "GL", talker == "BD", v.prn);
    if id.None? then None
    else Some(Sv(id.value.0, id.value.1, v.snr, v.elevation, v.azimuth, if n < 256 then r.used[n] else r.beyond(n)))
  }

  /** The entries for printed satellites whose numbers are listed, in order. */
  function InViewEntries(r: Reader, talker: string, vs: seq<InView>): (e: seq<Sv>)
    requires WellFormed(r)
    ensures |e| <= |vs|
  {
    if vs == [] then []
    else InViewEntries(r, talker, vs[..|vs| - 1]) + ToSeq(InViewEntry(r, talker, vs[|vs| - 1]))
  }

  lemma EntryIsListed(r: Reader, talker: string, id: string, v: InView)
    requires WellFormed(r) && |talker| == 2 && |id| >= 5 && id[..2] == talker
    ensures SvFor(r, GetSvid(v.prn, TalkerOfId(id)), v.elevation, v.azimuth, v.snr) == InViewEntry(r, talker, v)
  {
    assert id[0] == talker[0] && id[1] == talker[1];
    assert "GL" == ['G', 'L'] && "BD" == ['B', 'D'];
    assert talker == [talker[0], talker[1]];
  }

  lemma EntryReadBack(talker: string, num: nat, sequence: nat, count: nat, vs: seq<InView>, k: nat, r: Reader)
    requires |talker| == 2 && Fits32(vs) && k < |vs| && WellFormed(r)
    ensures var f := GsvFields(talker, num, sequence, count, vs);
            GsvEntry(f, Talker(f), r, k) == InViewEntry(r, talker, vs[k])
  {
    hide SvFor, GetSvid, IntOf, Decimal, InViewEntry, TalkerOfId;
    var f := GsvFields(talker, num, sequence, count, vs);
    assert f[0][..2] == talker;
    EntryIsListed(r, talker, f[0], vs[k]);
    IntOfDecimal(vs[k].prn);
    IntOfDecimal(vs[k].elevation);
    IntOfDecimal(vs[k].azimuth);
    AllInViewAt(vs, k);
    var at := 4 * (k + 1);
    assert AllInView(vs)[4 * k..4 * k + 4] == f[at..at + 4];
    assert f[at..at + 4][0] == f[at] && f[at..at + 4][1] == f[at + 1] && f[at..at + 4][2] == f[at + 2]
        && f[at..at + 4][3] == f[at + 3];
  }

  lemma {:induction false} EntriesReadBack(talker: string, num: nat, sequence: nat, count: nat, vs: seq<InView>,
                                           n: nat, r: Reader)
    requires |talker| == 2 && Fits32(vs) && n <= |vs| && WellFormed(r)
    ensures var f := GsvFields(talker, num, sequence, count, vs);
            Accepted(f, Talker(f), r, n) == InViewEntries(r, talker, vs[..n])
  {
    hide GsvFields, GsvEntry, InViewEntry;
    if n > 0 {
      EntriesReadBack(talker, num, sequence, count, vs, n - 1, r);
      EntryReadBack(talker, num, sequence, count, vs, n - 1, r);
      assert vs[..n][..n - 1] == vs[..n - 1];
    }
  }

  lemma GsvShape(talker: string, num: nat, sequence: nat, count: nat, vs: seq<InView>)
    requires |talker| == 2 && num < 0x8000_0000 && sequence < 0x8000_0000 && count < 0x8000_0000
    ensures var f := GsvFields(talker, num, sequence, count, vs);
            && Processed(f) && KindOf(f) == Gsv
            && GsvNum(f) == num && GsvSeq(f) == sequence && GsvCount(f) == count
  {
    hide IntOf, Decimal;
    IntOfDecimal(num);
    IntOfDecimal(sequence);
    IntOfDecimal(count);
  }

  /** A printed satellite message is read back: its numbering, its count, and the satellites printed,
      those that are listed, in order. */
  lemma GsvReadBack(talker: string, num: nat, sequence: nat, count: nat, vs: seq<InView>, r: Reader, c1: char, c2: char)
    requires |talker| == 2 && num < 0x8000_0000 && sequence < 0x8000_0000 && count < 0x8000_0000 && Fits32(vs)
    requires WellFormed(r)
    ensures var f := GsvFields(talker, num, sequence, count, vs);
            && (Printable(f) ==> Sentence(Printed(f, c1, c2)) == Some(f))
            && Processed(f) && KindOf(f) == Gsv
            && GsvNum(f) == num && GsvSeq(f) == sequence && GsvCount(f) == count
            && Accepted(f, Talker(f), r, |vs|) == InViewEntries(r, talker, vs)
  {
    hide GsvFields, Sentence, Printed, Printable, Accepted, InViewEntries;
    var f := GsvFields(talker, num, sequence, count, vs);
    GsvShape(talker, num, sequence, count, vs);
    EntriesReadBack(talker, num, sequence, count, vs, |vs|, r);
    assert vs[..|vs|] == vs;
    if Printable(f) {
      PrintedIsRead(f, c1, c2);
    }
  }

  /** The slots of a sentence hold exactly these numbers, then an empty slot, if there is one left. */
  ghost predicate NamesExactly(f: seq<string>, prns: seq<nat>) {
    && |prns| <= GSA_SATELLITES
    && (forall k :: 0 <= k < |prns| ==> prns[k] < 0x8000_0000 && TextAt(f, k + 3) == Decimal(prns[k]))
    && (|prns| < GSA_SATELLITES ==> TextAt(f, |prns| + 3) == "")
  }

  lemma {:induction false} NamedFromReadBack(f: seq<string>, prns: seq<nat>, system: Constellation, k: nat, id: int)
    requires NamesExactly(f, prns) && k <= |prns|
    ensures id in NamedFrom(f, system, k) <==> exists j :: k <= j < |prns| && id == GetSvid(prns[j], system)
    decreases |prns| - k
  {
    if k < |prns| {
      DigitsOfDecimal(prns[k]);
      IntOfDecimal(prns[k]);
      NamedFromReadBack(f, prns, system, k + 1, id);
    }
  }

  /** The twelve slots for satellites. */
  function Slots(prns: seq<nat>): (s: seq<string>)
    ensures |s| == GSA_SATELLITES
  {
    seq(GSA_SATELLITES, k requires 0 <= k < GSA_SATELLITES => if k < |prns| then Decimal(prns[k]) else "")
  }

  /** Satellites of a fix: selection, mode, slots, three dilutions, perhaps the system and more. */
  function GsaFields(talker: string, selection: string, mode: nat, prns: seq<nat>, pdop: string, hdop: string,
                     vdop: string, rest: seq<string>): seq<string>
    requires |talker| == 2
  {
    [talker + ['G', 'S', 'A'], selection, Decimal(mode)] + Slots(prns) + [pdop, hdop, vdop] + rest
  }

  lemma SlotAt(prns: seq<nat>, k: nat)
    requires k < GSA_SATELLITES
    ensures Slots(prns)[k] == if k < |prns| then Decimal(prns[k]) else ""
  {
  }

  lemma GsaShape(talker: string, selection: string, mode: nat, prns: seq<nat>, pdop: string, hdop: string,
                 vdop: string, rest: seq<string>)
    requires |talker| == 2 && |prns| <= GSA_SATELLITES && forall k :: 0 <= k < |prns| ==> prns[k] < 0x8000_0000
    ensures var f := GsaFields(talker, selection, mode, prns, pdop, hdop, vdop, rest);
            && Processed(f) && f[0][..2] == talker && KindOf(f) == Gsa && NamesExactly(f, prns)
            && TextAt(f, 2) == Decimal(mode) && TextAt(f, 15) == pdop && HeadAt(f, 18) == HeadAt(rest, 0)
  {
    hide Decimal, Slots;
    var f := GsaFields(talker, selection, mode, prns, pdop, hdop, vdop, rest);
    forall k | 0 <= k < |prns|
      ensures TextAt(f, k + 3) == Decimal(prns[k])
    {
      SlotAt(prns, k);
      assert f[k + 3] == Slots(prns)[k];
    }
    if |prns| < GSA_SATELLITES {
      SlotAt(prns, |prns|);
      assert f[|prns| + 3] == Slots(prns)[|prns|];
    }
    assert f[15] == pdop && f[18..] == rest;
    assert HeadAt(f, 18) == HeadAt(rest, 0) by {
      assert rest != [] ==> f[18] == rest[0];
    }
  }

  /** A printed GSA is read back: the mode; the first dilution as accuracy, when it is there and there is
      a fix; and, with a fix, exactly the satellites printed, numbered by the system behind the
      dilutions, or by the talker without one. */
  lemma GsaReadBack(talker: string, selection: string, mode: nat, prns: seq<nat>, pdop: string, hdop: string,
                    vdop: string, rest: seq<string>, id: int, was: int, c1: char, c2: char)
    requires |talker| == 2 && mode < 0x8000_0000 && |prns| <= GSA_SATELLITES
    requires forall k :: 0 <= k < |prns| ==> prns[k] < 0x8000_0000
    ensures var f := GsaFields(talker, selection, mode, prns, pdop, hdop, vdop, rest);
            var c := HeadAt(rest, 0);
            var glonass := c == '2' || (c != '1' && c != '4' && talker == "GL");
            var beidou := c == '4' || (c != '1' && c != '2' && talker == "BD");
            var fixed := mode == 2 || mode == 3;
            && (Printable(f) ==> Sentence(Printed(f, c1, c2)) == Some(f))
            && Processed(f) && KindOf(f) == Gsa && ModeAfter(f, was) == mode
            && Updates(f, was) == (if fixed && pdop != "" then map[Accuracy := Number(pdop)] else map[])
            && (id in Named(f)
                <==> fixed && exists j :: 0 <= j < |prns| && id == TableNumber(glonass, beidou, prns[j]))
  {
    hide GsaFields, Decimal, IntOf, Sentence, Printed, Printable, GetSvid, NamedFrom, TextAt, HeadAt, NamesExactly;
    var f := GsaFields(talker, selection, mode, prns, pdop, hdop, vdop, rest);
    GsaShape(talker, selection, mode, prns, pdop, hdop, vdop, rest);
    IntOfDecimal(mode);
    NamedFromReadBack(f, prns, GsaSystem(f, Talker(f)), 0, id);
    SystemOfGsa(talker, f, HeadAt(rest, 0), prns);
    if Printable(f) {
      PrintedIsRead(f, c1, c2);
    }
  }

  /** The system by which the satellites are normalised. */
  lemma SystemOfGsa(talker: string, f: seq<string>, c: char, prns: seq<nat>)
    requires |talker| == 2 && Processed(f) && f[0][..2] == talker && HeadAt(f, 18) == c
    ensures var glonass := c == '2' || (c != '1' && c != '4' && talker == "GL");
            var beidou := c == '4' || (c != '1' && c != '2' && talker == "BD");
            forall j :: 0 <= j < |prns| ==>
              GetSvid(prns[j], GsaSystem(f, Talker(f))) == TableNumber(glonass, beidou, prns[j])
  {
    hide HeadAt;
    assert f[0][0] == talker[0] && f[0][1] == talker[1];
    assert "GL" == ['G', 'L'] && "BD" == ['B', 'D'];
    assert talker == [talker[0], talker[1]];
  }
}
