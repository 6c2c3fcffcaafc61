/** What one NMEA sentence does to the GPS reader, on values. */
module NmeaSentence {
  import opened Common
  import opened NmeaTokenizer

  /** GNSS_MAX_SVS of Android's hardware/gps.h, which the repository includes. */
  const GNSS_MAX_SVS: nat := 64
  const NMEA_MAX_SV_INFO: nat := 4
  const GSA_SATELLITES: nat := 12
  const USED_TABLE: nat := 256

  datatype Constellation = Gps | Glonass | Beidou | Galileo

  /** A satellite as reported; the signal strength is the text it is parsed from. */
  datatype Sv = Sv(svid: int, constellation: Constellation, snr: string, elevation: int, azimuth: int, used: bool)

  /** The optional parts of a fix. */
  datatype Field = LatLong | Altitude | Bearing | Speed | Accuracy

  /** The value of a part: the texts it is computed from, or the accuracy made up when none is known. */
  datatype Value =
    | Position(latitude: string, south: bool, longitude: string, west: bool)
    | Number(text: string)
    | MadeUp

  type Fix = map<Field, Value>

  /** What the reader reports through its callbacks. */
  datatype Report =
    | Location(flags: set<Field>, values: Fix)
    | Satellites(count: int, svs: seq<Sv>)
    | Line(text: string)

  /** The reader between two sentences. `beyond` is the memory behind the table of used satellites. */
  datatype Reader = Reader(fixMode: int, flags: set<Field>, values: Fix, svCount: int, numSvs: int,
                           svs: seq<Sv>, used: seq<bool>, beyond: int -> bool)

  ghost predicate WellFormed(r: Reader) {
    |r.svs| == GNSS_MAX_SVS && |r.used| == USED_TABLE && 0 <= r.svCount && 0 <= r.numSvs
  }

  // ---------- Reading a sentence ----------

  datatype Kind = Gga | Gsa | Rmc | Gsv | AccuracyReport | Unknown

  /** The fields of a line that is processed at all. */
  function Sentence(line: string): Option<seq<string>> {
    if |line| < 9 then None
    else
      var f := Tokens(line);
      if |TextAt(f, 0)| < 5 then None else Some(f)
  }

  predicate Processed(f: seq<string>) {
    f != [] && |f[0]| >= 5
  }

  /** The three characters behind the two-letter talker. */
  predicate CodeIs(id: string, a: char, b: char, c: char)
    requires |id| >= 5
  {
    id[2] == a && id[3] == b && id[4] == c
  }

  predicate IsAccuracyId(id: string)
    requires |id| >= 5
  {
    |id| >= 10 && CodeIs(id, 'A', 'C', 'C')
    && id[5] == 'U' && id[6] == 'R' && id[7] == 'A' && id[8] == 'C' && id[9] == 'Y'
  }

  function KindOfId(id: string): Kind
    requires |id| >= 5
  {
    if CodeIs(id, 'G', 'G', 'A') then Gga
    else if CodeIs(id, 'G', 'S', 'A') then Gsa
    else if CodeIs(id, 'R', 'M', 'C') then Rmc
    else if CodeIs(id, 'G', 'S', 'V') then Gsv
    else if IsAccuracyId(id) then AccuracyReport
    else Unknown
  }

  function KindOf(f: seq<string>): Kind
    requires Processed(f)
  {
    KindOfId(f[0])
  }

  function TalkerOfId(id: string): Constellation
    requires |id| >= 5
  {
    if id[0] == 'B' && id[1] == 'D' then Beidou else if id[0] == 'G' && id[1] == 'L' then Glonass else Gps
  }

  function Talker(f: seq<string>): Constellation
    requires Processed(f)
  {
    TalkerOfId(f[0])
  }

  /** Satellite numbers of all systems brought into one range. */
  function GetSvid(prn: int, system: Constellation): int {
    if system == Glonass && 1 <= prn <= 32 then prn + 64
    else if system == Beidou && 1 <= prn <= 32 then prn + 200
    else prn
  }

  predicate Fixed(mode: int) {
    mode == 2 || mode == 3
  }

  // ---------- The fix ----------

  /** A position needs six characters on both sides. */
  function PositionUpdate(latitude: string, ns: char, longitude: string, ew: char): Fix {
    if |latitude| < 6 || |longitude| < 6 then map[]
    else map[LatLong := Position(latitude, ns == 'S', longitude, ew == 'W')]
  }

  /** The position spelt by fields k to k + 3. */
  function PositionAt(f: seq<string>, k: nat): Fix {
    PositionUpdate(TextAt(f, k), HeadAt(f, k + 1), TextAt(f, k + 2), HeadAt(f, k + 3))
  }

  function NumberUpdate(field: Field, text: string): Fix {
    if text == "" then map[] else map[field := Number(text)]
  }

  function GgaUpdates(f: seq<string>): Fix {
    PositionAt(f, 2) + NumberUpdate(Altitude, TextAt(f, 9))
  }

  function RmcUpdates(f: seq<string>): Fix {
    if HeadAt(f, 2) == 'A'
    then PositionAt(f, 3) + NumberUpdate(Bearing, TextAt(f, 8)) + NumberUpdate(Speed, TextAt(f, 7))
    else map[]
  }

  function AccuracyUpdates(f: seq<string>, k: nat, mode: int): Fix {
    if Fixed(mode) then NumberUpdate(Accuracy, TextAt(f, k)) else map[]
  }

  predicate IsFixRmc(f: seq<string>)
    requires Processed(f)
  {
    KindOf(f) == Rmc && HeadAt(f, 2) == 'A'
  }

  /** The fix mode after a sentence. */
  function ModeAfter(f: seq<string>, mode: int): int
    requires Processed(f)
  {
    if KindOf(f) == Gsa then IntOf(TextAt(f, 2)) else mode
  }

  /** The parts of the fix that a sentence updates. */
  function Updates(f: seq<string>, mode: int): Fix
    requires Processed(f)
  {
    match KindOf(f)
    case Gga => GgaUpdates(f)
    case Gsa => AccuracyUpdates(f, 15, ModeAfter(f, mode))
    case Rmc => RmcUpdates(f)
    case AccuracyReport => AccuracyUpdates(f, 1, mode)
    case _ => map[]
  }

  function WithUpdates(r: Reader, u: Fix): Reader {
    r.(flags := r.flags + u.Keys, values := r.values + u)
  }

  // ---------- Satellites used in the fix ----------

  /** A satellite sentence may name its system in field 18. */
  function GsaSystem(f: seq<string>, talker: Constellation): Constellation {
    var c := HeadAt(f, 18);
    if c == '1' then Gps else if c == '2' then Glonass else if c == '4' then Beidou else talker
  }

  /** The numbers a satellite sentence names from slot k on, up to its first empty slot. */
  function NamedFrom(f: seq<string>, system: Constellation, k: nat): set<int>
    decreases GSA_SATELLITES - k
  {
    if k >= GSA_SATELLITES || TextAt(f, k + 3) == "" then {}
    else {GetSvid(IntOf(TextAt(f, k + 3)), system)} + NamedFrom(f, system, k + 1)
  }

  function GsaNamed(f: seq<string>, talker: Constellation): set<int> {
    if Fixed(IntOf(TextAt(f, 2))) then NamedFrom(f, GsaSystem(f, talker), 0) else {}
  }

  /** The satellites that a sentence marks as used: those it names, if it comes with a fix. */
  function Named(f: seq<string>): set<int>
    requires Processed(f)
  {
    if KindOf(f) == Gsa then GsaNamed(f, Talker(f)) else {}
  }

  function Marked(used: seq<bool>, named: set<int>): (r: seq<bool>)
    ensures |r| == |used|
  {
    seq(|used|, i requires 0 <= i < |used| => used[i] || i in named)
  }

  // ---------- Satellites in view ----------

  /** The system and number under which a normalised satellite number is listed, if at all. */
  function Listed(prn: int): Option<(int, Constellation)> {
    if 0 < prn < 32 then Some((prn, Gps))
    else if 65 <= prn <= 96 then Some((prn - 64, Glonass))
    else if 201 <= prn <= 237 then Some((prn - 200, Beidou))
    else if 401 <= prn <= 436 then Some((prn - 400, Galileo))
    else None
  }

  /** Of the satellites 1..32 of the three systems with a talker of their own, normalising and listing
      gives back system and number for all but one: GPS satellite 32 is dropped. */
  lemma NormalisedIsListedIff(prn: int, system: Constellation)
    requires 1 <= prn <= 32 && system != Galileo
    ensures Listed(GetSvid(prn, system)) == Some((prn, system)) <==> !(system == Gps && prn == 32)
  {
  }

  function IsUsed(r: Reader, prn: int): bool
    requires WellFormed(r)
  {
    if 0 <= prn < USED_TABLE then r.used[prn] else r.beyond(prn)
  }

  /** Number of messages of a group, number of this message, satellites in view. */
  function GsvNum(f: seq<string>): int { IntOf(TextAt(f, 1)) }
  function GsvSeq(f: seq<string>): int { IntOf(TextAt(f, 2)) }
  function GsvCount(f: seq<string>): int { IntOf(TextAt(f, 3)) }

  /** How many entries of a message are looked at. */
  function GsvEntries(f: seq<string>): int {
    Min(GsvCount(f) - (GsvSeq(f) - 1) * NMEA_MAX_SV_INFO, NMEA_MAX_SV_INFO)
  }

  function GsvPrn(f: seq<string>, talker: Constellation, k: nat): int {
    GetSvid(IntOf(TextAt(f, 4 * (k + 1))), talker)
  }

  /** A satellite under its number, if that is listed. */
  function SvFor(r: Reader, prn: int, elevation: int, azimuth: int, snr: string): Option<Sv>
    requires WellFormed(r)
  {
    var id := Listed(prn);
    if id.None? then None else Some(Sv(id.value.0, id.value.1, snr, elevation, azimuth, IsUsed(r, prn)))
  }

  /** Entry k of a message, if it is listed. */
  function GsvEntry(f: seq<string>, talker: Constellation, r: Reader, k: nat): Option<Sv>
    requires WellFormed(r)
  {
    var at := 4 * (k + 1);
    SvFor(r, GsvPrn(f, talker, k), IntOf(TextAt(f, at + 1)), IntOf(TextAt(f, at + 2)), TextAt(f, at + 3))
  }

  /** The first n entries of a message that are accepted, in order. */
  function Accepted(f: seq<string>, talker: Constellation, r: Reader, n: int): (a: seq<Sv>)
    requires WellFormed(r)
    ensures |a| <= Max(n, 0)
  {
    if n <= 0 then [] else Accepted(f, talker, r, n - 1) + ToSeq(GsvEntry(f, talker, r, n - 1))
  }

  ghost predicate OnlyListDiffers(r: Reader, r': Reader) {
    r' == r.(svCount := r'.svCount, numSvs := r'.numSvs, svs := r'.svs)
  }

  /** How many of n further satellites fit. */
  function Fitting(r: Reader, n: nat): (m: nat)
    ensures m <= n
  {
    Max(0, Min(n, GNSS_MAX_SVS - r.svCount - r.numSvs))
  }

  /** The list with further satellites behind the first svCount + numSvs, as far as they fit. */
  function Extended(r: Reader, more: seq<Sv>): (r': Reader)
    requires WellFormed(r)
    ensures WellFormed(r') && OnlyListDiffers(r, r')
  {
    var n := Fitting(r, |more|);
    var at := r.svCount + r.numSvs;
    if n == 0 then r
    else r.(svCount := r.svCount + n, svs := r.svs[..at] + more[..n] + r.svs[at + n..])
  }

  /** The first message of a group restarts the count. */
  function Restarted(r: Reader, sequence: int): Reader {
    if sequence == 1 then r.(svCount := 0) else r
  }

  /** The last message of a group commits what was counted, unless it is more than announced. */
  function Committed(r: Reader, num: int, sequence: int, count: int): Reader {
    if sequence != num then r
    else if r.svCount <= count then r.(numSvs := r.numSvs + r.svCount)
    else r.(svCount := 0, numSvs := 0)
  }

  function AfterGsv(r: Reader, f: seq<string>, talker: Constellation): (r': Reader)
    requires WellFormed(r)
    ensures WellFormed(r') && OnlyListDiffers(r, r')
  {
    var r1 := Extended(Restarted(r, GsvSeq(f)), Accepted(f, talker, r, GsvEntries(f)));
    Committed(r1, GsvNum(f), GsvSeq(f), GsvCount(f))
  }

  // ---------- A sentence ----------

  function Apply(r: Reader, f: seq<string>): (r': Reader)
    requires WellFormed(r) && Processed(f)
    ensures WellFormed(r')
  {
    var r1 := WithUpdates(r, Updates(f, r.fixMode)).(fixMode := ModeAfter(f, r.fixMode));
    match KindOf(f)
    case Gsa => r1.(used := Marked(r.used, Named(f)))
    case Gsv => AfterGsv(r1, f, Talker(f))
    case _ => r1
  }

  /** A reported fix always carries an accuracy. */
  function LocationOf(r: Reader): Report {
    Location(r.flags + {Accuracy}, if Accuracy in r.flags then r.values else r.values[Accuracy := MadeUp])
  }

  function SatellitesOf(r: Reader): Report
    requires WellFormed(r)
  {
    Satellites(r.numSvs, r.svs[..Min(r.numSvs, GNSS_MAX_SVS)])
  }

  predicate ReportsLocation(f: seq<string>)
    requires Processed(f)
  {
    IsFixRmc(f)
  }

  predicate ReportsSatellites(r: Reader, f: seq<string>)
    requires Processed(f)
  {
    KindOf(f) == Rmc && r.numSvs != 0
  }

  /** The reports due after a sentence has been applied. */
  function Reports(r: Reader, f: seq<string>): seq<Report>
    requires WellFormed(r) && Processed(f)
  {
    (if ReportsLocation(f) then [LocationOf(r)] else [])
    + (if ReportsSatellites(r, f) then [SatellitesOf(r)] else [])
  }

  function AfterReports(r: Reader, f: seq<string>): (r': Reader)
    requires WellFormed(r) && Processed(f)
    ensures WellFormed(r')
  {
    var r1 := if ReportsLocation(f) then r.(flags := {}, values := LocationOf(r).values) else r;
    if ReportsSatellites(r, f)
    then r1.(svCount := 0, numSvs := 0, used := seq(USED_TABLE, _ => false))
    else r1
  }

  /** One line handed on by the framer. */
  function AfterLine(r: Reader, line: string): (r': Reader)
    requires WellFormed(r)
    ensures WellFormed(r')
  {
    match Sentence(line)
    case None => r
    case Some(f) => AfterReports(Apply(r, f), f)
  }

  /** Its reports, ending with the line itself. */
  function LineReports(r: Reader, line: string): seq<Report>
    requires WellFormed(r)
  {
    (match Sentence(line)
     case None => []
     case Some(f) => Reports(Apply(r, f), f)) + [Line(line)]
  }
}
