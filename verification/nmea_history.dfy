/** What the GPS reader reports, as a function of the lines it has received. */
module NmeaHistory {
  import opened Common
  import opened NmeaTokenizer
  import opened NmeaSentence

  function Start(beyond: int -> bool): (r: Reader)
    ensures WellFormed(r)
  {
    Reader(0, {}, map[], 0, 0, seq(GNSS_MAX_SVS, _ => Sv(0, Gps, "", 0, 0, false)), seq(USED_TABLE, _ => false), beyond)
  }

  /** The reader after the lines h. */
  function After(beyond: int -> bool, h: seq<string>): (r: Reader)
    ensures WellFormed(r)
  {
    if h == [] then Start(beyond) else AfterLine(After(beyond, h[..|h| - 1]), h[|h| - 1])
  }

  /** The reports that the last line of h brings. */
  function LastReports(beyond: int -> bool, h: seq<string>): seq<Report>
    requires h != []
  {
    LineReports(After(beyond, h[..|h| - 1]), h[|h| - 1])
  }

  /** All reports of a run. */
  function ReportsOf(beyond: int -> bool, h: seq<string>): seq<Report> {
    if h == [] then [] else ReportsOf(beyond, h[..|h| - 1]) + LastReports(beyond, h)
  }

  lemma OneMoreLine(beyond: int -> bool, h: seq<string>, line: string)
    ensures After(beyond, h + [line]) == AfterLine(After(beyond, h), line)
    ensures ReportsOf(beyond, h + [line]) == ReportsOf(beyond, h) + LineReports(After(beyond, h), line)
  {
    assert (h + [line])[..|h|] == h && (h + [line])[|h|] == line;
  }

  // ---------- Locations ----------

  /** The fix mode: that of the last GSA sentence, 0 before the first. */
  function ModeOf(h: seq<string>): int {
    if h == [] then 0
    else
      match Sentence(h[|h| - 1])
      case None => ModeOf(h[..|h| - 1])
      case Some(f) => ModeAfter(f, ModeOf(h[..|h| - 1]))
  }

  /** What a line updates when it arrives in the given fix mode. */
  function LineUpdates(line: string, mode: int): Fix {
    match Sentence(line)
    case None => map[]
    case Some(f) => Updates(f, mode)
  }

  /** What each line updates. */
  function UpdatesOf(h: seq<string>): (us: seq<Fix>)
    ensures |us| == |h|
  {
    if h == [] then []
    else UpdatesOf(h[..|h| - 1]) + [LineUpdates(h[|h| - 1], ModeOf(h[..|h| - 1]))]
  }

  /** Line k is an RMC sentence with status A. */
  predicate FixAt(h: seq<string>, k: nat)
    requires k < |h|
  {
    Sentence(h[k]).Some? && IsFixRmc(Sentence(h[k]).value)
  }

  /** Where the lines since the last such sentence begin. */
  function SinceFix(h: seq<string>): (n: nat)
    ensures n <= |h|
  {
    if h == [] then 0
    else if FixAt(h, |h| - 1) then |h|
    else SinceFix(h[..|h| - 1])
  }

  /** Several updates as one, later ones replacing earlier ones. */
  function Collected(us: seq<Fix>): Fix {
    if us == [] then map[] else Collected(us[..|us| - 1]) + us[|us| - 1]
  }

  /** Update k is the last one of the field. */
  ghost predicate LastUpdate(us: seq<Fix>, field: Field, k: int) {
    0 <= k < |us| && field in us[k] && forall l :: k < l < |us| ==> field !in us[l]
  }

  /** Collected holds exactly the parts that some update has, each with the value of the last one. */
  lemma {:induction false} CollectedIsLatest(us: seq<Fix>, field: Field)
    ensures field in Collected(us) <==> exists k :: LastUpdate(us, field, k)
    ensures forall k :: LastUpdate(us, field, k) ==> field in Collected(us) && Collected(us)[field] == us[k][field]
  {
    if us != [] {
      var n := |us| - 1;
      CollectedIsLatest(us[..n], field);
      if field in us[n] {
        assert LastUpdate(us, field, n);
      } else {
        assert forall k :: LastUpdate(us, field, k) <==> LastUpdate(us[..n], field, k);
      }
    }
  }

  lemma CollectedStep(us: seq<Fix>, u: Fix)
    ensures Collected(us + [u]) == Collected(us) + u
  {
    assert (us + [u])[..|us|] == us;
  }

  /** The updates since the last reported fix. */
  function FreshUpdates(h: seq<string>): seq<Fix> {
    UpdatesOf(h)[SinceFix(h)..]
  }

  lemma LineMode(r: Reader, line: string)
    requires WellFormed(r)
    ensures AfterLine(r, line).fixMode == match Sentence(line)
                                          case None => r.fixMode
                                          case Some(f) => ModeAfter(f, r.fixMode)
  {
  }

  lemma {:induction false} ModeIsTracked(beyond: int -> bool, h: seq<string>)
    ensures After(beyond, h).fixMode == ModeOf(h)
  {
    if h != [] {
      LineMode(After(beyond, h[..|h| - 1]), h[|h| - 1]);
      ModeIsTracked(beyond, h[..|h| - 1]);
    }
  }

  /** The fix in progress is c: its parts are flagged and hold c's values. */
  ghost predicate FixIs(r: Reader, c: Fix) {
    r.flags == c.Keys && forall field :: field in c ==> field in r.values && r.values[field] == c[field]
  }

  lemma ApplyCollects(r: Reader, f: seq<string>, c: Fix)
    requires WellFormed(r) && Processed(f) && FixIs(r, c)
    ensures FixIs(Apply(r, f), c + Updates(f, r.fixMode))
  {
  }

  lemma Snoc<T>(h: seq<T>)
    requires h != []
    ensures h == h[..|h| - 1] + [h[|h| - 1]]
  {
  }

  lemma Append<T>(h: seq<T>, x: T)
    ensures (h + [x])[..|h|] == h && (h + [x])[|h|] == x
  {
  }

  /** The fix after the next line has been applied and before it reports. */
  lemma AppliedFix(beyond: int -> bool, h: seq<string>, f: seq<string>)
    requires Processed(f) && FixIs(After(beyond, h), Collected(FreshUpdates(h)))
    ensures FixIs(Apply(After(beyond, h), f), Collected(FreshUpdates(h) + [Updates(f, ModeOf(h))]))
  {
    ModeIsTracked(beyond, h);
    CollectedStep(FreshUpdates(h), Updates(f, ModeOf(h)));
    ApplyCollects(After(beyond, h), f, Collected(FreshUpdates(h)));
  }

  lemma FreshStep(h: seq<string>)
    requires h != []
    ensures var init := h[..|h| - 1];
            FreshUpdates(h) == if FixAt(h, |h| - 1) then []
                               else FreshUpdates(init) + [LineUpdates(h[|h| - 1], ModeOf(init))]
  {
  }

  lemma LineFix(r: Reader, line: string, c: Fix)
    requires WellFormed(r)
    requires match Sentence(line)
             case None => FixIs(r, c)
             case Some(f) => FixIs(Apply(r, f), c)
    ensures var fixed := Sentence(line).Some? && IsFixRmc(Sentence(line).value);
            FixIs(AfterLine(r, line), if fixed then map[] else c)
  {
  }

  /** Between sentences the fix in progress is what was collected since the last reported fix. */
  lemma {:induction false} FixIsCollected(beyond: int -> bool, h: seq<string>)
    ensures FixIs(After(beyond, h), Collected(FreshUpdates(h)))
  {
    if h != [] {
      var init, line := h[..|h| - 1], h[|h| - 1];
      FixIsCollected(beyond, init);
      FreshStep(h);
      match Sentence(line)
      case None =>
        CollectedStep(FreshUpdates(init), map[]);
      case Some(f) =>
        AppliedFix(beyond, init, f);
        LineFix(After(beyond, init), line, Collected(FreshUpdates(init) + [Updates(f, ModeOf(init))]));
    }
  }

  function Locations(rs: seq<Report>): seq<Report> {
    if rs == [] then [] else LocationOnly(rs[0]) + Locations(rs[1..])
  }

  function LocationOnly(x: Report): seq<Report> {
    if x.Location? then [x] else []
  }

  function SatelliteReports(rs: seq<Report>): seq<Report> {
    if rs == [] then [] else SatellitesOnly(rs[0]) + SatelliteReports(rs[1..])
  }

  function SatellitesOnly(x: Report): seq<Report> {
    if x.Satellites? then [x] else []
  }

  /** A location with exactly the parts of c and an accuracy, which is made up if c has none. */
  ghost predicate LocationFor(x: Report, c: Fix) {
    && x.Location? && x.flags == c.Keys + {Accuracy} && x.flags <= x.values.Keys
    && forall field :: field in x.flags ==> x.values[field] == if field in c then c[field] else MadeUp
  }

  lemma {:induction false} LocationsAppend(a: seq<Report>, b: seq<Report>)
    ensures Locations(a + b) == Locations(a) + Locations(b)
  {
    if a == [] {
      assert a + b == b;
    } else {
      assert (a + b)[1..] == a[1..] + b;
      LocationsAppend(a[1..], b);
      var x, y, z := LocationOnly(a[0]), Locations(a[1..]), Locations(b);
      assert x + (y + z) == x + y + z;
    }
  }

  lemma {:induction false} SatelliteReportsAppend(a: seq<Report>, b: seq<Report>)
    ensures SatelliteReports(a + b) == SatelliteReports(a) + SatelliteReports(b)
  {
    if a == [] {
      assert a + b == b;
    } else {
      assert (a + b)[1..] == a[1..] + b;
      SatelliteReportsAppend(a[1..], b);
      var x, y, z := SatellitesOnly(a[0]), SatelliteReports(a[1..]), SatelliteReports(b);
      assert x + (y + z) == x + y + z;
    }
  }

  lemma FilterOne(x: Report)
    ensures Locations([x]) == (if x.Location? then [x] else [])
    ensures SatelliteReports([x]) == (if x.Satellites? then [x] else [])
  {
    assert [x][1..] == [];
  }

  /** A location report or none, a satellite report or none, and the line. */
  lemma FilterThree(a: seq<Report>, b: seq<Report>, text: string)
    requires a == [] || (|a| == 1 && a[0].Location?)
    requires b == [] || (|b| == 1 && b[0].Satellites?)
    ensures Locations(a + b + [Line(text)]) == a && SatelliteReports(a + b + [Line(text)]) == b
  {
    LocationsAppend(a + b, [Line(text)]);
    LocationsAppend(a, b);
    SatelliteReportsAppend(a + b, [Line(text)]);
    SatelliteReportsAppend(a, b);
    FilterOne(Line(text));
    if a != [] {
      assert a == [a[0]];
      FilterOne(a[0]);
    }
    if b != [] {
      assert b == [b[0]];
      FilterOne(b[0]);
    }
  }

  /** The reports of a processed line, by kind. */
  lemma ReportsByKind(r: Reader, line: string, f: seq<string>)
    requires WellFormed(r) && Sentence(line) == Some(f)
    ensures var r1 := Apply(r, f);
            && Locations(LineReports(r, line)) == (if ReportsLocation(f) then [LocationOf(r1)] else [])
            && SatelliteReports(LineReports(r, line)) == (if ReportsSatellites(r1, f) then [SatellitesOf(r1)] else [])
  {
    var r1 := Apply(r, f);
    FilterThree(if ReportsLocation(f) then [LocationOf(r1)] else [],
                if ReportsSatellites(r1, f) then [SatellitesOf(r1)] else [], line);
  }

  lemma OtherLinesAreSilent(r: Reader, line: string)
    requires WellFormed(r) && Sentence(line).None?
    ensures Locations(LineReports(r, line)) == [] && SatelliteReports(LineReports(r, line)) == []
  {
    assert [] + [Line(line)] == [Line(line)];
    FilterOne(Line(line));
  }

  lemma LocationFits(r: Reader, c: Fix)
    requires FixIs(r, c)
    ensures LocationFor(LocationOf(r), c)
  {
  }

  /** MAIN RESULT. In every run the location callback fires for a line exactly when that line is a
      processed RMC with status A, once; and it carries an accuracy and exactly the parts updated
      since the last report, this line included, with their latest values. */
  lemma LocationReports(beyond: int -> bool, h: seq<string>, line: string)
    ensures var fixed := Sentence(line).Some? && IsFixRmc(Sentence(line).value);
            var locations := Locations(LastReports(beyond, h + [line]));
            if fixed
            then |locations| == 1
                 && LocationFor(locations[0], Collected(FreshUpdates(h) + [LineUpdates(line, ModeOf(h))]))
            else locations == []
  {
    Append(h, line);
    match Sentence(line)
    case None =>
      OtherLinesAreSilent(After(beyond, h), line);
    case Some(f) =>
      ReportsByKind(After(beyond, h), line, f);
      FixIsCollected(beyond, h);
      AppliedFix(beyond, h, f);
      LocationFits(Apply(After(beyond, h), f), Collected(FreshUpdates(h) + [LineUpdates(line, ModeOf(h))]));
  }

  // ---------- Satellites used in the fix ----------

  function NamedAt(h: seq<string>, k: nat): set<int>
    requires k < |h|
  {
    match Sentence(h[k])
    case None => {}
    case Some(f) => Named(f)
  }

  /** Line k brings a report of satellites (which clears the table). */
  predicate ClearsAt(beyond: int -> bool, h: seq<string>, k: nat)
    requires k < |h|
  {
    Sentence(h[k]).Some?
    && ReportsSatellites(Apply(After(beyond, h[..k]), Sentence(h[k]).value), Sentence(h[k]).value)
  }

  /** A satellite sentence with a fix has named the number, and no report has cleared it since. */
  ghost predicate NamedSinceClear(beyond: int -> bool, h: seq<string>, id: int) {
    exists k :: 0 <= k < |h| && id in NamedAt(h, k) && StillThere(beyond, h, k)
  }

  ghost predicate StillThere(beyond: int -> bool, h: seq<string>, k: nat) {
    forall l :: k < l < |h| ==> !ClearsAt(beyond, h, l)
  }

  lemma EarlierLines(beyond: int -> bool, h: seq<string>, line: string)
    ensures var h' := h + [line];
            && (forall k :: 0 <= k < |h| ==> NamedAt(h', k) == NamedAt(h, k))
            && (forall k :: 0 <= k < |h| ==> ClearsAt(beyond, h', k) == ClearsAt(beyond, h, k))
  {
    hide After, Apply, Named, ReportsSatellites, Sentence;
    var h' := h + [line];
    assert forall k :: 0 <= k < |h| ==> h'[..k] == h[..k] && h'[k] == h[k];
  }

  lemma NamedSinceStep(beyond: int -> bool, h: seq<string>, line: string, id: int)
    ensures var h' := h + [line];
            NamedSinceClear(beyond, h', id)
            <==> id in NamedAt(h', |h|) || (NamedSinceClear(beyond, h, id) && !ClearsAt(beyond, h', |h|))
  {
    hide NamedAt, ClearsAt;
    var h' := h + [line];
    EarlierLines(beyond, h, line);
    if id in NamedAt(h', |h|) {
      assert StillThere(beyond, h', |h|);
    } else {
      if NamedSinceClear(beyond, h', id) {
        var k :| 0 <= k < |h'| && id in NamedAt(h', k) && StillThere(beyond, h', k);
        assert !ClearsAt(beyond, h', |h|);
        assert id in NamedAt(h, k) && StillThere(beyond, h, k);
      }
      if NamedSinceClear(beyond, h, id) && !ClearsAt(beyond, h', |h|) {
        var k :| 0 <= k < |h| && id in NamedAt(h, k) && StillThere(beyond, h, k);
        assert StillThere(beyond, h', k);
        assert id in NamedAt(h', k);
      }
    }
  }

  lemma UsedStep(r: Reader, line: string, id: int)
    requires WellFormed(r) && 0 <= id < USED_TABLE
    ensures match Sentence(line)
            case None => AfterLine(r, line).used[id] == r.used[id]
            case Some(f) =>
              AfterLine(r, line).used[id]
              == (id in Named(f) || (r.used[id] && !ReportsSatellites(Apply(r, f), f)))
  {
    match Sentence(line)
    case None =>
    case Some(f) =>
      AppliedUsed(r, f, id);
      if KindOf(f) == Gsa {
        assert !ReportsSatellites(Apply(r, f), f);
      }
  }

  lemma AppliedUsed(r: Reader, f: seq<string>, id: int)
    requires WellFormed(r) && Processed(f) && 0 <= id < USED_TABLE
    ensures Apply(r, f).used[id] == (r.used[id] || id in Named(f))
  {
  }

  /** In every run the table marks exactly the numbers named since the last report of satellites. */
  lemma {:induction false} UsedIff(beyond: int -> bool, h: seq<string>, id: int)
    requires 0 <= id < USED_TABLE
    ensures After(beyond, h).used[id] <==> NamedSinceClear(beyond, h, id)
  {
    if h != [] {
      var init, line := h[..|h| - 1], h[|h| - 1];
      Snoc(h);
      UsedIff(beyond, init, id);
      NamedSinceStep(beyond, init, line, id);
      UsedStep(After(beyond, init), line, id);
      assert h[..|init|] == init;
    }
  }

  /** MAIN RESULT. A satellite entry with a normalised number below 256 is flagged as used in the fix
      if and only if a GSA with fix mode 2 or 3, later than the last report of satellites, named that
      number before its first empty slot. */
  lemma EntryUsedIff(beyond: int -> bool, h: seq<string>, f: seq<string>, k: nat)
    requires Processed(f) && 0 <= GsvPrn(f, Talker(f), k) < USED_TABLE
    requires GsvEntry(f, Talker(f), After(beyond, h), k).Some?
    ensures GsvEntry(f, Talker(f), After(beyond, h), k).value.used
            <==> NamedSinceClear(beyond, h, GsvPrn(f, Talker(f), k))
  {
    UsedIff(beyond, h, GsvPrn(f, Talker(f), k));
  }

  // ---------- Satellites in view ----------

  /** Where a run stands with respect to groups of satellite messages. */
  datatype Group = Between | Within(next: int, num: int, count: int) | Broken

  /** Groups come as messages 1..num with one non-negative count. An RMC starts afresh. */
  function GroupNext(g: Group, f: seq<string>): Group
    requires Processed(f)
  {
    match KindOf(f)
    case Rmc => Between
    case Gsv =>
      if g.Between? && GsvSeq(f) == 1 && GsvNum(f) >= 1 && GsvCount(f) >= 0
      then (if GsvNum(f) == 1 then Between else Within(2, GsvNum(f), GsvCount(f)))
      else if g == Within(GsvSeq(f), GsvNum(f), GsvCount(f))
      then (if GsvSeq(f) == GsvNum(f) then Between else Within(GsvSeq(f) + 1, GsvNum(f), GsvCount(f)))
      else Broken
    case _ => g
  }

  function GroupAfter(h: seq<string>): Group {
    if h == [] then Between
    else
      match Sentence(h[|h| - 1])
      case None => GroupAfter(h[..|h| - 1])
      case Some(f) => GroupNext(GroupAfter(h[..|h| - 1]), f)
  }

  /** The accepted satellites of all messages since the last RMC, in order. */
  function Seen(beyond: int -> bool, h: seq<string>): seq<Sv> {
    if h == [] then []
    else
      var init := h[..|h| - 1];
      match Sentence(h[|h| - 1])
      case None => Seen(beyond, init)
      case Some(f) =>
        match KindOf(f)
        case Rmc => []
        case Gsv => Seen(beyond, init) + Accepted(f, Talker(f), After(beyond, init), GsvEntries(f))
        case _ => Seen(beyond, init)
  }

  /** Those of the messages that belong to a finished group. */
  function SeenWhole(beyond: int -> bool, h: seq<string>): seq<Sv> {
    if h == [] then []
    else
      var init := h[..|h| - 1];
      match Sentence(h[|h| - 1])
      case None => SeenWhole(beyond, init)
      case Some(f) =>
        match KindOf(f)
        case Rmc => []
        case Gsv => if GroupAfter(h) == Between then Seen(beyond, h) else SeenWhole(beyond, init)
        case _ => SeenWhole(beyond, init)
  }

  function Cut(s: seq<Sv>): seq<Sv> {
    s[..Min(|s|, GNSS_MAX_SVS)]
  }

  /** The reader's list holds the satellites seen, cut at its capacity, and those of finished groups count. */
  ghost predicate Lists(r: Reader, g: Group, seen: seq<Sv>, whole: seq<Sv>)
    requires WellFormed(r)
  {
    var c := Cut(seen);
    && r.svs[..|c|] == c && r.numSvs == |Cut(whole)| && whole <= seen
    && (g.Between? ==> whole == seen)
    && (g.Within? ==>
          && 2 <= g.next <= g.num && 0 <= g.count && r.numSvs + r.svCount == |c|
          && r.svCount <= g.count && r.svCount <= NMEA_MAX_SV_INFO * (g.next - 1))
  }

  lemma CutMore(s: seq<Sv>, more: seq<Sv>)
    ensures Cut(s + more) == Cut(s) + more[..Min(|more|, GNSS_MAX_SVS - |Cut(s)|)]
  {
  }

  lemma ExtendedLists(r: Reader, seen: seq<Sv>, more: seq<Sv>)
    requires WellFormed(r) && r.svCount + r.numSvs == |Cut(seen)| && r.svs[..|Cut(seen)|] == Cut(seen)
    ensures var r', c := Extended(r, more), Cut(seen + more);
            && r'.numSvs == r.numSvs && r'.svCount <= r.svCount + |more|
            && r'.svCount + r'.numSvs == |c| && r'.svs[..|c|] == c
  {
    CutMore(seen, more);
  }

  /** A message that continues its group keeps the list in step, and the last one commits it. */
  lemma GsvLists(r: Reader, f: seq<string>, g: Group, seen: seq<Sv>, whole: seq<Sv>)
    requires WellFormed(r) && Processed(f) && KindOf(f) == Gsv
    requires Lists(r, g, seen, whole) && GroupNext(g, f) != Broken
    ensures var g', seen' := GroupNext(g, f), seen + Accepted(f, Talker(f), r, GsvEntries(f));
            Lists(AfterGsv(r, f, Talker(f)), g', seen', if g' == Between then seen' else whole)
  {
    ExtendedLists(Restarted(r, GsvSeq(f)), seen, Accepted(f, Talker(f), r, GsvEntries(f)));
  }

  lemma SameAccepted(f: seq<string>, talker: Constellation, r: Reader, r': Reader, n: int)
    requires WellFormed(r) && WellFormed(r') && r.used == r'.used && r.beyond == r'.beyond
    ensures Accepted(f, talker, r, n) == Accepted(f, talker, r', n)
    decreases n
  {
    if n > 0 {
      SameAccepted(f, talker, r, r', n - 1);
    }
  }

  /** A line other than an RMC. */
  lemma LineLists(r: Reader, line: string, g: Group, seen: seq<Sv>, whole: seq<Sv>, f: seq<string>)
    requires WellFormed(r) && Sentence(line) == Some(f) && KindOf(f) != Rmc
    requires Lists(r, g, seen, whole) && GroupNext(g, f) != Broken
    ensures if KindOf(f) == Gsv then
              var seen' := seen + Accepted(f, Talker(f), r, GsvEntries(f));
              Lists(AfterLine(r, line), GroupNext(g, f), seen', if GroupNext(g, f) == Between then seen' else whole)
            else
              Lists(AfterLine(r, line), GroupNext(g, f), seen, whole)
  {
    match KindOf(f)
    case Gsv =>
      var r1 := WithUpdates(r, Updates(f, r.fixMode)).(fixMode := ModeAfter(f, r.fixMode));
      SameAccepted(f, Talker(f), r, r1, GsvEntries(f));
      GsvLists(r1, f, g, seen, whole);
    case _ =>
  }

  /** Whatever came before, an RMC leaves an empty list. */
  lemma RmcEmptiesList(r: Reader, line: string)
    requires WellFormed(r) && Sentence(line).Some? && KindOf(Sentence(line).value) == Rmc
    ensures Lists(AfterLine(r, line), Between, [], [])
  {
  }

  lemma {:induction false} RunLists(beyond: int -> bool, h: seq<string>)
    requires GroupAfter(h) != Broken
    ensures Lists(After(beyond, h), GroupAfter(h), Seen(beyond, h), SeenWhole(beyond, h))
  {
    hide Lists, AfterLine, GroupNext, Sentence, KindOf;
    if h == [] {
      NothingListed(beyond);
    } else {
      var init, line := h[..|h| - 1], h[|h| - 1];
      match Sentence(line)
      case None =>
        RunLists(beyond, init);
        SilentLine(After(beyond, init), line);
      case Some(f) =>
        SentenceIsProcessed(line);
        if KindOf(f) == Rmc {
          RmcEmptiesList(After(beyond, init), line);
          StartsAfresh(GroupAfter(init), f);
        } else {
          NeverMends(GroupAfter(init), f);
          RunLists(beyond, init);
          LineLists(After(beyond, init), line, GroupAfter(init), Seen(beyond, init), SeenWhole(beyond, init), f);
        }
    }
  }

  lemma SentenceIsProcessed(line: string)
    ensures Sentence(line).Some? ==> Processed(Sentence(line).value)
  {
  }

  lemma NothingListed(beyond: int -> bool)
    ensures Lists(After(beyond, []), Between, [], [])
  {
  }

  lemma SilentLine(r: Reader, line: string)
    requires WellFormed(r) && Sentence(line).None?
    ensures AfterLine(r, line) == r
  {
  }

  lemma StartsAfresh(g: Group, f: seq<string>)
    requires Processed(f) && KindOf(f) == Rmc
    ensures GroupNext(g, f) == Between
  {
  }

  /** Up to the next RMC. */
  lemma NeverMends(g: Group, f: seq<string>)
    requires Processed(f) && KindOf(f) != Rmc && GroupNext(g, f) != Broken
    ensures g != Broken && (KindOf(f) != Gsv ==> GroupNext(g, f) == g)
  {
  }

  /** MAIN RESULT. Whatever came before the last RMC, if the groups since then are properly numbered, the
      next RMC reports satellites exactly when some were accepted in a finished group, and then exactly
      those, in order, cut at the capacity; that is all of them unless a group has been left unfinished. */
  lemma SatelliteListReports(beyond: int -> bool, h: seq<string>, line: string, f: seq<string>)
    requires Sentence(line) == Some(f) && KindOf(f) == Rmc && GroupAfter(h) != Broken
    ensures var c := Cut(SeenWhole(beyond, h));
            SatelliteReports(LastReports(beyond, h + [line])) == if c == [] then [] else [Satellites(|c|, c)]
    ensures GroupAfter(h) == Between ==> SeenWhole(beyond, h) == Seen(beyond, h)
  {
    hide After, Seen, SeenWhole;
    Append(h, line);
    RunLists(beyond, h);
    RmcReportsCounted(After(beyond, h), line, GroupAfter(h), Seen(beyond, h), SeenWhole(beyond, h));
  }

  lemma RmcReportsCounted(r: Reader, line: string, g: Group, seen: seq<Sv>, whole: seq<Sv>)
    requires WellFormed(r) && Sentence(line).Some? && KindOf(Sentence(line).value) == Rmc && Lists(r, g, seen, whole)
    ensures var c := Cut(whole);
            SatelliteReports(LineReports(r, line)) == if c == [] then [] else [Satellites(|c|, c)]
  {
    hide LineReports, Sentence, KindOf, SatelliteReports;
    RmcReportsList(r, line);
    assert Cut(whole) == Cut(seen)[..|Cut(whole)|];
    assert r.svs[..|Cut(whole)|] == r.svs[..|Cut(seen)|][..|Cut(whole)|];
  }

  // ---------- Whether the number of satellites fits the list ----------

  /** In every run of properly numbered groups it does. */
  lemma CountFitsList(beyond: int -> bool, h: seq<string>)
    requires GroupAfter(h) != Broken
    ensures 0 <= After(beyond, h).numSvs <= GNSS_MAX_SVS
  {
    RunLists(beyond, h);
  }

  /** The last message of a group, but not its only one, arrives when what is counted and what is committed
      add up to more than there is room for, and it announces at least what is counted. */
  predicate Overcommits(r: Reader, f: seq<string>)
    requires Processed(f)
  {
    KindOf(f) == Gsv && GsvSeq(f) == GsvNum(f) != 1 && r.svCount + r.numSvs > GNSS_MAX_SVS && r.svCount <= GsvCount(f)
  }

  lemma LineFitsIff(r: Reader, line: string)
    requires WellFormed(r) && r.numSvs <= GNSS_MAX_SVS
    ensures AfterLine(r, line).numSvs <= GNSS_MAX_SVS
            <==> !(Sentence(line).Some? && Overcommits(r, Sentence(line).value))
  {
  }

  predicate OvercommitsAt(beyond: int -> bool, h: seq<string>, k: nat)
    requires k < |h|
  {
    Sentence(h[k]).Some? && Overcommits(After(beyond, h[..k]), Sentence(h[k]).value)
  }

  ghost predicate AlwaysFits(beyond: int -> bool, h: seq<string>) {
    forall k :: 0 <= k <= |h| ==> After(beyond, h[..k]).numSvs <= GNSS_MAX_SVS
  }

  ghost predicate NeverOvercommits(beyond: int -> bool, h: seq<string>) {
    forall k :: 0 <= k < |h| ==> !OvercommitsAt(beyond, h, k)
  }

  lemma AlwaysFitsStep(beyond: int -> bool, h: seq<string>, line: string)
    ensures AlwaysFits(beyond, h + [line])
            <==> AlwaysFits(beyond, h) && After(beyond, h + [line]).numSvs <= GNSS_MAX_SVS
  {
    hide After;
    var h' := h + [line];
    assert h'[..|h'|] == h' && forall k :: 0 <= k <= |h| ==> h'[..k] == h[..k];
    if AlwaysFits(beyond, h') {
      assert forall k :: 0 <= k <= |h| ==> After(beyond, h'[..k]) == After(beyond, h[..k]);
    }
  }

  lemma NeverOvercommitsStep(beyond: int -> bool, h: seq<string>, line: string)
    ensures NeverOvercommits(beyond, h + [line])
            <==> NeverOvercommits(beyond, h)
                 && !(Sentence(line).Some? && Overcommits(After(beyond, h), Sentence(line).value))
  {
    hide After, Overcommits, Sentence;
    SentenceIsProcessed(line);
    var h' := h + [line];
    assert h'[..|h|] == h && forall k :: 0 <= k < |h| ==> h'[..k] == h[..k] && h'[k] == h[k];
    assert forall k :: 0 <= k < |h| ==> OvercommitsAt(beyond, h', k) == OvercommitsAt(beyond, h, k);
    assert OvercommitsAt(beyond, h', |h|)
        == (Sentence(line).Some? && Overcommits(After(beyond, h), Sentence(line).value));
  }

  /** MAIN RESULT. In any run at all the number of satellites fits the list throughout if and only if no
      line is such a message. */
  lemma {:induction false} AlwaysFitsIff(beyond: int -> bool, h: seq<string>)
    ensures AlwaysFits(beyond, h) <==> NeverOvercommits(beyond, h)
  {
    if h == [] {
      CountStartsAtZero(beyond);
    } else {
      hide *;
      var init, line := h[..|h| - 1], h[|h| - 1];
      AlwaysFitsIff(beyond, init);
      Snoc(h);
      SentenceIsProcessed(line);
      AlwaysFitsStep(beyond, init, line);
      NeverOvercommitsStep(beyond, init, line);
      FitsNow(beyond, init);
      OneMoreLine(beyond, init, line);
      if After(beyond, init).numSvs <= GNSS_MAX_SVS {
        LineFitsIff(After(beyond, init), line);
      }
    }
  }

  lemma FitsNow(beyond: int -> bool, h: seq<string>)
    ensures AlwaysFits(beyond, h) ==> After(beyond, h).numSvs <= GNSS_MAX_SVS
  {
    assert h[..|h|] == h;
  }

  lemma CountStartsAtZero(beyond: int -> bool)
    ensures After(beyond, []).numSvs == 0
  {
  }

  /** Once the list is full, such a message makes the next RMC report more satellites than it lists. */
  lemma OvercommitIsReported(beyond: int -> bool, h: seq<string>, line: string, f: seq<string>, rmc: string)
    requires Sentence(line) == Some(f) && KindOf(f) == Gsv && GsvSeq(f) == GsvNum(f) != 1
    requires var r := After(beyond, h); r.svCount + r.numSvs >= GNSS_MAX_SVS && r.svCount <= GsvCount(f)
    requires Sentence(rmc).Some? && KindOf(Sentence(rmc).value) == Rmc
    ensures var r := After(beyond, h);
            SatelliteReports(LastReports(beyond, h + [line] + [rmc])) == [Satellites(r.svCount + r.numSvs, r.svs)]
  {
    hide After, AfterLine, LineReports, SatelliteReports, Sentence, KindOf, Min;
    var r := After(beyond, h);
    OneMoreLine(beyond, h, line);
    Append(h + [line], rmc);
    CommittedAgain(r, line, f);
    RmcReportsList(AfterLine(r, line), rmc);
  }

  lemma CommittedAgain(r: Reader, line: string, f: seq<string>)
    requires WellFormed(r) && r.svCount + r.numSvs >= GNSS_MAX_SVS && r.svCount <= GsvCount(f)
    requires Sentence(line) == Some(f) && KindOf(f) == Gsv && GsvSeq(f) == GsvNum(f) != 1
    ensures var r' := AfterLine(r, line); r'.numSvs == r.svCount + r.numSvs && r'.svs == r.svs
  {
  }

  /** A last message that announces fewer satellites than are counted drops them and all committed before:
      the next RMC reports none. */
  lemma IncompleteIsDropped(beyond: int -> bool, h: seq<string>, line: string, f: seq<string>, rmc: string)
    requires Sentence(line) == Some(f) && KindOf(f) == Gsv && GsvSeq(f) == GsvNum(f) != 1
    requires After(beyond, h).svCount > GsvCount(f)
    requires Sentence(rmc).Some? && KindOf(Sentence(rmc).value) == Rmc
    ensures SatelliteReports(LastReports(beyond, h + [line] + [rmc])) == []
  {
    hide After, AfterLine, LineReports, SatelliteReports, Sentence, KindOf, Min;
    OneMoreLine(beyond, h, line);
    Append(h + [line], rmc);
    Dropped(After(beyond, h), line, f);
    RmcReportsList(AfterLine(After(beyond, h), line), rmc);
  }

  lemma Dropped(r: Reader, line: string, f: seq<string>)
    requires WellFormed(r) && r.svCount > GsvCount(f)
    requires Sentence(line) == Some(f) && KindOf(f) == Gsv && GsvSeq(f) == GsvNum(f) != 1
    ensures AfterLine(r, line).numSvs == 0 && AfterLine(r, line).svCount == 0
  {
  }

  /** An RMC reports the list as it is. */
  lemma RmcReportsList(r: Reader, rmc: string)
    requires WellFormed(r) && Sentence(rmc).Some? && KindOf(Sentence(rmc).value) == Rmc
    ensures SatelliteReports(LineReports(r, rmc)) == if r.numSvs == 0 then [] else [SatellitesOf(r)]
    ensures r.numSvs >= GNSS_MAX_SVS ==> SatellitesOf(r) == Satellites(r.numSvs, r.svs)
  {
    ReportsByKind(r, rmc, Sentence(rmc).value);
    assert r.svs[..GNSS_MAX_SVS] == r.svs;
  }

  /** No other line ever reports satellites. */
  lemma OnlyRmcReportsSatellites(beyond: int -> bool, h: seq<string>, line: string)
    requires SatelliteReports(LastReports(beyond, h + [line])) != []
    ensures Sentence(line).Some? && KindOf(Sentence(line).value) == Rmc
  {
    Append(h, line);
    match Sentence(line)
    case None =>
      OtherLinesAreSilent(After(beyond, h), line);
    case Some(f) =>
      ReportsByKind(After(beyond, h), line, f);
  }
}
