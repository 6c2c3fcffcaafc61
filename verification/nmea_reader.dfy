/** The GPS reader itself: framer, tokenizer and sentence interpreter over its own buffers. */
module NmeaReading {
  import opened Common
  import opened NmeaTokenizer
  import opened NmeaSentence
  import opened NmeaHistory
  import Fr = NmeaFramer

  class NmeaReader {
    var pos: nat
    var overflow: bool
    const buf: array<char>
    const tzer: Tokenizer
    var fixMode: int
    var flags: set<Field>
    var values: Fix
    var locationCanReport: bool
    var svStatusCanReport: bool
    var svCount: int
    var numSvs: int
    const svs: array<Sv>
    const used: array<bool>
    const beyond: int -> bool
    /** What the callbacks have been given. */
    var reports: seq<Report>
    /** The lines handed on by the framer. */
    ghost var history: seq<string>

    ghost predicate Shaped()
      reads this, tzer, svs, used
    {
      && buf.Length == Fr.NMEA_MAX_SIZE + 1 && pos <= Fr.NMEA_MAX_SIZE
      && tzer.buf == buf && tzer.tokens.Length == MAX_NMEA_TOKENS
      && svs.Length == GNSS_MAX_SVS && used.Length == USED_TABLE && 0 <= svCount && 0 <= numSvs
    }

    ghost function State(): (r: Reader)
      reads this, svs, used
    {
      Reader(fixMode, flags, values, svCount, numSvs, svs[..], used[..], beyond)
    }

    ghost function Framing(): Fr.Framer
      requires Shaped()
      reads this, buf, tzer, svs, used
    {
      Fr.Framer(overflow, buf[..pos])
    }

    /** Between two characters: nothing is waiting to be reported, and state and reports are those of
        the lines so far. */
    ghost predicate Valid()
      reads this, buf, tzer, svs, used
    {
      && Shaped() && (overflow ==> pos == 0) && !locationCanReport && !svStatusCanReport
      && UpToDate()
    }

    ghost predicate UpToDate()
      reads this, svs, used
    {
      State() == After(beyond, history) && reports == ReportsOf(beyond, history)
    }

    constructor (beyond: int -> bool)
      ensures Valid() && Framing() == Fr.IDLE && history == [] && this.beyond == beyond
      ensures fresh(buf) && fresh(tzer) && fresh(tzer.tokens) && fresh(svs) && fresh(used)
    {
      pos, overflow, fixMode, flags, values := 0, false, 0, {}, map[];
      locationCanReport, svStatusCanReport, svCount, numSvs := false, false, 0, 0;
      var b := new char[Fr.NMEA_MAX_SIZE + 1](_ => '\0');
      buf := b;
      tzer := new Tokenizer(b);
      svs := new Sv[GNSS_MAX_SVS](_ => Sv(0, Gps, "", 0, 0, false));
      used := new bool[USED_TABLE](_ => false);
      this.beyond := beyond;
      reports, history := [], [];
    }

    // ---------- Field setters ----------

    method UpdatePosition(latitude: string, ns: char, longitude: string, ew: char)
      modifies this`flags, this`values
      ensures flags == old(flags) + PositionUpdate(latitude, ns, longitude, ew).Keys
      ensures values == old(values) + PositionUpdate(latitude, ns, longitude, ew)
    {
      if |latitude| < 6 {
        return;
      }
      if |longitude| < 6 {
        return;
      }
      flags := flags + {LatLong};
      values := values[LatLong := Position(latitude, ns == 'S', longitude, ew == 'W')];
    }

    method UpdateNumber(field: Field, text: string)
      modifies this`flags, this`values
      ensures flags == old(flags) + NumberUpdate(field, text).Keys
      ensures values == old(values) + NumberUpdate(field, text)
    {
      if text == "" {
        return;
      }
      flags := flags + {field};
      values := values[field := Number(text)];
    }

    method IntField(k: nat, ghost f: seq<string>) returns (n: int)
      requires tzer.Holds(f)
      ensures n == IntOf(TextAt(f, k))
    {
      var text := tzer.Text(k, f);
      n := Str2Int(text);
    }

    // ---------- Sentences ----------

    method ParseGga(ghost f: seq<string>)
      requires tzer.Holds(f)
      modifies this`flags, this`values
      ensures flags == old(flags) + GgaUpdates(f).Keys && values == old(values) + GgaUpdates(f)
    {
      var latitude := tzer.Text(2, f);
      var ns := tzer.Head(3, f);
      var longitude := tzer.Text(4, f);
      var ew := tzer.Head(5, f);
      var altitude := tzer.Text(9, f);
      MergeTwice(values, PositionAt(f, 2), NumberUpdate(Altitude, TextAt(f, 9)));
      UpdatePosition(latitude, ns, longitude, ew);
      UpdateNumber(Altitude, altitude);
    }

    method ParseRmc(ghost f: seq<string>)
      requires tzer.Holds(f)
      modifies this`flags, this`values, this`locationCanReport, this`svStatusCanReport
      ensures flags == old(flags) + RmcUpdates(f).Keys && values == old(values) + RmcUpdates(f)
      ensures locationCanReport == (old(locationCanReport) || HeadAt(f, 2) == 'A') && svStatusCanReport
    {
      hide PositionUpdate, NumberUpdate, TextAt, HeadAt;
      var status := tzer.Head(2, f);
      var latitude := tzer.Text(3, f);
      var ns := tzer.Head(4, f);
      var longitude := tzer.Text(5, f);
      var ew := tzer.Head(6, f);
      var speed := tzer.Text(7, f);
      var bearing := tzer.Text(8, f);
      if status == 'A' {
        ghost var p, b, s := PositionAt(f, 3), NumberUpdate(Bearing, TextAt(f, 8)), NumberUpdate(Speed, TextAt(f, 7));
        MergeThree(flags, values, p, b, s);
        UpdatePosition(latitude, ns, longitude, ew);
        UpdateNumber(Bearing, bearing);
        UpdateNumber(Speed, speed);
        locationCanReport := true;
      }
      svStatusCanReport := true;
    }

    /** The accuracy in field k, which only counts with a fix. */
    method ParseAccuracy(k: nat, ghost f: seq<string>)
      requires tzer.Holds(f)
      modifies this`flags, this`values
      ensures flags == old(flags) + AccuracyUpdates(f, k, fixMode).Keys
      ensures values == old(values) + AccuracyUpdates(f, k, fixMode)
    {
      if fixMode == 3 || fixMode == 2 {
        var accuracy := tzer.Text(k, f);
        UpdateNumber(Accuracy, accuracy);
      }
    }

    method ParseGsa(talker: Constellation, ghost f: seq<string>)
      requires Shaped() && tzer.Holds(f)
      modifies this`flags, this`values, this`fixMode, used
      ensures fixMode == IntOf(TextAt(f, 2)) && used[..] == Marked(old(used[..]), GsaNamed(f, talker))
      ensures flags == old(flags) + AccuracyUpdates(f, 15, fixMode).Keys
      ensures values == old(values) + AccuracyUpdates(f, 15, fixMode)
    {
      hide IntOf, TextAt, NamedFrom, NumberUpdate;
      var which := tzer.Head(18, f);
      var system := talker;
      match which {
        case '1' => system := Gps;
        case '2' => system := Glonass;
        case '4' => system := Beidou;
        case _ =>
      }
      fixMode := IntField(2, f);
      if fixMode == 2 || fixMode == 3 {
        ParseAccuracy(15, f);
        MarkUsed(system, f);
      }
    }

    method MarkUsed(system: Constellation, ghost f: seq<string>)
      requires Shaped() && tzer.Holds(f)
      modifies used
      ensures used[..] == Marked(old(used[..]), NamedFrom(f, system, 0))
    {
      hide GetSvid, IntOf;
      ghost var seen: set<int> := {};
      for k := 0 to GSA_SATELLITES
        invariant NamedFrom(f, system, 0) == seen + NamedFrom(f, system, k)
        invariant forall i :: 0 <= i < USED_TABLE ==> used[i] == (old(used[i]) || i in seen)
      {
        var text := tzer.Text(k + 3, f);
        if text == "" {
          return;
        }
        var prn := Str2Int(text);
        var svid := GetSvid(prn, system);
        if 0 <= svid < USED_TABLE {
          used[svid] := true;
        }
        seen := seen + {svid};
      }
    }

    /** One satellite in view; it is dropped when the list is full or its number is not listed. */
    method UpdateSv(prn: int, elevation: int, azimuth: int, snr: string)
      requires Shaped()
      modifies this`svCount, svs
      ensures Shaped()
      ensures State() == Extended(old(State()), ToSeq(SvFor(old(State()), prn, elevation, azimuth, snr)))
    {
      var at := svCount + numSvs;
      if GNSS_MAX_SVS <= at {
        return;
      }
      var id := Listed(prn);
      if id.None? {
        return;
      }
      var flag := if 0 <= prn < USED_TABLE then used[prn] else beyond(prn);
      svs[at] := Sv(id.value.0, id.value.1, snr, elevation, azimuth, flag);
      svCount := svCount + 1;
    }

    method ParseGsv(talker: Constellation, ghost f: seq<string>)
      requires Shaped() && tzer.Holds(f)
      modifies this`svCount, this`numSvs, svs
      ensures Shaped() && State() == AfterGsv(old(State()), f, talker)
    {
      ghost var r := State();
      var num := IntField(1, f);
      var sequence := IntField(2, f);
      var count := IntField(3, f);
      var n := count - (sequence - 1) * NMEA_MAX_SV_INFO;
      if n > NMEA_MAX_SV_INFO {
        n := NMEA_MAX_SV_INFO;
      }
      assert n == GsvEntries(f);
      if sequence == 1 {
        svCount := 0;
      }
      assert State() == Restarted(r, sequence);
      ListEntries(talker, n, r, f);
      Commit(num, sequence, count);
    }

    method Commit(num: int, sequence: int, count: int)
      requires Shaped()
      modifies this`svCount, this`numSvs
      ensures Shaped() && State() == Committed(old(State()), num, sequence, count)
    {
      if sequence == num {
        if svCount <= count {
          numSvs := numSvs + svCount;
        } else {
          svCount, numSvs := 0, 0;
        }
      }
    }

    method ListEntries(talker: Constellation, n: int, ghost r: Reader, ghost f: seq<string>)
      requires Shaped() && tzer.Holds(f)
      requires WellFormed(r) && r.used == used[..] && r.beyond == beyond
      modifies this`svCount, svs
      ensures Shaped() && State() == Extended(old(State()), Accepted(f, talker, r, n))
    {
      hide Extended, Accepted, GsvEntry;
      ghost var s := State();
      NoEntries(s, f, talker, r, n);
      var k := 0;
      while k < n
        invariant 0 <= k <= Max(n, 0)
        invariant Shaped() && State() == Extended(s, Accepted(f, talker, r, k)) && r.used == used[..]
      {
        EntryStep(s, f, talker, r, k);
        ListEntry(talker, k, r, f);
        k := k + 1;
      }
    }

    method ListEntry(talker: Constellation, k: nat, ghost r: Reader, ghost f: seq<string>)
      requires Shaped() && tzer.Holds(f)
      requires WellFormed(r) && r.used == used[..] && r.beyond == beyond
      modifies this`svCount, svs
      ensures Shaped()
      ensures State() == Extended(old(State()), ToSeq(GsvEntry(f, talker, r, k)))
    {
      hide Extended, SvFor, TextAt, IntOf, GetSvid;
      ghost var at := 4 * (k + 1);
      SameSv(r, State(), GsvPrn(f, talker, k), IntOf(TextAt(f, at + 1)), IntOf(TextAt(f, at + 2)), TextAt(f, at + 3));
      var prn := IntField(4 * (k + 1), f);
      var svid := GetSvid(prn, talker);
      var elevation := IntField(4 * (k + 1) + 1, f);
      var azimuth := IntField(4 * (k + 1) + 2, f);
      var snr := tzer.Text(4 * (k + 1) + 3, f);
      UpdateSv(svid, elevation, azimuth, snr);
    }

    /** The sentence types, told apart by the characters behind the talker. */
    method Dispatch(id: string, ghost f: seq<string>)
      requires Shaped() && tzer.Holds(f) && Processed(f) && id == f[0] && !locationCanReport && !svStatusCanReport
      modifies this`fixMode, this`flags, this`values, this`svCount, this`numSvs, svs, used
      modifies this`locationCanReport, this`svStatusCanReport
      ensures Shaped() && State() == Apply(old(State()), f)
      ensures locationCanReport == IsFixRmc(f) && svStatusCanReport == (KindOf(f) == Rmc)
    {
      var talker := TalkerOfId(id);
      match KindOfId(id) {
        case Gga =>
          ParseGga(f);
        case Gsa =>
          ParseGsa(talker, f);
        case Rmc =>
          ParseRmc(f);
        case Gsv =>
          NoUpdates(State(), f);
          ParseGsv(talker, f);
        case AccuracyReport =>
          ParseAccuracy(1, f);
        case Unknown =>
          NoUpdates(State(), f);
      }
    }

    method ReportLocation()
      requires locationCanReport
      modifies this`flags, this`values, this`reports, this`locationCanReport
      ensures reports == old(reports) + [LocationOf(old(State()))]
      ensures flags == {} && values == LocationOf(old(State())).values && !locationCanReport
    {
      if Accuracy !in flags {
        flags, values := flags + {Accuracy}, values[Accuracy := MadeUp];
      }
      assert flags == old(flags) + {Accuracy};
      reports := reports + [Location(flags, values)];
      flags, locationCanReport := {}, false;
    }

    method ReportSatellites()
      requires Shaped() && svStatusCanReport
      modifies this`svCount, this`numSvs, this`reports, this`svStatusCanReport, used
      ensures Shaped() && !svStatusCanReport
      ensures numSvs == 0
      ensures old(numSvs) == 0 ==> reports == old(reports) && used[..] == old(used[..]) && svCount == old(svCount)
      ensures old(numSvs) != 0 ==>
                && reports == old(reports) + [SatellitesOf(old(State()))]
                && used[..] == seq(USED_TABLE, _ => false) && svCount == 0
    {
      svStatusCanReport := false;
      if numSvs != 0 {
        reports := reports + [Satellites(numSvs, svs[..Min(numSvs, GNSS_MAX_SVS)])];
        assert svs[..Min(numSvs, GNSS_MAX_SVS)] == svs[..][..Min(numSvs, GNSS_MAX_SVS)];
        svCount, numSvs := 0, 0;
        forall i | 0 <= i < USED_TABLE {
          used[i] := false;
        }
      }
    }

    /** A complete line in the buffer, up to the line callback. */
    method Parse()
      requires Shaped() && !locationCanReport && !svStatusCanReport
      modifies this`fixMode, this`flags, this`values, this`svCount, this`numSvs, this`reports
      modifies this`locationCanReport, this`svStatusCanReport, svs, used, tzer, tzer.tokens
      ensures Shaped() && !locationCanReport && !svStatusCanReport
      ensures State() == AfterLine(old(State()), old(buf[..pos]))
      ensures reports + [Line(old(buf[..pos]))] == old(reports) + LineReports(old(State()), old(buf[..pos]))
    {
      hide Apply, AfterReports, Reports;
      ghost var line, r := buf[..pos], State();
      if pos < 9 {
        return;
      }
      tzer.Init(pos);
      ghost var f := Tokens(line);
      var id := tzer.Text(0, f);
      if |id| < 5 {
        return;
      }
      Dispatch(id, f);
      SendReports(f);
    }

    /** The reports that are due. */
    method SendReports(ghost f: seq<string>)
      requires Shaped() && Processed(f)
      requires locationCanReport == IsFixRmc(f) && svStatusCanReport == (KindOf(f) == Rmc)
      modifies this`flags, this`values, this`svCount, this`numSvs, this`reports
      modifies this`locationCanReport, this`svStatusCanReport, used
      ensures Shaped() && !locationCanReport && !svStatusCanReport
      ensures State() == AfterReports(old(State()), f) && reports == old(reports) + Reports(old(State()), f)
    {
      if locationCanReport {
        ReportLocation();
      }
      if svStatusCanReport {
        ReportSatellites();
      }
    }

    // ---------- Characters ----------

    method AddC(c: char)
      requires Valid()
      modifies this, buf, svs, used, tzer, tzer.tokens
      ensures Valid() && Framing() == Fr.Next(old(Framing()), c)
      ensures var handed := Fr.Handed(old(Framing()), c);
              history == old(history) + if handed.Some? then [handed.value] else []
    {
      hide After, ReportsOf;
      if overflow {
        overflow := c != '\n';
        return;
      }
      if pos >= Fr.NMEA_MAX_SIZE {
        overflow, pos := true, 0;
        return;
      }
      ghost var begun := buf[..pos];
      buf[pos] := c;
      pos := pos + 1;
      assert buf[..pos] == begun + [c];
      if c == '\n' {
        FinishLine();
      }
    }

    /** The newline has arrived: the line in the buffer is interpreted and handed on. */
    method FinishLine()
      requires Shaped() && !overflow && !locationCanReport && !svStatusCanReport && UpToDate()
      modifies this, buf, svs, used, tzer, tzer.tokens
      ensures Valid() && Framing() == Fr.IDLE && history == old(history) + [old(buf[..pos])]
    {
      hide After, ReportsOf, AfterLine, LineReports;
      ghost var line := buf[..pos];
      OneMoreLine(beyond, history, line);
      Parse();
      buf[pos] := '\0';
      reports := reports + [Line(buf[..pos])];
      pos := 0;
      history := history + [line];
    }

    /** A chunk of the stream. */
    method Feed(input: string)
      requires Valid()
      modifies this, buf, svs, used, tzer, tzer.tokens
      ensures Valid() && Framing() == Fr.Feed(old(Framing()), input)
      ensures history == old(history) + Fr.Output(old(Framing()), input)
    {
      hide After, ReportsOf;
      ghost var s, h := Framing(), history;
      for i := 0 to |input|
        invariant Valid() && Framing() == Fr.Feed(s, input[..i])
        invariant history == h + Fr.Output(s, input[..i])
      {
        AddC(input[i]);
        assert input[..i + 1] == input[..i] + [input[i]];
        OneMoreCharacter(s, input[..i], input[i]);
      }
      assert input[..|input|] == input;
    }
  }

  lemma OneMoreCharacter(s: Fr.Framer, input: string, c: char)
    ensures Fr.Feed(s, input + [c]) == Fr.Next(Fr.Feed(s, input), c)
    ensures var handed := Fr.Handed(Fr.Feed(s, input), c);
            Fr.Output(s, input + [c]) == Fr.Output(s, input) + if handed.Some? then [handed.value] else []
  {
    Fr.ChunksDoNotMatter(s, input, [c]);
    assert [c][1..] == "";
  }

  lemma NoUpdates(r: Reader, f: seq<string>)
    requires WellFormed(r) && Processed(f) && KindOf(f) in {Gsv, Unknown}
    ensures WithUpdates(r, Updates(f, r.fixMode)).(fixMode := ModeAfter(f, r.fixMode)) == r
  {
    assert r.values + map[] == r.values;
  }

  lemma MergeTwice(v: Fix, a: Fix, b: Fix)
    ensures (v + a) + b == v + (a + b) && (a + b).Keys == a.Keys + b.Keys
  {
  }

  lemma MergeThree(flags: set<Field>, v: Fix, a: Fix, b: Fix, c: Fix)
    ensures ((v + a) + b) + c == v + (a + b + c)
    ensures flags + a.Keys + b.Keys + c.Keys == flags + (a + b + c).Keys
  {
    MergeTwice(v, a, b);
    MergeTwice(v, a + b, c);
  }

  lemma SameSv(r: Reader, s: Reader, prn: int, elevation: int, azimuth: int, snr: string)
    requires WellFormed(r) && WellFormed(s) && r.used == s.used && r.beyond == s.beyond
    ensures SvFor(r, prn, elevation, azimuth, snr) == SvFor(s, prn, elevation, azimuth, snr)
  {
  }

  lemma NoEntries(s: Reader, f: seq<string>, talker: Constellation, r: Reader, n: int)
    requires WellFormed(s) && WellFormed(r)
    ensures Extended(s, Accepted(f, talker, r, 0)) == s
    ensures n <= 0 ==> Extended(s, Accepted(f, talker, r, n)) == s
  {
  }

  lemma EntryStep(s: Reader, f: seq<string>, talker: Constellation, r: Reader, k: nat)
    requires WellFormed(s) && WellFormed(r)
    ensures Extended(Extended(s, Accepted(f, talker, r, k)), ToSeq(GsvEntry(f, talker, r, k)))
            == Extended(s, Accepted(f, talker, r, k + 1))
  {
    ExtendTwice(s, Accepted(f, talker, r, k), ToSeq(GsvEntry(f, talker, r, k)));
  }

  /** Extending a list twice is extending it once by both parts. */
  lemma ExtendTwice(r: Reader, a: seq<Sv>, b: seq<Sv>)
    requires WellFormed(r)
    ensures Extended(Extended(r, a), b) == Extended(r, a + b)
  {
  }

  /** MAIN RESULT. A reader that has just started and is fed a stream, in whatever chunks, has reported
      what the lines that survive of the whole stream call for, in order, and nothing else. */
  method StreamReports(beyond: int -> bool, chunks: seq<string>) returns (reports: seq<Report>)
    ensures reports == ReportsOf(beyond, Fr.Kept(Fr.Lines(Flatten(chunks)), false))
  {
    hide After, ReportsOf, Fr.Feed, Fr.Output;
    var reader := new NmeaReader(beyond);
    StreamBegins();
    for i := 0 to |chunks|
      invariant reader.Valid() && reader.beyond == beyond
      invariant reader.Framing() == Fr.Feed(Fr.IDLE, Flatten(chunks[..i]))
      invariant reader.history == Fr.Output(Fr.IDLE, Flatten(chunks[..i]))
    {
      assert chunks[..i + 1] == chunks[..i] + [chunks[i]];
      FlattenOneMore(chunks[..i], chunks[i]);
      Fr.ChunksDoNotMatter(Fr.IDLE, Flatten(chunks[..i]), chunks[i]);
      reader.Feed(chunks[i]);
    }
    assert chunks[..|chunks|] == chunks;
    Fr.FramerIsExact(Flatten(chunks));
    reports := reader.reports;
  }

  lemma StreamBegins()
    ensures Fr.Feed(Fr.IDLE, "") == Fr.IDLE && Fr.Output(Fr.IDLE, "") == []
  {
  }
}
