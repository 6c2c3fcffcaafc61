/** The health HAL's battery level: a threshold table and a ratchet held across polls. */
module Battery {
  import opened Common

  /** A voltage threshold and the level reported above it. */
  datatype Entry = Entry(threshold: int, level: int)

  /** The table, in the ascending order in which std::map keeps it. */
  const TABLE: seq<Entry> :=
    [Entry(3000, 1), Entry(3480, 5), Entry(3490, 10), Entry(3510, 15), Entry(3530, 20), Entry(3550, 25),
     Entry(3560, 30), Entry(3590, 35), Entry(3600, 40), Entry(3610, 45), Entry(3630, 50), Entry(3650, 55),
     Entry(3670, 60), Entry(3690, 65), Entry(3730, 70), Entry(3760, 75), Entry(3800, 80), Entry(3820, 85),
     Entry(3860, 90), Entry(3880, 95), Entry(3890, 100)]

  /** The voltage at and below which the table has no level. */
  const LOWEST := 3000

  /** The voltage above which the level is 100. */
  const FULL := 3890

  /** Ascending in both columns. */
  ghost predicate Ascending(table: seq<Entry>) {
    forall i, j :: 0 <= i < j < |table| ==> table[i].threshold < table[j].threshold && table[i].level < table[j].level
  }

  /** `level` is that of the greatest threshold strictly below the voltage, or -1 without one. */
  ghost predicate IsLevel(table: seq<Entry>, voltage: int, level: int) {
    if exists i :: 0 <= i < |table| && table[i].threshold < voltage then
      exists i :: 0 <= i < |table| && table[i].threshold < voltage && level == table[i].level
                  && forall j :: i < j < |table| ==> voltage <= table[j].threshold
    else level == -1
  }

  /** The level for a voltage, searched from the highest threshold down. */
  function LevelFrom(table: seq<Entry>, voltage: int): int {
    if table == [] then -1
    else if voltage > table[|table| - 1].threshold then table[|table| - 1].level
    else LevelFrom(table[..|table| - 1], voltage)
  }

  function Level(voltage: int): int {
    LevelFrom(TABLE, voltage)
  }

  lemma {:induction false} LevelFromIsLevel(table: seq<Entry>, voltage: int)
    ensures IsLevel(table, voltage, LevelFrom(table, voltage))
  {
    if table != [] {
      var n := |table| - 1;
      if voltage > table[n].threshold {
      } else {
        var front := table[..n];
        LevelFromIsLevel(front, voltage);
        assert forall i :: 0 <= i < n ==> front[i] == table[i];
        if exists i :: 0 <= i < n && front[i].threshold < voltage {
          var i :| 0 <= i < n && front[i].threshold < voltage && LevelFrom(table, voltage) == front[i].level
                   && forall j :: i < j < n ==> voltage <= front[j].threshold;
          assert table[i].threshold < voltage;
          assert forall j :: i < j < |table| ==> voltage <= table[j].threshold;
        }
      }
    }
  }

  lemma TableIsAscending()
    ensures Ascending(TABLE)
  {
  }

  /** The lookup gives the level of the greatest threshold strictly below the voltage, between 1 and
      100, and there is one exactly above 3000; and a higher voltage never has a lower level. */
  lemma LevelProperties(v: int, w: int)
    ensures IsLevel(TABLE, v, Level(v))
    ensures if v > LOWEST then 1 <= Level(v) <= 100 else Level(v) == -1
    ensures v <= w ==> Level(v) <= Level(w)
  {
    LevelFromIsLevel(TABLE, v);
    LevelFromIsLevel(TABLE, w);
    TableIsAscending();
    LevelRange(v);
    LevelRange(w);
    if LOWEST < v <= w {
      var i := IndexAt(v);
      var j := IndexAt(w);
      assert i <= j;
      assert i == j || TABLE[i].level < TABLE[j].level;
    }
  }

  lemma LevelRange(v: int)
    ensures if v > LOWEST then 1 <= Level(v) <= 100 else Level(v) == -1
  {
    LevelFromIsLevel(TABLE, v);
    TableIsAscending();
    if v > LOWEST {
      assert TABLE[0].threshold < v;
      var i := IndexAt(v);
      assert i == 0 || TABLE[0].level < TABLE[i].level;
      assert i == 20 || TABLE[i].level < TABLE[20].level;
    } else {
      forall i | 0 <= i < |TABLE|
        ensures TABLE[i].threshold >= v
      {
        assert i == 0 || TABLE[0].threshold < TABLE[i].threshold;
      }
    }
  }

  lemma IndexAt(v: int) returns (i: nat)
    requires v > LOWEST
    ensures i < |TABLE| && TABLE[i].threshold < v && Level(v) == TABLE[i].level
    ensures forall j :: i < j < |TABLE| ==> v <= TABLE[j].threshold
  {
    LevelFromIsLevel(TABLE, v);
    assert TABLE[0].threshold < v;
    i :| 0 <= i < |TABLE| && TABLE[i].threshold < v && Level(v) == TABLE[i].level
         && forall j :: i < j < |TABLE| ==> v <= TABLE[j].threshold;
  }

  /** The level is 100 exactly above 3890. */
  lemma FullLevel(v: int)
    ensures Level(v) == 100 <==> v > FULL
  {
    LevelRange(v);
    TableIsAscending();
    if v > LOWEST {
      var i := IndexAt(v);
      assert i == 20 || TABLE[i].level < TABLE[20].level;
      assert TABLE[20].threshold == FULL;
    }
  }

  /** What the two system properties hold at a poll; None is an unset property. */
  datatype Poll = Poll(voltage: Option<int>, charging: Option<bool>)

  /** An unset voltage reads as -1. */
  function VoltageOf(p: Poll): int {
    p.voltage.GetOr(-1)
  }

  function CapacityOf(p: Poll): int {
    if VoltageOf(p) != -1 then Level(VoltageOf(p)) else -1
  }

  /** The held capacity after a poll. */
  function Held(held: int, p: Poll): int {
    if CapacityOf(p) == -1 then held
    else if p.charging == Some(false) then Min(CapacityOf(p), held)
    else CapacityOf(p)
  }

  /** The reported capacity. */
  function Reported(held: int, p: Poll): int {
    match p.charging
    case None => 100
    case Some(true) => 99
    case Some(false) => if CapacityOf(p) == -1 then 100 else Held(held, p)
  }

  class Health {
    var lastCapacity: int
    var lastVoltage: int

    predicate InRange()
      reads this
    {
      1 <= lastCapacity <= 100
    }

    constructor ()
      ensures InRange()
      ensures lastCapacity == 100 && lastVoltage == -1
    {
      lastCapacity, lastVoltage := 100, -1;
    }

    /** The walk over the table from its last entry to its first. */
    method CalcBatteryLevel(voltage: int) returns (level: int)
      ensures level == Level(voltage)
    {
      var i := |TABLE|;
      assert TABLE[..i] == TABLE;
      while i > 0
        invariant 0 <= i <= |TABLE|
        invariant Level(voltage) == LevelFrom(TABLE[..i], voltage)
      {
        i := i - 1;
        assert TABLE[..i + 1][..i] == TABLE[..i];
        if voltage > TABLE[i].threshold {
          return TABLE[i].level;
        }
      }
      level := -1;
    }

    method GetCapacity(p: Poll) returns (reported: int)
      requires InRange()
      modifies this
      ensures InRange()
      ensures reported == Reported(old(lastCapacity), p)
      ensures lastCapacity == Held(old(lastCapacity), p)
      ensures lastVoltage == if CapacityOf(p) == -1 then old(lastVoltage) else VoltageOf(p)
    {
      var voltage := if p.voltage.Some? then p.voltage.value else -1;
      var charging := match p.charging case None => -1 case Some(true) => 1 case Some(false) => 0;
      var capacity := -1;
      CapacityWhenUsable(p);
      if voltage != -1 {
        capacity := CalcBatteryLevel(voltage);
      }
      if capacity != -1 {
        if charging == 0 && capacity > lastCapacity {
          capacity := lastCapacity;
        }
        lastCapacity, lastVoltage := capacity, voltage;
      }
      reported := if charging == -1 then 100 else if charging != 0 then 99 else if capacity == -1 then 100 else capacity;
    }
  }

  // ---------- Stretches of polls ----------

  function HeldAfter(held: int, polls: seq<Poll>): int
    decreases polls
  {
    if polls == [] then held else HeldAfter(Held(held, polls[0]), polls[1..])
  }

  function Reports(held: int, polls: seq<Poll>): (r: seq<int>)
    ensures |r| == |polls|
    decreases polls
  {
    if polls == [] then [] else [Reported(held, polls[0])] + Reports(Held(held, polls[0]), polls[1..])
  }

  ghost predicate Discharging(polls: seq<Poll>) {
    forall i :: 0 <= i < |polls| ==> polls[i].charging == Some(false)
  }

  /** The table has a level for the polled voltage. */
  predicate Usable(p: Poll) {
    VoltageOf(p) > LOWEST
  }

  /** m is the minimum of `held` and the levels of the usable polls. */
  ghost predicate IsMinimum(m: int, held: int, polls: seq<Poll>) {
    && m <= held
    && (forall i :: 0 <= i < |polls| && Usable(polls[i]) ==> m <= Level(VoltageOf(polls[i])))
    && (m == held || exists i :: 0 <= i < |polls| && Usable(polls[i]) && m == Level(VoltageOf(polls[i])))
  }

  lemma CapacityWhenUsable(p: Poll)
    ensures CapacityOf(p) == if Usable(p) then Level(VoltageOf(p)) else -1
    ensures Usable(p) ==> 1 <= CapacityOf(p) <= 100
  {
    LevelRange(VoltageOf(p));
  }

  /** A usable voltage while not known to be discharging: the level is taken as it is. */
  predicate Restarts(p: Poll) {
    Usable(p) && p.charging != Some(false)
  }

  ghost predicate NoRestart(polls: seq<Poll>) {
    forall i :: 0 <= i < |polls| ==> !Restarts(polls[i])
  }

  /** Without such a poll the held capacity is the minimum of where it started and all table levels seen. */
  lemma {:induction false} HeldIsMinimum(held: int, polls: seq<Poll>)
    requires NoRestart(polls)
    ensures IsMinimum(HeldAfter(held, polls), held, polls)
    decreases polls
  {
    if polls != [] {
      CapacityWhenUsable(polls[0]);
      var rest := polls[1..];
      assert forall i :: 0 <= i < |rest| ==> rest[i] == polls[i + 1];
      HeldIsMinimum(Held(held, polls[0]), rest);
      var m := HeldAfter(held, polls);
      if m != Held(held, polls[0]) {
        var i :| 0 <= i < |rest| && Usable(rest[i]) && m == Level(VoltageOf(rest[i]));
        assert Usable(polls[i + 1]) && m == Level(VoltageOf(polls[i + 1]));
      }
    }
  }

  lemma {:induction false} ReportAt(held: int, polls: seq<Poll>, k: nat)
    requires k < |polls|
    ensures Reports(held, polls)[k] == Reported(HeldAfter(held, polls[..k]), polls[k])
    ensures HeldAfter(held, polls[..k + 1]) == Held(HeldAfter(held, polls[..k]), polls[k])
    decreases polls
  {
    if k > 0 {
      ReportAt(Held(held, polls[0]), polls[1..], k - 1);
      assert polls[..k][1..] == polls[1..][..k - 1] && polls[..k + 1][1..] == polls[1..][..k];
    } else {
      assert polls[..1][1..] == [];
    }
  }

  /** r is the last such poll, -1 when there is none. */
  ghost predicate IsLastRestart(polls: seq<Poll>, r: int) {
    && -1 <= r < |polls| && (r >= 0 ==> Restarts(polls[r]))
    && forall k :: r < k < |polls| ==> !Restarts(polls[k])
  }

  /** m is the minimum of all usable levels from poll r on, of `held` and all usable levels if r is -1. */
  ghost predicate IsMinimumSince(m: int, held: int, polls: seq<Poll>, r: int)
    requires -1 <= r < |polls|
  {
    IsMinimum(m, if r < 0 then held else Level(VoltageOf(polls[r])), polls[r + 1..])
  }

  lemma {:induction false} HeldAppend(held: int, a: seq<Poll>, b: seq<Poll>)
    ensures HeldAfter(held, a + b) == HeldAfter(HeldAfter(held, a), b)
    decreases a
  {
    if a == [] {
      assert a + b == b;
    } else {
      assert (a + b)[1..] == a[1..] + b;
      HeldAppend(Held(held, a[0]), a[1..], b);
    }
  }

  /** MAIN RESULT. Over any polls the held capacity is the minimum of the table levels from the last usable
      poll on that was not known to be discharging, or of the start and all levels when there is none. */
  lemma HeldSince(held: int, polls: seq<Poll>, r: int)
    requires IsLastRestart(polls, r)
    ensures IsMinimumSince(HeldAfter(held, polls), held, polls, r)
  {
    if r < 0 {
      assert polls[0..] == polls;
      HeldIsMinimum(held, polls);
    } else {
      assert polls == polls[..r + 1] + polls[r + 1..];
      HeldAppend(held, polls[..r + 1], polls[r + 1..]);
      ReportAt(held, polls, r);
      CapacityWhenUsable(polls[r]);
      HeldIsMinimum(Level(VoltageOf(polls[r])), polls[r + 1..]);
    }
  }

  /** MAIN RESULT. Over any polls an unset charging state is reported as 100 and charging as 99; while
      discharging a usable voltage is reported as that minimum, an unusable one as 100. */
  lemma EveryReport(held: int, polls: seq<Poll>, k: nat, r: int)
    requires k < |polls| && IsLastRestart(polls[..k + 1], r)
    ensures var report := Reports(held, polls)[k];
            match polls[k].charging
            case None => report == 100
            case Some(true) => report == 99
            case Some(false) =>
              if VoltageOf(polls[k]) > 3000 then IsMinimumSince(report, held, polls[..k + 1], r) else report == 100
  {
    ReportAt(held, polls, k);
    CapacityWhenUsable(polls[k]);
    HeldSince(held, polls[..k + 1], r);
  }

  /** 3500 discharging, 3870 charging, 3870 discharging: the level recovers. */
  lemma LevelRecovers()
    ensures Reports(100, [Poll(Some(3500), Some(false)), Poll(Some(3870), Some(true)), Poll(Some(3870), Some(false))])
            == [10, 99, 90]
  {
    var a, b, c := Poll(Some(3500), Some(false)), Poll(Some(3870), Some(true)), Poll(Some(3870), Some(false));
    var polls := [a, b, c];
    TableIsAscending();
    var i := IndexAt(3500);
    var j := IndexAt(3870);
    assert TABLE[2].threshold < 3500 <= TABLE[3].threshold && TABLE[18].threshold < 3870 <= TABLE[19].threshold;
    assert i == 2 && j == 18;
    assert polls[1..] == [b, c] && [b, c][1..] == [c] && [c][1..] == [];
    assert Reports(90, [c]) == [90] && Reports(10, [b, c]) == [99, 90];
  }

  /** Behind the first one, the levels of the table are 5, 10, and so on to 100. */
  lemma LevelsRiseByFive(k: nat)
    requires k < |TABLE|
    ensures |TABLE| == 21 && TABLE[k].level == if k == 0 then 1 else 5 * k
  {
  }

  /** MAIN RESULT. In a discharging stretch every report with a usable voltage is the minimum of the
      capacity held at its start and all table levels seen so far; every other report is 100. */
  lemma DischargingReport(held: int, polls: seq<Poll>, k: nat)
    requires Discharging(polls) && k < |polls|
    ensures if Usable(polls[k]) then IsMinimum(Reports(held, polls)[k], held, polls[..k + 1])
            else Reports(held, polls)[k] == 100
  {
    ReportAt(held, polls, k);
    CapacityWhenUsable(polls[k]);
    HeldIsMinimum(held, polls[..k + 1]);
  }

  ghost predicate NeverRises(r: seq<int>) {
    forall i, j :: 0 <= i < j < |r| ==> r[j] <= r[i]
  }

  /** Poll i is usable and poll j is not, and at poll i less than 100 is known: from the start, or
      because its voltage is at most 3890. */
  predicate SilentAt(held: int, polls: seq<Poll>, i: nat, j: nat)
    requires i < j < |polls|
  {
    Usable(polls[i]) && !Usable(polls[j]) && (held < 100 || VoltageOf(polls[i]) <= FULL)
  }

  /** Some two polls are like that. */
  ghost predicate FallsSilent(held: int, polls: seq<Poll>) {
    exists i, j :: 0 <= i < j < |polls| && SilentAt(held, polls, i, j)
  }

  /** While discharging the reports never rise if and only if no unusable voltage follows a usable
      one that is at most 3890, or any usable one when less than 100 was held at the start: an unusable
      voltage is reported as 100. */
  lemma NeverRisesIff(held: int, polls: seq<Poll>)
    requires Discharging(polls) && 1 <= held <= 100
    ensures NeverRises(Reports(held, polls)) <==> !FallsSilent(held, polls)
  {
    var r := Reports(held, polls);
    if FallsSilent(held, polls) {
      var i, j :| 0 <= i < j < |polls| && SilentAt(held, polls, i, j);
      SilenceRises(held, polls, i, j);
      assert r[j] > r[i];
      assert !NeverRises(r);
    } else {
      forall i, j | 0 <= i < j < |r|
        ensures r[j] <= r[i]
      {
        RiseNeedsSilence(held, polls, i, j);
      }
    }
  }

  lemma SilenceRises(held: int, polls: seq<Poll>, i: nat, j: nat)
    requires Discharging(polls) && 1 <= held <= 100 && i < j < |polls| && SilentAt(held, polls, i, j)
    ensures Reports(held, polls)[i] < Reports(held, polls)[j]
  {
    DischargingReport(held, polls, i);
    DischargingReport(held, polls, j);
    FullLevel(VoltageOf(polls[i]));
    LevelRange(VoltageOf(polls[i]));
    assert polls[..i + 1][i] == polls[i];
  }

  /** A rise happens only at an unusable poll, and the minimum it rises from has its place among the
      usable polls before it, or was held at the start. */
  lemma RiseNeedsSilence(held: int, polls: seq<Poll>, i: nat, j: nat)
    requires Discharging(polls) && 1 <= held <= 100 && i < j < |polls|
    ensures Reports(held, polls)[j] > Reports(held, polls)[i] ==> FallsSilent(held, polls)
  {
    ReportAt(held, polls, i);
    ReportAt(held, polls, j);
    CapacityWhenUsable(polls[i]);
    CapacityWhenUsable(polls[j]);
    HeldFalls(held, polls, i + 1, j + 1);
    var m := Reports(held, polls)[i];
    if Reports(held, polls)[j] > m {
      assert Usable(polls[i]) && !Usable(polls[j]);
      if held == 100 {
        HeldIsMinimum(held, polls[..i + 1]);
        var k :| 0 <= k < i + 1 && Usable(polls[..i + 1][k]) && m == Level(VoltageOf(polls[..i + 1][k]));
        assert polls[..i + 1][k] == polls[k];
        FullLevel(VoltageOf(polls[k]));
        assert SilentAt(held, polls, k, j);
      } else {
        assert SilentAt(held, polls, i, j);
      }
    }
  }

  lemma HeldFalls(held: int, polls: seq<Poll>, i: nat, j: nat)
    requires Discharging(polls) && i <= j <= |polls|
    ensures HeldAfter(held, polls[..j]) <= HeldAfter(held, polls[..i])
  {
    HeldIsMinimum(held, polls[..i]);
    HeldIsMinimum(held, polls[..j]);
    var m := HeldAfter(held, polls[..i]);
    if m != held {
      var k :| 0 <= k < i && Usable(polls[..i][k]) && m == Level(VoltageOf(polls[..i][k]));
      assert polls[..j][k] == polls[..i][k];
    }
  }

  /** A reading of 3500 and then one of 3000 while discharging are reported as 10 and then 100. */
  lemma LowVoltageReadsFull()
    ensures Reports(100, [Poll(Some(3500), Some(false)), Poll(Some(3000), Some(false))]) == [10, 100]
  {
    var a, b := Poll(Some(3500), Some(false)), Poll(Some(3000), Some(false));
    LevelRange(3000);
    var i := IndexAt(3500);
    assert TABLE[2].threshold < 3500 <= TABLE[3].threshold;
    TableIsAscending();
    assert i == 2;
    assert [a, b][1..] == [b] && [b][1..] == [];
    assert Reports(10, [b]) == [100];
  }

  /** Whatever the polls, what is held and what is reported stays between 1 and 100. */
  lemma {:induction false} AlwaysInRange(held: int, polls: seq<Poll>, k: nat)
    requires 1 <= held <= 100 && k < |polls|
    ensures 1 <= HeldAfter(held, polls) <= 100
    ensures 1 <= Reports(held, polls)[k] <= 100
    decreases polls
  {
    CapacityWhenUsable(polls[0]);
    var rest := polls[1..];
    if rest != [] {
      AlwaysInRange(Held(held, polls[0]), rest, if k > 0 then k - 1 else 0);
    }
  }
}
