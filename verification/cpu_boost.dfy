/** The power HAL's CPU boost: a boost thread and lock-protected calls share two frequency buffers,
    the thread id, and the cpufreq files. Every buffer or file access is one atomic step. */
module CpuBoost {
  import opened Common

  type Freq = int

  /** The read-only limits of the CPU (cpuinfo_min_freq and cpuinfo_max_freq). */
  datatype Cpu = Cpu(low: Freq, high: Freq)

  /** A call into the HAL. `prop` is property persist.rpi4.cpufreq.max_freq, None when it is not set;
      then the number in the buffer that should hold the CPU's maximum is taken instead. */
  datatype Call = HintInteraction | HintOther | Wake(prop: Option<Freq>) | Suspend

  /** Where a boost thread stands: the step it will do next. Sleeping is the time spent at Restore. */
  datatype Thread = ReadMax | ReadMin | Compare | GiveUp | Raise | Restore | Release | Done

  /** Where a caller stands: the step it will do next. All but the first and last are in the lock. */
  datatype Caller =
    | Waiting(call: Call)
    | CheckTid | Create
    | LoadHigh(prop: Option<Freq>) | ReadDefault(prop: Option<Freq>) | LoadCap(cap: Freq) | WriteMax
    | SaveMax | LoadLow | WriteLow
    | Unlock
    | Returned

  datatype State = State(
    tid: Option<nat>, minFreq: Freq, maxFreq: Freq, interactiveMax: Freq,
    scalingMin: Freq, scalingMax: Freq,
    threads: seq<Thread>, callers: seq<Caller>, lock: Option<nat>)

  datatype Action = Invoke(call: Call) | CallerStep(i: nat) | CreateFails(i: nat) | ThreadStep(t: nat)

  function Start(scalingMin: Freq, scalingMax: Freq): State {
    State(None, 0, 0, 0, scalingMin, scalingMax, [], [], None)
  }

  /** One step of boost thread t. */
  function ThreadNext(s: State, t: nat): State
    requires t < |s.threads|
  {
    match s.threads[t]
    case ReadMax => s.(maxFreq := s.scalingMax, threads := s.threads[t := ReadMin])
    case ReadMin => s.(minFreq := s.scalingMin, threads := s.threads[t := Compare])
    case Compare => s.(threads := s.threads[t := if s.minFreq == s.maxFreq then GiveUp else Raise])
    case GiveUp => s.(tid := None, threads := s.threads[t := Done])
    case Raise => s.(scalingMin := s.maxFreq, threads := s.threads[t := Restore])
    case Restore => s.(scalingMin := s.minFreq, threads := s.threads[t := Release])
    case Release => s.(tid := None, threads := s.threads[t := Done])
    case Done => s
  }

  /** One step of caller i. A waiting caller moves only when the lock is free. */
  function CallerNext(cpu: Cpu, s: State, i: nat): State
    requires i < |s.callers|
  {
    match s.callers[i]
    case Waiting(call) =>
      if s.lock.Some? then s
      else
        s.(lock := Some(i),
           callers := s.callers[i := match call
                                     case HintInteraction => CheckTid
                                     case HintOther => Unlock
                                     case Wake(prop) => LoadHigh(prop)
                                     case Suspend => SaveMax])
    case CheckTid => s.(callers := s.callers[i := if s.tid.Some? then Unlock else Create])
    case Create =>
      s.(tid := Some(|s.threads|), threads := s.threads + [ReadMax], callers := s.callers[i := Unlock])
    case LoadHigh(prop) => s.(maxFreq := cpu.high, callers := s.callers[i := ReadDefault(prop)])
    case ReadDefault(prop) => s.(callers := s.callers[i := LoadCap(prop.GetOr(s.maxFreq))])
    case LoadCap(cap) => s.(maxFreq := cap, callers := s.callers[i := WriteMax])
    case WriteMax => s.(scalingMax := s.maxFreq, callers := s.callers[i := Unlock])
    case SaveMax => s.(interactiveMax := s.scalingMax, callers := s.callers[i := LoadLow])
    case LoadLow => s.(minFreq := cpu.low, callers := s.callers[i := WriteLow])
    case WriteLow => s.(scalingMax := s.minFreq, callers := s.callers[i := Unlock])
    case Unlock => s.(lock := None, callers := s.callers[i := Returned])
    case Returned => s
  }

  /** One step of the whole system; an action that is not enabled changes nothing. */
  function Next(cpu: Cpu, s: State, a: Action): State {
    match a
    case Invoke(call) => s.(callers := s.callers + [Waiting(call)])
    case CallerStep(i) => if i < |s.callers| then CallerNext(cpu, s, i) else s
    case CreateFails(i) =>
      if i < |s.callers| && s.callers[i] == Create then s.(callers := s.callers[i := Unlock]) else s
    case ThreadStep(t) => if t < |s.threads| then ThreadNext(s, t) else s
  }

  function Run(cpu: Cpu, s: State, acts: seq<Action>): State
    decreases acts
  {
    if acts == [] then s else Run(cpu, Next(cpu, s, acts[0]), acts[1..])
  }

  /** The HAL's globals and the files, changed in place by one step at a time. */
  class PowerHal {
    const cpu: Cpu
    var tid: Option<nat>
    var minFreq: Freq
    var maxFreq: Freq
    var interactiveMax: Freq
    var scalingMin: Freq
    var scalingMax: Freq
    var threads: seq<Thread>
    var callers: seq<Caller>
    var lock: Option<nat>

    ghost function Snapshot(): State
      reads this
    {
      State(tid, minFreq, maxFreq, interactiveMax, scalingMin, scalingMax, threads, callers, lock)
    }

    constructor (cpu: Cpu, scalingMin: Freq, scalingMax: Freq)
      ensures this.cpu == cpu && Snapshot() == Start(scalingMin, scalingMax)
    {
      this.cpu, this.scalingMin, this.scalingMax := cpu, scalingMin, scalingMax;
      tid, minFreq, maxFreq, interactiveMax, threads, callers, lock := None, 0, 0, 0, [], [], None;
    }

    /** The next step of performance_boost_thread in thread t. */
    method BoostThread(t: nat)
      requires t < |threads|
      modifies this
      ensures Snapshot() == ThreadNext(old(Snapshot()), t)
    {
      match threads[t] {
        case ReadMax =>
          maxFreq, threads := scalingMax, threads[t := ReadMin];
        case ReadMin =>
          minFreq, threads := scalingMin, threads[t := Compare];
        case Compare =>
          threads := threads[t := if minFreq == maxFreq then GiveUp else Raise];
        case GiveUp =>
          tid, threads := None, threads[t := Done];
        case Raise =>
          scalingMin, threads := maxFreq, threads[t := Restore];
        case Restore =>
          scalingMin, threads := minFreq, threads[t := Release];
        case Release =>
          tid, threads := None, threads[t := Done];
        case Done =>
      }
    }

    /** A caller takes the lock and goes to its first step inside. */
    method Enter(i: nat)
      requires i < |callers| && callers[i].Waiting?
      modifies this
      ensures Snapshot() == CallerNext(cpu, old(Snapshot()), i)
    {
      if lock.Some? {
        return;
      }
      lock := Some(i);
      match callers[i].call {
        case HintInteraction =>
          callers := callers[i := CheckTid];
        case HintOther =>
          callers := callers[i := Unlock];
        case Wake(prop) =>
          callers := callers[i := LoadHigh(prop)];
        case Suspend =>
          callers := callers[i := SaveMax];
      }
    }

    /** The next step of power_hint or set_interactive in caller i. */
    method CallerThread(i: nat)
      requires i < |callers|
      modifies this
      ensures Snapshot() == CallerNext(cpu, old(Snapshot()), i)
    {
      match callers[i] {
        case Waiting(_) =>
          Enter(i);
        case CheckTid =>
          callers := callers[i := if tid.Some? then Unlock else Create];
        case Create =>
          tid, threads, callers := Some(|threads|), threads + [ReadMax], callers[i := Unlock];
        case LoadHigh(prop) =>
          maxFreq, callers := cpu.high, callers[i := ReadDefault(prop)];
        case ReadDefault(prop) =>
          callers := callers[i := LoadCap(if prop.Some? then prop.value else maxFreq)];
        case LoadCap(cap) =>
          maxFreq, callers := cap, callers[i := WriteMax];
        case WriteMax =>
          scalingMax, callers := maxFreq, callers[i := Unlock];
        case SaveMax =>
          interactiveMax, callers := scalingMax, callers[i := LoadLow];
        case LoadLow =>
          minFreq, callers := cpu.low, callers[i := WriteLow];
        case WriteLow =>
          scalingMax, callers := minFreq, callers[i := Unlock];
        case Unlock =>
          lock, callers := None, callers[i := Returned];
        case Returned =>
      }
    }

    /** A schedule: any interleaving of steps and new calls. From the initial state it leaves at most
        one boost thread, and the floor raised only while that thread is to restore it. */
    method Perform(acts: seq<Action>)
      modifies this
      ensures Snapshot() == Run(cpu, old(Snapshot()), acts)
      ensures old(Snapshot()) == Start(old(scalingMin), old(scalingMax)) ==>
                BoostContained(Snapshot(), {old(scalingMin), cpu.low})
    {
      ghost var s := Snapshot();
      BoostIsExclusiveAndUndone(cpu, scalingMin, scalingMax, acts);
      for k := 0 to |acts|
        invariant Run(cpu, s, acts) == Run(cpu, Snapshot(), acts[k..])
      {
        assert acts[k..][1..] == acts[k + 1..];
        Act(acts[k]);
      }
    }

    method Act(a: Action)
      modifies this
      ensures Snapshot() == Next(cpu, old(Snapshot()), a)
    {
      match a {
        case Invoke(call) =>
          callers := callers + [Waiting(call)];
        case CallerStep(i) =>
          if i < |callers| {
            CallerThread(i);
          }
        case CreateFails(i) =>
          if i < |callers| && callers[i] == Create {
            callers := callers[i := Unlock];
          }
        case ThreadStep(t) =>
          if t < |threads| {
            BoostThread(t);
          }
      }
    }
  }

  // ---------- Undisturbed runs ----------

  /** n steps of boost thread t in a row. */
  function Steps(t: nat, n: nat): seq<Action> {
    if n == 0 then [] else [ThreadStep(t)] + Steps(t, n - 1)
  }

  /** Undisturbed, a boost thread raises the floor to the ceiling and then puts it back; when the two
      are equal it only clears the thread id. */
  lemma BoostAlone(cpu: Cpu, s: State, t: nat)
    requires t < |s.threads| && s.threads[t] == ReadMax
    ensures var up, down := Run(cpu, s, Steps(t, 4)), Run(cpu, s, Steps(t, 6));
            && down.threads == s.threads[t := Done] && down.tid == None
            && down.scalingMin == s.scalingMin && down.scalingMax == s.scalingMax
            && (s.scalingMin != s.scalingMax ==> up.threads == s.threads[t := Restore] && up.scalingMin == s.scalingMax)
  {
    var s1 := ThreadNext(s, t);
    var s2 := ThreadNext(s1, t);
    var s3 := ThreadNext(s2, t);
    var s4 := ThreadNext(s3, t);
    var s5 := ThreadNext(s4, t);
    FourSteps(cpu, s, t, 0);
    FourSteps(cpu, s, t, 2);
    OneStep(cpu, s4, t, 1);
    OneStep(cpu, s5, t, 0);
    assert s.threads[t := s4.threads[t]] == s4.threads;
  }

  lemma OneStep(cpu: Cpu, s: State, t: nat, n: nat)
    requires t < |s.threads|
    ensures Run(cpu, s, Steps(t, n + 1)) == Run(cpu, ThreadNext(s, t), Steps(t, n))
  {
    assert Steps(t, n + 1)[1..] == Steps(t, n);
  }

  lemma FourSteps(cpu: Cpu, s: State, t: nat, n: nat)
    requires t < |s.threads|
    ensures var s4 := ThreadNext(ThreadNext(ThreadNext(ThreadNext(s, t), t), t), t);
            Run(cpu, s, Steps(t, n + 4)) == Run(cpu, s4, Steps(t, n))
  {
    var s1 := ThreadNext(s, t);
    var s2 := ThreadNext(s1, t);
    var s3 := ThreadNext(s2, t);
    OneStep(cpu, s, t, n + 3);
    OneStep(cpu, s1, t, n + 2);
    OneStep(cpu, s2, t, n + 1);
    OneStep(cpu, s3, t, n);
  }

  /** Undisturbed, an interaction hint starts one boost thread exactly when none is running. */
  lemma HintAlone(cpu: Cpu, s: State, i: nat)
    requires i < |s.callers| && s.callers[i] == Waiting(HintInteraction) && s.lock == None
    ensures var s' := Run(cpu, s, [CallerStep(i), CallerStep(i), CallerStep(i), CallerStep(i)]);
            && s'.callers == s.callers[i := Returned] && s'.lock == None
            && s'.threads == (if s.tid == None then s.threads + [ReadMax] else s.threads)
            && s'.tid == (if s.tid == None then Some(|s.threads|) else s.tid)
  {
    var c := CallerStep(i);
    var s1 := CallerNext(cpu, s, i);
    var s2 := CallerNext(cpu, s1, i);
    var s3 := CallerNext(cpu, s2, i);
    assert [c, c, c, c][1..] == [c, c, c] && [c, c, c][1..] == [c, c] && [c, c][1..] == [c] && [c][1..] == [];
    assert Run(cpu, s, [c, c, c, c]) == Run(cpu, s1, [c, c, c]) == Run(cpu, s2, [c, c]) == Run(cpu, s3, [c])
        == CallerNext(cpu, s3, i);
  }

  /** Any other hint takes the lock and gives it back, and nothing else. */
  lemma OtherHintAlone(cpu: Cpu, s: State, i: nat)
    requires i < |s.callers| && s.callers[i] == Waiting(HintOther) && s.lock == None
    ensures Run(cpu, s, [CallerStep(i), CallerStep(i)]) == s.(callers := s.callers[i := Returned])
  {
    var c := CallerStep(i);
    var s1 := CallerNext(cpu, s, i);
    assert [c, c][1..] == [c] && [c][1..] == [];
    assert Run(cpu, s, [c, c]) == Run(cpu, s1, [c]) == CallerNext(cpu, s1, i);
    assert s1.callers[i := Returned] == s.callers[i := Returned];
  }

  /** A hint whose thread cannot be created leaves the thread id unset and can be repeated. */
  lemma HintFails(cpu: Cpu, s: State, i: nat)
    requires i < |s.callers| && s.callers[i] == Create
    ensures Run(cpu, s, [CreateFails(i), CallerStep(i)]) == s.(lock := None, callers := s.callers[i := Returned])
  {
    var s1 := Next(cpu, s, CreateFails(i));
    assert [CreateFails(i), CallerStep(i)][1..] == [CallerStep(i)] && [CallerStep(i)][1..] == [];
    assert Run(cpu, s, [CreateFails(i), CallerStep(i)]) == Run(cpu, s1, [CallerStep(i)]) == CallerNext(cpu, s1, i);
    assert s1.callers[i := Returned] == s.callers[i := Returned];
  }

  // ---------- What every step keeps ----------

  predicate InLock(c: Caller) {
    !c.Waiting? && !c.Returned?
  }

  /** The lock excludes, and the thread id names exactly the one thread that is not done. */
  ghost predicate Exclusive(s: State) {
    && (forall i :: 0 <= i < |s.callers| ==> (InLock(s.callers[i]) <==> s.lock == Some(i)))
    && (s.lock.Some? ==> s.lock.value < |s.callers|)
    && (forall t :: 0 <= t < |s.threads| ==> (s.threads[t] != Done <==> s.tid == Some(t)))
    && (s.tid.Some? ==> s.tid.value < |s.threads|)
    && (forall i :: 0 <= i < |s.callers| && s.callers[i] == Create ==> s.tid == None)
  }

  /** The thread that is running, Done when none is. */
  function Running(s: State): Thread {
    if s.tid.Some? && s.tid.value < |s.threads| then s.threads[s.tid.value] else Done
  }

  /** The files hold what they should: `rest` are the values scaling_min_freq may rest at, `tops`
      those scaling_max_freq may take. */
  ghost predicate FilesSane(cpu: Cpu, s: State, rest: set<Freq>, tops: set<Freq>) {
    && (Running(s) != Restore ==> s.scalingMin in rest)
    && (Running(s) in {Compare, GiveUp, Raise, Restore} ==> s.minFreq in rest)
    && s.scalingMax in tops
    && (forall i :: 0 <= i < |s.callers| ==> match s.callers[i]
          case Waiting(Wake(prop)) => prop.GetOr(cpu.high) in tops
          case LoadHigh(prop) => prop.GetOr(cpu.high) in tops
          case ReadDefault(prop) => prop.GetOr(s.maxFreq) in tops
          case LoadCap(cap) => cap in tops
          case WriteMax => s.maxFreq in tops
          case WriteLow => s.minFreq in rest
          case _ => true)
  }

  lemma ThreadKeepsExclusive(s: State, t: nat)
    requires Exclusive(s) && t < |s.threads|
    ensures Exclusive(ThreadNext(s, t))
  {
  }

  lemma CallerKeepsExclusive(cpu: Cpu, s: State, i: nat)
    requires Exclusive(s) && i < |s.callers|
    ensures Exclusive(CallerNext(cpu, s, i))
  {
  }

  lemma NextKeepsExclusive(cpu: Cpu, s: State, a: Action)
    requires Exclusive(s)
    ensures Exclusive(Next(cpu, s, a))
  {
    match a
    case ThreadStep(t) => if t < |s.threads| { ThreadKeepsExclusive(s, t); }
    case CallerStep(i) => if i < |s.callers| { CallerKeepsExclusive(cpu, s, i); }
    case _ =>
  }

  lemma ThreadKeepsFiles(cpu: Cpu, s: State, t: nat, rest: set<Freq>, tops: set<Freq>)
    requires Exclusive(s) && FilesSane(cpu, s, rest, tops) && rest <= tops && t < |s.threads|
    ensures FilesSane(cpu, ThreadNext(s, t), rest, tops)
  {
    if s.threads[t] != Done {
      assert s.tid == Some(t);
    }
  }

  lemma CallerKeepsFiles(cpu: Cpu, s: State, i: nat, rest: set<Freq>, tops: set<Freq>)
    requires Exclusive(s) && FilesSane(cpu, s, rest, tops) && rest <= tops && cpu.low in rest && i < |s.callers|
    ensures FilesSane(cpu, CallerNext(cpu, s, i), rest, tops)
  {
    if InLock(s.callers[i]) {
      assert s.lock == Some(i);
      assert forall j :: 0 <= j < |s.callers| && j != i ==> !InLock(s.callers[j]);
    }
  }

  lemma NextKeepsFiles(cpu: Cpu, s: State, a: Action, rest: set<Freq>, tops: set<Freq>)
    requires Exclusive(s) && FilesSane(cpu, s, rest, tops) && rest <= tops && cpu.low in rest
    requires a.Invoke? && a.call.Wake? ==> a.call.prop.GetOr(cpu.high) in tops
    ensures FilesSane(cpu, Next(cpu, s, a), rest, tops)
  {
    match a
    case ThreadStep(t) => if t < |s.threads| { ThreadKeepsFiles(cpu, s, t, rest, tops); }
    case CallerStep(i) => if i < |s.callers| { CallerKeepsFiles(cpu, s, i, rest, tops); }
    case _ =>
  }

  ghost predicate CapsIn(cpu: Cpu, acts: seq<Action>, tops: set<Freq>) {
    forall k :: 0 <= k < |acts| && acts[k].Invoke? && acts[k].call.Wake? ==> acts[k].call.prop.GetOr(cpu.high) in tops
  }

  lemma {:induction false} RunKeeps(cpu: Cpu, s: State, acts: seq<Action>, rest: set<Freq>, tops: set<Freq>)
    requires Exclusive(s) && FilesSane(cpu, s, rest, tops) && rest <= tops && cpu.low in rest && CapsIn(cpu, acts, tops)
    ensures Exclusive(Run(cpu, s, acts)) && FilesSane(cpu, Run(cpu, s, acts), rest, tops)
    decreases acts
  {
    if acts != [] {
      NextKeepsExclusive(cpu, s, acts[0]);
      NextKeepsFiles(cpu, s, acts[0], rest, tops);
      RunKeeps(cpu, Next(cpu, s, acts[0]), acts[1..], rest, tops);
    }
  }

  // ---------- Safety over every interleaving ----------

  /** At most one boost thread is not done, one is exactly when the thread id is set, and the floor is
      one of `rest` unless that thread is to restore it. */
  ghost predicate BoostContained(s: State, rest: set<Freq>) {
    && (forall t, u :: 0 <= t < u < |s.threads| ==> s.threads[t] == Done || s.threads[u] == Done)
    && ((exists t :: 0 <= t < |s.threads| && s.threads[t] != Done) <==> s.tid.Some?)
    && (Restore !in s.threads ==> s.scalingMin in rest)
  }

  /** MAIN RESULT. In every interleaving at most one boost thread is not done, and it is the one the
      thread id names; and whenever none is between raising and restoring the floor, scaling_min_freq
      holds its original value or the CPU minimum. */
  lemma BoostIsExclusiveAndUndone(cpu: Cpu, min0: Freq, max0: Freq, acts: seq<Action>)
    ensures BoostContained(Run(cpu, Start(min0, max0), acts), {min0, cpu.low})
  {
    var tops := {min0, max0, cpu.low} + Caps(cpu, acts);
    RunKeeps(cpu, Start(min0, max0), acts, {min0, cpu.low}, tops);
    var s := Run(cpu, Start(min0, max0), acts);
    if s.tid.Some? {
      assert s.threads[s.tid.value] != Done;
    }
  }

  /** The ceilings that wake calls ask for: the configured one, or the CPU's maximum. */
  function Caps(cpu: Cpu, acts: seq<Action>): set<Freq> {
    set k | 0 <= k < |acts| && acts[k].Invoke? && acts[k].call.Wake? :: acts[k].call.prop.GetOr(cpu.high)
  }

  /** In every interleaving scaling_max_freq holds its original value, a configured cap of some wake
      call, the CPU minimum, or (through the shared buffer) the original scaling_min_freq. */
  lemma CeilingIsKnown(cpu: Cpu, min0: Freq, max0: Freq, acts: seq<Action>)
    ensures Run(cpu, Start(min0, max0), acts).scalingMax in {min0, max0, cpu.low} + Caps(cpu, acts)
  {
    var tops := {min0, max0, cpu.low} + Caps(cpu, acts);
    RunKeeps(cpu, Start(min0, max0), acts, {min0, cpu.low}, tops);
  }

  // ---------- The shared buffers lose updates ----------

  /** The action is a boost thread's load of maxFreq (at ReadMax) or of minFreq (at ReadMin). */
  predicate LoadsNow(s: State, a: Action, pc: Thread) {
    a.ThreadStep? && a.t < |s.threads| && s.threads[a.t] == pc
  }

  /** Some step of the run is such a load. */
  predicate Loads(cpu: Cpu, s: State, acts: seq<Action>, pc: Thread)
    decreases acts
  {
    acts != [] && (LoadsNow(s, acts[0], pc) || Loads(cpu, Next(cpu, s, acts[0]), acts[1..], pc))
  }

  predicate Avoids(acts: seq<Action>, i: nat) {
    forall k :: 0 <= k < |acts| ==> acts[k] != CallerStep(i) && acts[k] != CreateFails(i)
  }

  predicate BeforeLoads(s: State) {
    Running(s) == ReadMax || Running(s) == ReadMin
  }

  /** While caller i holds the lock, another's step leaves the ceiling and the caller alone; only a
      boost thread's load changes a buffer, and it moves past its loads. */
  lemma HolderStep(cpu: Cpu, s: State, a: Action, i: nat)
    requires Exclusive(s) && i < |s.callers| && InLock(s.callers[i])
    requires a != CallerStep(i) && a != CreateFails(i)
    ensures var s' := Next(cpu, s, a);
            && Exclusive(s') && i < |s'.callers| && s'.callers[i] == s.callers[i] && s'.scalingMax == s.scalingMax
            && s'.maxFreq == (if LoadsNow(s, a, ReadMax) then s.scalingMax else s.maxFreq)
            && s'.minFreq == (if LoadsNow(s, a, ReadMin) then s.scalingMin else s.minFreq)
            && (LoadsNow(s, a, ReadMin) || s'.scalingMin != s.scalingMin || !BeforeLoads(s) ==> !BeforeLoads(s'))
            && (LoadsNow(s, a, ReadMin) ==> BeforeLoads(s))
  {
    NextKeepsExclusive(cpu, s, a);
    assert s.lock == Some(i);
  }

  lemma AvoidsTail(acts: seq<Action>, i: nat)
    requires Avoids(acts, i) && acts != []
    ensures acts[0] != CallerStep(i) && acts[0] != CreateFails(i) && Avoids(acts[1..], i)
  {
    assert forall k :: 0 <= k < |acts[1..]| ==> acts[1..][k] == acts[k + 1];
  }

  /** While caller i holds the lock and takes no step, the ceiling stays, and the buffer maxFreq
      changes only as a boost thread loads the ceiling into it. */
  lemma {:induction false} WhileHolding(cpu: Cpu, s: State, acts: seq<Action>, i: nat)
    requires Exclusive(s) && i < |s.callers| && InLock(s.callers[i]) && Avoids(acts, i)
    ensures var s' := Run(cpu, s, acts);
            && Exclusive(s') && i < |s'.callers| && s'.callers[i] == s.callers[i] && s'.scalingMax == s.scalingMax
            && s'.maxFreq == if Loads(cpu, s, acts, ReadMax) then s.scalingMax else s.maxFreq
    decreases acts
  {
    hide Next;
    if acts != [] {
      AvoidsTail(acts, i);
      HolderStep(cpu, s, acts[0], i);
      WhileHolding(cpu, Next(cpu, s, acts[0]), acts[1..], i);
    }
  }

  /** The next step of caller i, and then the steps w. */
  function Turn(cpu: Cpu, s: State, i: nat, w: seq<Action>): State {
    Run(cpu, Next(cpu, s, CallerStep(i)), w)
  }

  lemma TurnFirst(cpu: Cpu, s: State, i: nat, w: seq<Action>, rest: seq<Action>)
    ensures Run(cpu, s, [CallerStep(i)] + w + rest) == Run(cpu, Turn(cpu, s, i, w), rest)
  {
    var acts := [CallerStep(i)] + w + rest;
    assert acts[1..] == w + rest;
    RunConcat(cpu, Next(cpu, s, CallerStep(i)), w, rest);
  }

  /** One turn of a caller inside the lock that does not leave: others change neither the ceiling nor the
      caller. */
  lemma HeldTurn(cpu: Cpu, s: State, i: nat, w: seq<Action>)
    requires Exclusive(s) && i < |s.callers| && Avoids(w, i) && s.lock in {None, Some(i)}
    requires match s.callers[i]
             case Waiting(call) => call.Wake? || call.Suspend?
             case SaveMax => true
             case LoadLow => true
             case WriteLow => true
             case LoadHigh(_) => true
             case ReadDefault(_) => true
             case LoadCap(_) => true
             case WriteMax => true
             case _ => false
    ensures var s1, s' := CallerNext(cpu, s, i), Turn(cpu, s, i, w);
            && Exclusive(s') && i < |s'.callers| && s'.callers[i] == s1.callers[i]
            && s'.lock == Some(i) && s'.scalingMax == s1.scalingMax
            && s'.maxFreq == if Loads(cpu, s1, w, ReadMax) then s1.scalingMax else s1.maxFreq
  {
    CallerKeepsExclusive(cpu, s, i);
    WhileHolding(cpu, CallerNext(cpu, s, i), w, i);
  }

  /** A boost thread loads the old ceiling in the steps w behind the next step of caller i. */
  predicate LoadsInTurn(cpu: Cpu, s: State, i: nat, w: seq<Action>) {
    Loads(cpu, Next(cpu, s, CallerStep(i)), w, ReadMax)
  }

  /** The steps of a wake call from taking the lock to its return, and the steps of others behind each
      but the last of them. */
  function WakeSchedule(i: nat, w0: seq<Action>, w1: seq<Action>, w2: seq<Action>, w3: seq<Action>,
                        w4: seq<Action>): seq<Action> {
    var c := [CallerStep(i)];
    c + w0 + (c + w1 + (c + w2 + (c + w3 + (c + w4 + c))))
  }

  lemma WakeTurns(cpu: Cpu, s: State, i: nat, w0: seq<Action>, w1: seq<Action>, w2: seq<Action>, w3: seq<Action>,
                  w4: seq<Action>)
    ensures var s3 := Turn(cpu, Turn(cpu, Turn(cpu, s, i, w0), i, w1), i, w2);
            Run(cpu, s, WakeSchedule(i, w0, w1, w2, w3, w4))
            == Next(cpu, Turn(cpu, Turn(cpu, s3, i, w3), i, w4), CallerStep(i))
  {
    hide Turn;
    var c := [CallerStep(i)];
    var s1 := Turn(cpu, s, i, w0);
    var s2 := Turn(cpu, s1, i, w1);
    var s3 := Turn(cpu, s2, i, w2);
    var s4 := Turn(cpu, s3, i, w3);
    TurnFirst(cpu, s, i, w0, c + w1 + (c + w2 + (c + w3 + (c + w4 + c))));
    TurnFirst(cpu, s1, i, w1, c + w2 + (c + w3 + (c + w4 + c)));
    TurnFirst(cpu, s2, i, w2, c + w3 + (c + w4 + c));
    TurnFirst(cpu, s3, i, w3, c + w4 + c);
    TurnFirst(cpu, s4, i, w4, c);
    assert c + [] == c;
    RunStep(cpu, Turn(cpu, s4, i, w4), CallerStep(i), []);
  }

  /** MAIN RESULT. Whatever others do meanwhile, a wake call returns and frees the lock, and the ceiling is
      then the configured one, or the CPU's maximum when none is configured, if and only if it was that
      already, or no boost thread loads the old ceiling between the call's last load and its write and,
      with none configured, none does between its load of the CPU's maximum and its reading of that. */
  lemma WakeTakesEffectIff(cpu: Cpu, s: State, i: nat, prop: Option<Freq>, w0: seq<Action>, w1: seq<Action>,
                           w2: seq<Action>, w3: seq<Action>, w4: seq<Action>)
    requires Exclusive(s) && s.lock == None && i < |s.callers| && s.callers[i] == Waiting(Wake(prop))
    requires Avoids(w0, i) && Avoids(w1, i) && Avoids(w2, i) && Avoids(w3, i) && Avoids(w4, i)
    ensures var ceiling := prop.GetOr(cpu.high);
            var s1 := Turn(cpu, s, i, w0);
            var s3 := Turn(cpu, Turn(cpu, s1, i, w1), i, w2);
            var s' := Run(cpu, s, WakeSchedule(i, w0, w1, w2, w3, w4));
            && i < |s'.callers| && s'.callers[i] == Returned && s'.lock == None
            && (s'.scalingMax == ceiling
                <==> s.scalingMax == ceiling
                     || (!LoadsInTurn(cpu, s3, i, w3) && (prop.None? ==> !LoadsInTurn(cpu, s1, i, w1))))
  {
    hide Turn, Loads, Exclusive, WakeSchedule;
    var s1 := Turn(cpu, s, i, w0);
    var s2 := Turn(cpu, s1, i, w1);
    var s3 := Turn(cpu, s2, i, w2);
    var s4 := Turn(cpu, s3, i, w3);
    WakeTurns(cpu, s, i, w0, w1, w2, w3, w4);
    HeldTurn(cpu, s, i, w0);
    HeldTurn(cpu, s1, i, w1);
    HeldTurn(cpu, s2, i, w2);
    HeldTurn(cpu, s3, i, w3);
    HeldTurn(cpu, s4, i, w4);
  }

  /** Undisturbed, a wake call sets the ceiling so and changes nothing else that lasts. */
  lemma WakeAlone(cpu: Cpu, s: State, i: nat, prop: Option<Freq>)
    requires s.lock == None && i < |s.callers| && s.callers[i] == Waiting(Wake(prop))
    ensures var ceiling := prop.GetOr(cpu.high);
            Run(cpu, s, WakeSchedule(i, [], [], [], [], []))
            == s.(maxFreq := ceiling, scalingMax := ceiling, callers := s.callers[i := Returned])
  {
    var s1 := Next(cpu, s, CallerStep(i));
    var s2 := Next(cpu, s1, CallerStep(i));
    var s3 := Next(cpu, s2, CallerStep(i));
    var s4 := Next(cpu, s3, CallerStep(i));
    var s5 := Next(cpu, s4, CallerStep(i));
    WakeTurns(cpu, s, i, [], [], [], [], []);
    LastTurn(cpu, s, i);
    LastTurn(cpu, s1, i);
    LastTurn(cpu, s2, i);
    LastTurn(cpu, s3, i);
    LastTurn(cpu, s4, i);
    assert s5.callers[i := Returned] == s.callers[i := Returned];
  }

  lemma LastTurn(cpu: Cpu, s: State, i: nat)
    ensures Turn(cpu, s, i, []) == Next(cpu, s, CallerStep(i))
  {
  }

  lemma {:induction false} RunAppend(cpu: Cpu, s: State, acts: seq<Action>, a: Action)
    ensures Run(cpu, s, acts + [a]) == Next(cpu, Run(cpu, s, acts), a)
    decreases acts
  {
    if acts == [] {
      assert acts + [a] == [a] && [a][1..] == [];
    } else {
      assert (acts + [a])[1..] == acts[1..] + [a];
      RunAppend(cpu, Next(cpu, s, acts[0]), acts[1..], a);
    }
  }

  /** While caller i stands at WriteLow, the buffer changes only as a boost thread loads the floor,
      which at that time still is what it was. */
  lemma {:induction false} WhileWritingLow(cpu: Cpu, s: State, acts: seq<Action>, i: nat)
    requires Exclusive(s) && i < |s.callers| && s.callers[i].WriteLow? && Avoids(acts, i)
    ensures var s' := Run(cpu, s, acts);
            && i < |s'.callers| && s'.callers[i] == s.callers[i]
            && s'.minFreq == if Loads(cpu, s, acts, ReadMin) then s.scalingMin else s.minFreq
    decreases acts
  {
    hide Next;
    if acts != [] {
      var s1 := Next(cpu, s, acts[0]);
      AvoidsTail(acts, i);
      HolderStep(cpu, s, acts[0], i);
      WhileWritingLow(cpu, s1, acts[1..], i);
      if !BeforeLoads(s1) {
        NoSecondLoad(cpu, s1, acts[1..], i);
      }
    }
  }

  /** With the lock held by a caller that creates nothing, a thread past its loads never loads again. */
  lemma {:induction false} NoSecondLoad(cpu: Cpu, s: State, acts: seq<Action>, i: nat)
    requires Exclusive(s) && i < |s.callers| && s.callers[i].WriteLow? && Avoids(acts, i) && !BeforeLoads(s)
    ensures !Loads(cpu, s, acts, ReadMin)
    decreases acts
  {
    hide Next;
    if acts != [] {
      AvoidsTail(acts, i);
      HolderStep(cpu, s, acts[0], i);
      NoSecondLoad(cpu, Next(cpu, s, acts[0]), acts[1..], i);
    }
  }

  /** The window between a suspend call's load of the CPU minimum and its write. */
  lemma SuspendWindow(cpu: Cpu, s: State, acts: seq<Action>, i: nat)
    requires Exclusive(s) && i < |s.callers| && s.callers[i].WriteLow? && Avoids(acts, i)
    requires s.minFreq == cpu.low
    ensures Run(cpu, s, acts + [CallerStep(i)]).scalingMax == cpu.low
            <==> s.scalingMin == cpu.low || !Loads(cpu, s, acts, ReadMin)
  {
    WhileWritingLow(cpu, s, acts, i);
    RunAppend(cpu, s, acts, CallerStep(i));
  }

  /** The steps of a suspend call from taking the lock to its return, with those of others. */
  function SuspendSchedule(i: nat, w0: seq<Action>, w1: seq<Action>, w2: seq<Action>, w3: seq<Action>): seq<Action> {
    var c := [CallerStep(i)];
    c + w0 + (c + w1 + (c + w2 + (c + w3 + c)))
  }

  lemma SuspendTurns(cpu: Cpu, s: State, i: nat, w0: seq<Action>, w1: seq<Action>, w2: seq<Action>, w3: seq<Action>)
    ensures var s3 := Turn(cpu, Turn(cpu, Turn(cpu, s, i, w0), i, w1), i, w2);
            Run(cpu, s, SuspendSchedule(i, w0, w1, w2, w3)) == Next(cpu, Turn(cpu, s3, i, w3), CallerStep(i))
  {
    hide Turn;
    var c := [CallerStep(i)];
    var s1 := Turn(cpu, s, i, w0);
    var s2 := Turn(cpu, s1, i, w1);
    var s3 := Turn(cpu, s2, i, w2);
    TurnFirst(cpu, s, i, w0, c + w1 + (c + w2 + (c + w3 + c)));
    TurnFirst(cpu, s1, i, w1, c + w2 + (c + w3 + c));
    TurnFirst(cpu, s2, i, w2, c + w3 + c);
    TurnFirst(cpu, s3, i, w3, c);
    assert c + [] == c;
    RunStep(cpu, Turn(cpu, s3, i, w3), CallerStep(i), []);
  }

  lemma TurnIs(cpu: Cpu, s: State, i: nat, w: seq<Action>)
    ensures Turn(cpu, s, i, w) == Run(cpu, Next(cpu, s, CallerStep(i)), w)
  {
  }

  /** MAIN RESULT. Whatever others do meanwhile, a suspend call returns and frees the lock, and the ceiling
      is then the CPU minimum if and only if the floor is the CPU minimum as the call loads that, or no
      boost thread loads the floor between that load and the call's write. */
  lemma SuspendTakesEffectIff(cpu: Cpu, s: State, i: nat, w0: seq<Action>, w1: seq<Action>, w2: seq<Action>,
                              w3: seq<Action>)
    requires Exclusive(s) && s.lock == None && i < |s.callers| && s.callers[i] == Waiting(Suspend)
    requires Avoids(w0, i) && Avoids(w1, i) && Avoids(w2, i) && Avoids(w3, i)
    ensures var s2 := Turn(cpu, Turn(cpu, s, i, w0), i, w1);
            var s' := Run(cpu, s, SuspendSchedule(i, w0, w1, w2, w3));
            && i < |s'.callers| && s'.callers[i] == Returned && s'.lock == None
            && (s'.scalingMax == cpu.low
                <==> s2.scalingMin == cpu.low || !Loads(cpu, Next(cpu, s2, CallerStep(i)), w2, ReadMin))
  {
    hide Turn, Loads, Exclusive, SuspendSchedule;
    var s1 := Turn(cpu, s, i, w0);
    var s2 := Turn(cpu, s1, i, w1);
    var s3 := Turn(cpu, s2, i, w2);
    SuspendTurns(cpu, s, i, w0, w1, w2, w3);
    TurnIs(cpu, s2, i, w2);
    RunAppend(cpu, Next(cpu, s2, CallerStep(i)), w2, CallerStep(i));
    HeldTurn(cpu, s, i, w0);
    HeldTurn(cpu, s1, i, w1);
    HeldTurn(cpu, s2, i, w2);
    HeldTurn(cpu, s3, i, w3);
    CallerKeepsExclusive(cpu, s2, i);
    SuspendWindow(cpu, CallerNext(cpu, s2, i), w2, i);
  }

  /** Undisturbed, a suspend call does so and changes nothing else that lasts. */
  lemma SuspendAlone(cpu: Cpu, s: State, i: nat)
    requires s.lock == None && i < |s.callers| && s.callers[i] == Waiting(Suspend)
    ensures Run(cpu, s, SuspendSchedule(i, [], [], [], []))
            == s.(interactiveMax := s.scalingMax, minFreq := cpu.low, scalingMax := cpu.low,
                  callers := s.callers[i := Returned])
  {
    var s1 := Next(cpu, s, CallerStep(i));
    var s2 := Next(cpu, s1, CallerStep(i));
    var s3 := Next(cpu, s2, CallerStep(i));
    var s4 := Next(cpu, s3, CallerStep(i));
    SuspendTurns(cpu, s, i, [], [], [], []);
    LastTurn(cpu, s, i);
    LastTurn(cpu, s1, i);
    LastTurn(cpu, s2, i);
    LastTurn(cpu, s3, i);
    assert s4.callers[i := Returned] == s.callers[i := Returned];
  }

  lemma RunStep(cpu: Cpu, s: State, a: Action, rest: seq<Action>)
    ensures Run(cpu, s, [a] + rest) == Run(cpu, Next(cpu, s, a), rest)
  {
    assert ([a] + rest)[1..] == rest;
  }

  /** A hint has started a boost thread, and caller 1 makes a call. */
  function Calling(floor: Freq, ceiling: Freq, call: Call): State {
    State(Some(0), 0, 0, 0, floor, ceiling, [ReadMax], [Returned, Waiting(call)], None)
  }

  /** It is reached from the start. */
  lemma CallingIsReached(cpu: Cpu, floor: Freq, ceiling: Freq, call: Call)
    ensures var acts := [Invoke(HintInteraction), CallerStep(0), CallerStep(0), CallerStep(0), CallerStep(0),
                         Invoke(call)];
            Run(cpu, Start(floor, ceiling), acts) == Calling(floor, ceiling, call)
  {
    var a := [Invoke(HintInteraction), CallerStep(0), CallerStep(0), CallerStep(0), CallerStep(0)];
    var b := [Invoke(call)];
    var s1 := State(Some(0), 0, 0, 0, floor, ceiling, [ReadMax], [Returned], None);
    assert Run(cpu, Start(floor, ceiling), a) == s1;
    assert Run(cpu, s1, b) == Calling(floor, ceiling, call);
    RunConcat(cpu, Start(floor, ceiling), a, b);
    assert a + b == [Invoke(HintInteraction), CallerStep(0), CallerStep(0), CallerStep(0), CallerStep(0),
                     Invoke(call)];
  }

  /** With a ceiling of 1200 configured, waking leaves it at 600: the boost thread's first load falls
      between the wake call's last two steps. */
  lemma WakeCanBeLost()
    ensures var s := Calling(600, 600, Wake(Some(1200)));
            Run(Cpu(600, 1500), s, WakeSchedule(1, [], [], [], [ThreadStep(0)], [])).scalingMax == 600
  {
    var cpu, s, w := Cpu(600, 1500), Calling(600, 600, Wake(Some(1200))), [ThreadStep(0)];
    WakeTurns(cpu, s, 1, [], [], [], w, []);
    var s3 := State(Some(0), 0, 1500, 0, 600, 600, [ReadMax], [Returned, LoadCap(1200)], Some(1));
    assert Turn(cpu, Turn(cpu, Turn(cpu, s, 1, []), 1, []), 1, []) == s3;
    assert w[1..] == [];
    assert Turn(cpu, s3, 1, w) == State(Some(0), 0, 600, 0, 600, 600, [ReadMin], [Returned, WriteMax], Some(1));
  }

  /** With none configured the same happens when that load falls behind the load of the CPU's maximum:
      the wake call then reads the old ceiling as its default. */
  lemma OldCeilingReadAsDefault()
    ensures var s := Calling(600, 600, Wake(None));
            Run(Cpu(600, 1500), s, WakeSchedule(1, [], [ThreadStep(0)], [], [], [])).scalingMax == 600
  {
    var cpu, s, w := Cpu(600, 1500), Calling(600, 600, Wake(None)), [ThreadStep(0)];
    WakeTurns(cpu, s, 1, [], w, [], [], []);
    var s1 := State(Some(0), 0, 0, 0, 600, 600, [ReadMax], [Returned, LoadHigh(None)], Some(1));
    assert Turn(cpu, s, 1, []) == s1;
    assert w[1..] == [];
    var s2 := State(Some(0), 0, 600, 0, 600, 600, [ReadMin], [Returned, ReadDefault(None)], Some(1));
    assert Turn(cpu, s1, 1, w) == s2;
    var s3 := State(Some(0), 0, 600, 0, 600, 600, [ReadMin], [Returned, LoadCap(600)], Some(1));
    assert Turn(cpu, s2, 1, []) == s3;
  }

  /** With a floor of 800, suspending sets the ceiling to 800, not 600: the boost thread loads ceiling and floor
      between the call's load of the CPU minimum and its write. */
  lemma SuspendCanBeLost()
    ensures var s, w := Calling(800, 1500, Suspend), [ThreadStep(0), ThreadStep(0)];
            Run(Cpu(600, 1500), s, SuspendSchedule(1, [], [], w, [])).scalingMax == 800
  {
    var cpu, s, w := Cpu(600, 1500), Calling(800, 1500, Suspend), [ThreadStep(0), ThreadStep(0)];
    var s1 := State(Some(0), 0, 0, 1500, 800, 1500, [ReadMax], [Returned, LoadLow], Some(1));
    assert Turn(cpu, Turn(cpu, s, 1, []), 1, []) == s1;
    assert w[1..] == [ThreadStep(0)] && w[1..][1..] == [];
    var s2 := State(Some(0), 800, 1500, 1500, 800, 1500, [Compare], [Returned, WriteLow], Some(1));
    assert Turn(cpu, s1, 1, w) == s2;
    SuspendTurns(cpu, s, 1, [], [], w, []);
  }

  // ---------- A boost and the floor it found ----------

  /** The action is a suspend call's load of the CPU minimum into minFreq. */
  predicate LowersNow(s: State, a: Action) {
    a.CallerStep? && a.i < |s.callers| && s.callers[a.i] == LoadLow
  }

  /** Some step of the run is such a load. */
  predicate Lowers(cpu: Cpu, s: State, acts: seq<Action>)
    decreases acts
  {
    acts != [] && (LowersNow(s, acts[0]) || Lowers(cpu, Next(cpu, s, acts[0]), acts[1..]))
  }

  predicate Boosting(pc: Thread) {
    pc in {Compare, Raise, Restore}
  }

  /** The thread has restored the floor, or left it. */
  predicate Leaving(pc: Thread) {
    pc in {GiveUp, Release, Done}
  }

  /** While thread t boosts, minFreq changes only as a suspend call loads the CPU minimum into it. */
  lemma BoostingStep(cpu: Cpu, s: State, a: Action, t: nat)
    requires Exclusive(s) && t < |s.threads| && Boosting(s.threads[t])
    ensures var s' := Next(cpu, s, a);
            && Exclusive(s') && t < |s'.threads| && (Boosting(s'.threads[t]) || Leaving(s'.threads[t]))
            && s'.minFreq == if LowersNow(s, a) then cpu.low else s.minFreq
  {
    NextKeepsExclusive(cpu, s, a);
    assert s.tid == Some(t);
  }

  lemma LeavingStep(cpu: Cpu, s: State, a: Action, t: nat)
    requires t < |s.threads| && Leaving(s.threads[t])
    ensures var s' := Next(cpu, s, a); t < |s'.threads| && Leaving(s'.threads[t])
  {
  }

  lemma {:induction false} NeverBoostsAgain(cpu: Cpu, s: State, acts: seq<Action>, t: nat)
    requires t < |s.threads| && Leaving(s.threads[t])
    ensures var s' := Run(cpu, s, acts); t < |s'.threads| && Leaving(s'.threads[t])
    decreases acts
  {
    hide Next;
    if acts != [] {
      LeavingStep(cpu, s, acts[0], t);
      NeverBoostsAgain(cpu, Next(cpu, s, acts[0]), acts[1..], t);
    }
  }

  lemma {:induction false} WhileBoosting(cpu: Cpu, s: State, acts: seq<Action>, t: nat)
    requires Exclusive(s) && t < |s.threads| && Boosting(s.threads[t])
    requires var s' := Run(cpu, s, acts); t < |s'.threads| && s'.threads[t] == Restore
    ensures Run(cpu, s, acts).minFreq == if Lowers(cpu, s, acts) then cpu.low else s.minFreq
    decreases acts
  {
    hide Next, LowersNow, Exclusive;
    if acts != [] {
      var s1 := Next(cpu, s, acts[0]);
      BoostingStep(cpu, s, acts[0], t);
      if Leaving(s1.threads[t]) {
        NeverBoostsAgain(cpu, s1, acts[1..], t);
      } else {
        WhileBoosting(cpu, s1, acts[1..], t);
      }
    }
  }

  /** MAIN RESULT. Whatever happens between a boost thread's load of the floor and its restoring, the floor
      is afterwards what the thread loaded if and only if that is the CPU minimum or no suspend call has
      loaded the CPU minimum in between, which it does into the same buffer. */
  lemma BoostRestoresIff(cpu: Cpu, s: State, acts: seq<Action>, t: nat)
    requires Exclusive(s) && t < |s.threads| && s.threads[t] == ReadMin
    requires var s' := Run(cpu, ThreadNext(s, t), acts); t < |s'.threads| && s'.threads[t] == Restore
    ensures Run(cpu, s, [ThreadStep(t)] + acts + [ThreadStep(t)]).scalingMin == s.scalingMin
            <==> s.scalingMin == cpu.low || !Lowers(cpu, ThreadNext(s, t), acts)
  {
    var s1 := ThreadNext(s, t);
    ThreadKeepsExclusive(s, t);
    WhileBoosting(cpu, s1, acts, t);
    assert [ThreadStep(t)] + acts + [ThreadStep(t)] == [ThreadStep(t)] + (acts + [ThreadStep(t)]);
    RunStep(cpu, s, ThreadStep(t), acts + [ThreadStep(t)]);
    RunAppend(cpu, s1, acts, ThreadStep(t));
  }

  /** A boost from a floor of 800 leaves it at the CPU minimum of 600, because a suspend call loads that
      while the floor is raised. */
  lemma BoostCanLowerFloor()
    ensures var s := Calling(800, 1500, Suspend).(threads := [ReadMin], maxFreq := 1500);
            var acts := [ThreadStep(0), ThreadStep(0), CallerStep(1), CallerStep(1), CallerStep(1)];
            Run(Cpu(600, 1500), s, [ThreadStep(0)] + acts + [ThreadStep(0)]).scalingMin == 600
  {
    var cpu := Cpu(600, 1500);
    var s := Calling(800, 1500, Suspend).(threads := [ReadMin], maxFreq := 1500);
    var a := [ThreadStep(0), ThreadStep(0), ThreadStep(0)];
    var b := [CallerStep(1), CallerStep(1), CallerStep(1), ThreadStep(0)];
    var s1 := State(Some(0), 800, 1500, 0, 1500, 1500, [Restore], [Returned, Waiting(Suspend)], None);
    assert Run(cpu, s, a) == s1;
    assert Run(cpu, s1, b) == State(Some(0), 600, 1500, 1500, 600, 1500, [Release], [Returned, WriteLow], Some(1));
    RunConcat(cpu, s, a, b);
    assert a + b == [ThreadStep(0)] + [ThreadStep(0), ThreadStep(0), CallerStep(1), CallerStep(1), CallerStep(1)]
                    + [ThreadStep(0)];
  }

  lemma {:induction false} RunConcat(cpu: Cpu, s: State, a: seq<Action>, b: seq<Action>)
    ensures Run(cpu, s, a + b) == Run(cpu, Run(cpu, s, a), b)
    decreases a
  {
    if a == [] {
      assert a + b == b;
    } else {
      assert (a + b)[1..] == a[1..] + b;
      RunConcat(cpu, Next(cpu, s, a[0]), a[1..], b);
    }
  }
}
