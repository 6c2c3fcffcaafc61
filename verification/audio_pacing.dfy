/** The audio HAL's input stream: silence delivered at the pace of a virtual clock. */
module AudioPacing {
  import opened Common

  /** One read: when it is entered (monotonic clock, microseconds) and how many bytes it asks for. */
  datatype Read = Read(now: int, bytes: nat)

  /** How long the requested bytes last, by the two nested integer divisions of the source. */
  function Duration(bytes: nat, frameSize: nat, rate: nat): nat
    requires frameSize > 0 && rate > 0
  {
    bytes * 1000000 / frameSize / rate
  }

  /** The clock after a read of the given duration; 0 means standby. */
  function Advance(last: int, now: int, duration: nat): int {
    var elapsed := if last == 0 then 0 else now - last;
    now + Max(duration - elapsed, 0)
  }

  class InputStream {
    var lastReadTimeUs: int
    var sampleRate: nat
    const frameSize: nat

    constructor (sampleRate: nat, frameSize: nat)
      ensures lastReadTimeUs == 0 && this.sampleRate == sampleRate && this.frameSize == frameSize
    {
      lastReadTimeUs, this.sampleRate, this.frameSize := 0, sampleRate, frameSize;
    }

    method Standby()
      modifies this`lastReadTimeUs
      ensures lastReadTimeUs == 0
    {
      lastReadTimeUs := 0;
    }

    /** Sleeps for the returned time, fills the buffer with silence, and moves the clock. */
    method InRead(now: int, buffer: array<Byte>) returns (slept: nat, count: nat)
      requires frameSize > 0 && sampleRate > 0
      modifies this`lastReadTimeUs, buffer
      ensures count == buffer.Length && forall i :: 0 <= i < buffer.Length ==> buffer[i] == 0
      ensures lastReadTimeUs == now + slept
      ensures lastReadTimeUs == Advance(old(lastReadTimeUs), now, Duration(buffer.Length, frameSize, sampleRate))
    {
      var standby := lastReadTimeUs == 0;
      var elapsed := if standby then 0 else now - lastReadTimeUs;
      var sleepTime: int := buffer.Length * 1000000 / frameSize / sampleRate - elapsed;
      if sleepTime <= 0 {
        sleepTime := 0;
      }
      lastReadTimeUs := now + sleepTime;
      forall i | 0 <= i < buffer.Length {
        buffer[i] := 0;
      }
      slept, count := sleepTime, buffer.Length;
    }
  }

  /** The clock after a run of reads without standby in between. */
  function Clock(last: int, calls: seq<Read>, frameSize: nat, rate: nat): int
    requires frameSize > 0 && rate > 0
    decreases calls
  {
    if calls == [] then last
    else Clock(Advance(last, calls[0].now, Duration(calls[0].bytes, frameSize, rate)), calls[1..], frameSize, rate)
  }

  function TotalDuration(calls: seq<Read>, frameSize: nat, rate: nat): nat
    requires frameSize > 0 && rate > 0
  {
    if calls == [] then 0 else Duration(calls[0].bytes, frameSize, rate) + TotalDuration(calls[1..], frameSize, rate)
  }

  /** The monotonic clock has started: no read is entered at time 0. */
  predicate Started(calls: seq<Read>) {
    forall k :: 0 <= k < |calls| ==> calls[k].now > 0
  }

  /** Outside standby the clock is the later of now and the time the buffer would have drained. */
  lemma ClockLaw(last: int, now: int, duration: nat)
    ensures Advance(last, now, duration) == if last == 0 then now + duration else Max(now, last + duration)
  {
  }

  /** The time at which the reader would be if read k were its last late one. */
  function LateAt(calls: seq<Read>, k: nat, frameSize: nat, rate: nat): int
    requires frameSize > 0 && rate > 0 && k < |calls|
  {
    calls[k].now + TotalDuration(calls[k + 1..], frameSize, rate)
  }

  /** MAIN RESULT. From any running clock, a run of reads leaves the clock at the largest of: the
      start plus all durations, and, for each read, its entry time plus all later durations. */
  lemma {:induction false} ClockIsMaximum(last: int, calls: seq<Read>, frameSize: nat, rate: nat)
    requires frameSize > 0 && rate > 0 && last > 0 && Started(calls)
    ensures var c := Clock(last, calls, frameSize, rate);
            && c >= last + TotalDuration(calls, frameSize, rate)
            && (forall k :: 0 <= k < |calls| ==> c >= LateAt(calls, k, frameSize, rate))
            && (c == last + TotalDuration(calls, frameSize, rate)
                || exists k :: 0 <= k < |calls| && c == LateAt(calls, k, frameSize, rate))
    decreases calls
  {
    if calls != [] {
      var rest := calls[1..];
      var next := Advance(last, calls[0].now, Duration(calls[0].bytes, frameSize, rate));
      ClockIsMaximum(next, rest, frameSize, rate);
      assert forall k :: 0 <= k < |rest| ==>
          calls[k + 2..] == rest[k + 1..] && LateAt(calls, k + 1, frameSize, rate) == LateAt(rest, k, frameSize, rate);
      var c := Clock(last, calls, frameSize, rate);
      forall k | 0 <= k < |calls|
        ensures c >= LateAt(calls, k, frameSize, rate)
      {
        if k > 0 {
          assert LateAt(calls, k, frameSize, rate) == LateAt(rest, k - 1, frameSize, rate);
        }
      }
      if c == next + TotalDuration(rest, frameSize, rate) {
        assert c == last + TotalDuration(calls, frameSize, rate) || c == LateAt(calls, 0, frameSize, rate);
      } else {
        var k :| 0 <= k < |rest| && c == LateAt(rest, k, frameSize, rate);
        assert c == LateAt(calls, k + 1, frameSize, rate);
      }
    }
  }

  /** Every read is entered no later than its data would have drained. */
  predicate NeverLate(last: int, calls: seq<Read>, frameSize: nat, rate: nat)
    requires frameSize > 0 && rate > 0
    decreases calls
  {
    calls != [] ==>
      var d := Duration(calls[0].bytes, frameSize, rate);
      calls[0].now <= last + d && NeverLate(last + d, calls[1..], frameSize, rate)
  }

  /** The clock is the start plus the summed durations exactly when no read is ever late. */
  lemma {:induction false} ExactWhenNeverLate(last: int, calls: seq<Read>, frameSize: nat, rate: nat)
    requires frameSize > 0 && rate > 0 && last > 0 && Started(calls)
    ensures Clock(last, calls, frameSize, rate) == last + TotalDuration(calls, frameSize, rate)
            <==> NeverLate(last, calls, frameSize, rate)
    decreases calls
  {
    if calls != [] {
      var d := Duration(calls[0].bytes, frameSize, rate);
      var next := Advance(last, calls[0].now, d);
      if calls[0].now <= last + d {
        ExactWhenNeverLate(next, calls[1..], frameSize, rate);
      } else {
        ClockIsMaximum(next, calls[1..], frameSize, rate);
      }
    }
  }

  // ---------- Pace: frames against time ----------

  /** Every read asks for whole frames. */
  predicate WholeFrames(calls: seq<Read>, frameSize: nat)
    requires frameSize > 0
  {
    forall k :: 0 <= k < |calls| ==> calls[k].bytes % frameSize == 0
  }

  function Frames(calls: seq<Read>, frameSize: nat): nat
    requires frameSize > 0
  {
    if calls == [] then 0 else calls[0].bytes / frameSize + Frames(calls[1..], frameSize)
  }

  lemma DivideProduct(n: nat, z: nat)
    requires z > 0
    ensures n * z / z == n
  {
    QuotientIs(n * z, z, n);
  }

  lemma QuotientIs(x: nat, z: nat, q: nat)
    requires z > 0 && q * z == x
    ensures x / z == q
  {
    var d := x / z - q;
    assert d * z == x / z * z - q * z;
    Steep(d, z);
  }

  lemma Steep(d: int, z: int)
    requires z > 0
    ensures d >= 1 ==> d * z >= z
    ensures d <= -1 ==> d * z <= -z
  {
  }

  lemma FloorBounds(x: nat, rate: nat)
    requires rate > 0
    ensures x - rate < rate * (x / rate) <= x
  {
  }

  /** For whole frames the nested divisions round only once. */
  lemma DurationOfFrames(bytes: nat, frameSize: nat, rate: nat)
    requires frameSize > 0 && rate > 0 && bytes % frameSize == 0
    ensures var f := bytes / frameSize;
            f * 1000000 - rate < rate * Duration(bytes, frameSize, rate) <= f * 1000000
  {
    var f := bytes / frameSize;
    assert bytes * 1000000 == f * 1000000 * frameSize;
    DivideProduct(f * 1000000, frameSize);
    FloorBounds(f * 1000000, rate);
  }

  lemma {:induction false} TotalOfFrames(calls: seq<Read>, frameSize: nat, rate: nat)
    requires frameSize > 0 && rate > 0 && WholeFrames(calls, frameSize)
    ensures var f, t := Frames(calls, frameSize), TotalDuration(calls, frameSize, rate);
            rate * t <= f * 1000000 <= rate * t + rate * |calls|
    ensures var f, t := Frames(calls, frameSize), TotalDuration(calls, frameSize, rate);
            calls != [] ==> f * 1000000 < rate * t + rate * |calls|
  {
    if calls != [] {
      var rest := calls[1..];
      TotalOfFrames(rest, frameSize, rate);
      DurationOfFrames(calls[0].bytes, frameSize, rate);
      Distribute(rate, Duration(calls[0].bytes, frameSize, rate), TotalDuration(rest, frameSize, rate));
      Distribute(rate, 1, |rest|);
    }
  }

  lemma Distribute(r: int, a: int, b: int)
    ensures r * (a + b) == r * a + r * b
  {
  }

  /** A session: the clock after reads that begin out of standby. */
  lemma FromStandby(calls: seq<Read>, frameSize: nat, rate: nat)
    requires frameSize > 0 && rate > 0 && calls != [] && Started(calls)
    ensures Clock(0, calls, frameSize, rate)
            == Clock(calls[0].now + Duration(calls[0].bytes, frameSize, rate), calls[1..], frameSize, rate)
    ensures Clock(0, calls, frameSize, rate) >= calls[0].now + TotalDuration(calls, frameSize, rate)
  {
    ClockIsMaximum(calls[0].now + Duration(calls[0].bytes, frameSize, rate), calls[1..], frameSize, rate);
  }

  /** MAIN RESULT. However the reader behaves, n >= 1 reads out of standby that deliver F whole
      frames end more than F * 1000000 / rate - n microseconds after the first was entered. */
  lemma NeverTooFast(calls: seq<Read>, frameSize: nat, rate: nat)
    requires frameSize > 0 && rate > 0 && calls != [] && Started(calls) && WholeFrames(calls, frameSize)
    ensures rate * (Clock(0, calls, frameSize, rate) - calls[0].now + |calls|) > Frames(calls, frameSize) * 1000000
  {
    FromStandby(calls, frameSize, rate);
    TotalOfFrames(calls, frameSize, rate);
    var t := TotalDuration(calls, frameSize, rate);
    var span := Clock(0, calls, frameSize, rate) - calls[0].now;
    Distribute(rate, t, |calls|);
    Monotone(rate, t + |calls|, span + |calls|);
  }

  lemma Monotone(r: nat, a: int, b: int)
    requires a <= b
    ensures r * a <= r * b
  {
  }

  /** A reader that is never late is also never held back: F frames take at most F * 1000000 / rate. */
  lemma NeverTooSlow(calls: seq<Read>, frameSize: nat, rate: nat)
    requires frameSize > 0 && rate > 0 && calls != [] && Started(calls) && WholeFrames(calls, frameSize)
    requires NeverLate(calls[0].now, calls, frameSize, rate)
    ensures rate * (Clock(0, calls, frameSize, rate) - calls[0].now) <= Frames(calls, frameSize) * 1000000
  {
    FromStandby(calls, frameSize, rate);
    ExactWhenNeverLate(calls[0].now + Duration(calls[0].bytes, frameSize, rate), calls[1..], frameSize, rate);
    TotalOfFrames(calls, frameSize, rate);
  }
}
