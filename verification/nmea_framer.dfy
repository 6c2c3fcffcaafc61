/** Cutting the GPS byte stream into lines, with recovery from lines that do not fit. */
module NmeaFramer {
  import opened Common

  const NMEA_MAX_SIZE: nat := 128

  /** The framer's state: whether it is skipping to a newline, and the line begun. */
  datatype Framer = Framer(overflow: bool, line: string)

  const IDLE := Framer(false, "")

  /** What the framer hands on for character c, if anything. */
  function Handed(s: Framer, c: char): Option<string> {
    if !s.overflow && |s.line| < NMEA_MAX_SIZE && c == '\n' then Some(s.line + [c]) else None
  }

  function Next(s: Framer, c: char): Framer {
    if s.overflow then s.(overflow := c != '\n')
    else if |s.line| >= NMEA_MAX_SIZE then Framer(true, "")
    else if c == '\n' then IDLE
    else s.(line := s.line + [c])
  }

  function Feed(s: Framer, input: string): Framer
    decreases input
  {
    if input == "" then s else Feed(Next(s, input[0]), input[1..])
  }

  /** The lines handed on. */
  function Output(s: Framer, input: string): seq<string>
    decreases input
  {
    if input == "" then []
    else
      var h := Handed(s, input[0]);
      (if h.Some? then [h.value] else []) + Output(Next(s, input[0]), input[1..])
  }

  /** Any chunking of the stream gives the same lines. */
  lemma {:induction false} ChunksDoNotMatter(s: Framer, a: string, b: string)
    ensures Feed(s, a + b) == Feed(Feed(s, a), b)
    ensures Output(s, a + b) == Output(s, a) + Output(Feed(s, a), b)
    decreases a
  {
    if a == "" {
      assert a + b == b;
    } else {
      assert (a + b)[1..] == a[1..] + b;
      ChunksDoNotMatter(Next(s, a[0]), a[1..], b);
    }
  }

  // ---------- Lines, independently of the framer ----------

  /** The newline-terminated lines of `begun` followed by input; an unterminated rest is no line. */
  function LinesFrom(begun: string, input: string): seq<string>
    decreases input
  {
    if input == "" then []
    else if input[0] == '\n' then [begun + ['\n']] + LinesFrom("", input[1..])
    else LinesFrom(begun + [input[0]], input[1..])
  }

  function Lines(input: string): seq<string> {
    LinesFrom("", input)
  }

  /** The lines that survive. Counting its newline, a line of up to 128 characters does and a longer
      one does not; one of exactly 129 takes the next line with it. */
  function Kept(lines: seq<string>, skip: bool): seq<string> {
    if lines == [] then []
    else if skip then Kept(lines[1..], false)
    else if |lines[0]| <= 128 then [lines[0]] + Kept(lines[1..], false)
    else Kept(lines[1..], |lines[0]| == 129)
  }

  /** The framer's state when it has read `begun` of a line that is, or is not, to be swallowed. */
  predicate Reading(s: Framer, begun: string, skip: bool) {
    s == if skip || |begun| > NMEA_MAX_SIZE then Framer(true, "") else Framer(false, begun)
  }

  lemma {:induction false} FramerKeeps(s: Framer, begun: string, skip: bool, input: string)
    requires Reading(s, begun, skip)
    ensures Output(s, input) == Kept(LinesFrom(begun, input), skip)
    decreases input
  {
    if input != "" {
      var c, rest := input[0], input[1..];
      if c == '\n' {
        FramerKeeps(Next(s, c), "", !skip && |begun| == NMEA_MAX_SIZE, rest);
        var lines := LinesFrom("", rest);
        assert ([begun + ['\n']] + lines)[1..] == lines;
      } else {
        FramerKeeps(Next(s, c), begun + [c], skip, rest);
      }
    }
  }

  /** MAIN RESULT. From idle the framer hands on, byte for byte and in order, exactly the lines that
      survive. */
  lemma FramerIsExact(input: string)
    ensures Output(IDLE, input) == Kept(Lines(input), false)
  {
    FramerKeeps(IDLE, "", false, input);
  }

  /** Whether line k is swallowed by the one before it. */
  function Swallowed(lines: seq<string>, k: nat, skip: bool): bool
    requires k < |lines|
  {
    if k == 0 then skip
    else !Swallowed(lines, k - 1, skip) && |lines[k - 1]| == 129
  }

  /** The position among the kept lines of line k, counting those before it that are kept. */
  function KeptBefore(lines: seq<string>, k: nat, skip: bool): nat
    requires k <= |lines|
  {
    if k == 0 then 0
    else KeptBefore(lines, k - 1, skip)
         + if |lines[k - 1]| <= 128 && !Swallowed(lines, k - 1, skip) then 1 else 0
  }

  lemma {:induction false} SwallowedTail(lines: seq<string>, k: nat, skip: bool)
    requires 0 < k <= |lines|
    ensures var skip' := !skip && |lines[0]| == 129;
            && (k < |lines| ==> Swallowed(lines, k, skip) == Swallowed(lines[1..], k - 1, skip'))
            && KeptBefore(lines, k, skip)
               == KeptBefore(lines, 1, skip) + KeptBefore(lines[1..], k - 1, skip')
    decreases k
  {
    if k > 1 {
      SwallowedTail(lines, k - 1, skip);
    }
  }

  /** Line by line: line k is handed on, in its place, if and only if it fits and is not swallowed. */
  lemma {:induction false} KeptIff(lines: seq<string>, skip: bool)
    ensures |Kept(lines, skip)| == KeptBefore(lines, |lines|, skip)
    ensures forall k :: 0 <= k < |lines| && |lines[k]| <= 128 && !Swallowed(lines, k, skip) ==>
              KeptBefore(lines, k, skip) < |Kept(lines, skip)|
              && Kept(lines, skip)[KeptBefore(lines, k, skip)] == lines[k]
    decreases lines
  {
    if lines != [] {
      var skip' := !skip && |lines[0]| == 129;
      KeptIff(lines[1..], skip');
      SwallowedTail(lines, |lines|, skip);
      forall k | 0 <= k < |lines| && |lines[k]| <= 128 && !Swallowed(lines, k, skip)
        ensures KeptBefore(lines, k, skip) < |Kept(lines, skip)|
                && Kept(lines, skip)[KeptBefore(lines, k, skip)] == lines[k]
      {
        if k > 0 {
          SwallowedTail(lines, k, skip);
          assert lines[1..][k - 1] == lines[k];
        }
      }
    }
  }
}
