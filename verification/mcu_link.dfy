/** The serial link to the power microcontroller: the frame decoder of ttyreader. */
module McuLink {
  import opened Common

  const SYNC0: Byte := 0x5A
  const SYNC1: Byte := 0xA5
  const CMD_KEY := 0x01
  const CMD_VOLTAGE := 0x02
  const CMD_CHARGE := 0x03
  const CMD_NO_DATA := 0x04

  /** The variables of the receive loop. `charpos` and `payloadLen` start uninitialised, so any
      value of this type is a possible start. */
  datatype Decoder = Decoder(charpos: int, payloadLen: int, cmd: int, checksum: int, data: int, dataBytes: nat)

  /** A validated frame as the rest of the program sees it. */
  datatype Delivery = Delivery(cmd: int, data: int)

  /** One octet placed at offset k of the payload: a 32-bit shift, whose amount the arm64 shift
      instruction takes modulo 32 (C leaves k > 3 undefined; no value theorem below uses k > 2). */
  function Shifted(b: Byte, k: nat): int {
    ToInt32(b * (match k % 4 case 0 => 1 case 1 => 0x100 case 2 => 0x1_0000 case _ => 0x100_0000))
  }

  /** One turn of the receive loop. */
  function Step(d: Decoder, b: Byte): Decoder {
    if b == SYNC0 then d.(charpos := 1, checksum := b)
    else if b == SYNC1 && d.charpos == 1 then d.(charpos := 2, checksum := d.checksum + b)
    else if d.charpos == 2 then d.(charpos := 3, cmd := b, checksum := d.checksum + b)
    else if d.charpos == 3 then d.(charpos := 4, payloadLen := b, checksum := d.checksum + b)
    else if d.charpos == 4 then
      d.(charpos := 5, payloadLen := 256 * b as int + d.payloadLen, data := 0, dataBytes := 0, checksum := d.checksum + b)
    else if d.charpos == 5 then
      d.(charpos := if d.payloadLen == 1 then 6 else 5,
         payloadLen := d.payloadLen - 1,
         data := if d.cmd != CMD_NO_DATA then d.data + Shifted(b, d.dataBytes) else d.data,
         dataBytes := d.dataBytes + 1,
         checksum := d.checksum + b)
    else if d.charpos == 6 then d.(charpos := 0, checksum := 0, payloadLen := 0)
    else d
  }

  /** What one octet delivers: a frame exactly when it is the checksum of the frame in progress. */
  function Emit(d: Decoder, b: Byte): seq<Delivery> {
    if b != SYNC0 && d.charpos == 6 && b == d.checksum % 256 then [Delivery(d.cmd, d.data)] else []
  }

  function Run(d: Decoder, s: seq<Byte>): Decoder
    decreases s
  {
    if s == [] then d else Run(Step(d, s[0]), s[1..])
  }

  function Deliveries(d: Decoder, s: seq<Byte>): seq<Delivery>
    decreases s
  {
    if s == [] then [] else Emit(d, s[0]) + Deliveries(Step(d, s[0]), s[1..])
  }

  lemma {:induction false} RunAppend(d: Decoder, a: seq<Byte>, b: seq<Byte>)
    ensures Run(d, a + b) == Run(Run(d, a), b)
    ensures Deliveries(d, a + b) == Deliveries(d, a) + Deliveries(Run(d, a), b)
    decreases a
  {
    if a == [] {
      assert a + b == b;
    } else {
      assert (a + b)[1..] == a[1..] + b;
      RunAppend(Step(d, a[0]), a[1..], b);
    }
  }

  // ---------- The frame format, independently of the decoder ----------

  /** A frame is the two sync octets, a command, a little-endian length, the payload, and the sum
      of everything before it modulo 256. */
  function Body(cmd: Byte, payload: seq<Byte>): seq<Byte>
    requires |payload| < 0x1_0000
  {
    [0xA5, cmd, |payload| % 256, |payload| / 256] + payload + [Checksum(cmd, payload)]
  }

  function Encode(cmd: Byte, payload: seq<Byte>): seq<Byte>
    requires |payload| < 0x1_0000
  {
    [0x5A] + Body(cmd, payload)
  }

  function Checksum(cmd: Byte, payload: seq<Byte>): Byte
    requires |payload| < 0x1_0000
  {
    (0x5A + 0xA5 + cmd + |payload| % 256 + |payload| / 256 + Sum(payload)) % 256
  }

  /** The number carried by the payload octets from offset k on. */
  function PayloadValue(payload: seq<Byte>, k: nat): int {
    if payload == [] then 0 else Shifted(payload[0], k) + PayloadValue(payload[1..], k + 1)
  }

  function Meaning(cmd: Byte, payload: seq<Byte>): Delivery {
    Delivery(cmd, if cmd == 4 then 0 else PayloadValue(payload, 0))
  }

  function LittleEndian(payload: seq<Byte>): nat {
    if payload == [] then 0 else payload[0] + 256 * LittleEndian(payload[1..])
  }

  /** A frame that no later sync octet interrupts and whose length the decoder can count down. */
  predicate Sendable(cmd: Byte, payload: seq<Byte>) {
    1 <= |payload| < 0x1_0000 && SYNC0 !in Body(cmd, payload)
  }

  /** A stretch that starts with SYNC1, read in one go: a whole header, a nonzero length, that many
      payload octets, and their sum. Anything behind the sum is ignored. */
  function ParseBody(s: seq<Byte>): Option<Delivery> {
    if |s| < 4 then None
    else
      var len := Word(s[2], s[3]);
      if len == 0 || |s| < 5 + len then None
      else if s[4 + len] == Checksum(s[1], s[4..4 + len]) then Some(Meaning(s[1], s[4..4 + len])) else None
  }

  /** What the octets between two SYNC0s mean: everything before the first SYNC1 is skipped. */
  function ParseBlock(s: seq<Byte>): Option<Delivery> {
    var i := IndexOf(s, SYNC1);
    if i < |s| then ParseBody(s[i..]) else None
  }

  /** The meaning of a whole input: its prefix up to the first SYNC0 is ignored, and every stretch
      between two SYNC0s is read on its own. */
  function ParseAll(s: seq<Byte>): seq<Delivery>
    decreases |s|
  {
    var i := IndexOf(s, SYNC0);
    if i == |s| then []
    else
      var rest := s[i + 1..];
      var n := IndexOf(rest, SYNC0);
      ToSeq(ParseBlock(rest[..n])) + ParseAll(rest[n..])
  }

  // ---------- The decoder meets the format ----------

  /** Outside a frame (position 0, or an uninitialised one beyond 6) octets other than SYNC0
      change nothing. */
  lemma {:induction false} OutsideFrame(d: Decoder, s: seq<Byte>)
    requires SYNC0 !in s && Outside(d)
    ensures Run(d, s) == d && Deliveries(d, s) == []
  {
    if s != [] {
      assert SYNC0 !in s[1..];
      OutsideFrame(d, s[1..]);
    }
  }

  /** Behind SYNC0 the decoder waits for SYNC1, skipping anything else. */
  lemma {:induction false} WaitSync1(d: Decoder, s: seq<Byte>)
    requires SYNC0 !in s && SYNC1 !in s && d.charpos == 1
    ensures Run(d, s) == d && Deliveries(d, s) == []
  {
    if s != [] {
      assert SYNC0 !in s[1..] && SYNC1 !in s[1..];
      WaitSync1(d, s[1..]);
    }
  }

  /** A declared length of zero (or less, from an uninitialised start) is never counted down. */
  lemma {:induction false} ZeroLength(d: Decoder, s: seq<Byte>)
    requires SYNC0 !in s && d.charpos == 5 && d.payloadLen <= 0
    ensures Run(d, s).charpos == 5 && Deliveries(d, s) == []
    decreases s
  {
    if s != [] {
      assert SYNC0 !in s[1..];
      ZeroLength(Step(d, s[0]), s[1..]);
    }
  }

  function AfterPayload(d: Decoder, s: seq<Byte>): Decoder {
    d.(charpos := if |s| == d.payloadLen then 6 else 5,
       payloadLen := d.payloadLen - |s|,
       data := if d.cmd != CMD_NO_DATA then d.data + PayloadValue(s, d.dataBytes) else d.data,
       dataBytes := d.dataBytes + |s|,
       checksum := d.checksum + Sum(s))
  }

  /** The payload state as a closed form of the octets read so far. */
  lemma {:induction false} PayloadRun(d: Decoder, s: seq<Byte>)
    requires SYNC0 !in s && d.charpos == 5 && |s| <= d.payloadLen && 1 <= d.payloadLen
    ensures s != [] ==> Run(d, s) == AfterPayload(d, s)
    ensures Deliveries(d, s) == []
    decreases s
  {
    if s != [] {
      assert SYNC0 !in s[1..];
      var d' := Step(d, s[0]);
      if |s| == 1 {
        assert s[1..] == [];
        assert PayloadValue(s, d.dataBytes) == Shifted(s[0], d.dataBytes);
        assert Sum(s) == s[0];
        assert Run(d', s[1..]) == d';
      } else {
        PayloadRun(d', s[1..]);
      }
    }
  }

  function HeaderState(d: Decoder, s: seq<Byte>): Decoder
    requires |s| == 4
  {
    d.(charpos := 5, cmd := s[1], payloadLen := Word(s[2], s[3]), data := 0, dataBytes := 0,
       checksum := SYNC0 + s[0] + s[1] + s[2] + s[3])
  }

  lemma HeaderRun(d: Decoder, s: seq<Byte>)
    requires d.charpos == 1 && d.checksum == SYNC0
    requires s != [] && s[0] == SYNC1 && |s| <= 4 && SYNC0 !in s
    ensures Deliveries(d, s) == []
    ensures |s| == 4 ==> Run(d, s) == HeaderState(d, s)
  {
    var d1 := Step(d, s[0]);
    if |s| > 1 {
      var d2 := Step(d1, s[1]);
      if |s| > 2 {
        var d3 := Step(d2, s[2]);
        if |s| > 3 {
          var d4 := Step(d3, s[3]);
          assert s[1..][1..][1..][1..] == [];
          assert Run(d3, s[1..][1..][1..]) == d4;
          assert Run(d2, s[1..][1..]) == d4;
          assert Run(d1, s[1..]) == d4;
          assert Deliveries(d3, s[1..][1..][1..]) == [];
        } else {
          assert s[1..][1..][1..] == [];
        }
        assert Deliveries(d2, s[1..][1..]) == [];
      } else {
        assert s[1..][1..] == [];
      }
      assert Deliveries(d1, s[1..]) == [];
    } else {
      assert s[1..] == [];
    }
  }

  /** From SYNC1 on. */
  lemma FramePart(d: Decoder, s: seq<Byte>)
    requires d.charpos == 1 && d.checksum == SYNC0
    requires s != [] && s[0] == SYNC1 && SYNC0 !in s
    ensures Deliveries(d, s) == ToSeq(ParseBody(s))
  {
    if |s| < 4 {
      HeaderRun(d, s);
    } else {
      var h, rest := s[..4], s[4..];
      assert s == h + rest;
      HeaderRun(d, h);
      RunAppend(d, h, rest);
      BehindHeader(d, h, rest);
    }
  }

  lemma BehindHeader(d: Decoder, h: seq<Byte>, rest: seq<Byte>)
    requires |h| == 4 && h[0] == SYNC1 && SYNC0 !in rest
    ensures Deliveries(HeaderState(d, h), rest) == ToSeq(ParseBody(h + rest))
  {
    var d1 := HeaderState(d, h);
    var len := Word(h[2], h[3]);
    if len == 0 {
      ZeroLength(d1, rest);
    } else if |rest| <= len {
      PayloadRun(d1, rest);
    } else {
      PayloadPart(d1, rest);
      assert (h + rest)[4..4 + len] == rest[..len];
      WordParts(h[2], h[3]);
    }
  }

  lemma WordParts(lo: Byte, hi: Byte)
    ensures Word(lo, hi) % 256 == lo && Word(lo, hi) / 256 == hi && Word(lo, hi) < 0x1_0000
  {
  }

  /** Payload, checksum, and whatever follows up to the next SYNC0. */
  lemma PayloadPart(d: Decoder, s: seq<Byte>)
    requires d.charpos == 5 && 1 <= d.payloadLen < |s| && SYNC0 !in s
    ensures Deliveries(d, s) == Emit(AfterPayload(d, s[..d.payloadLen]), s[d.payloadLen])
    ensures Run(d, s).charpos == 0
  {
    var n := d.payloadLen;
    var p, c, tail := s[..n], s[n], s[n + 1..];
    assert s == p + ([c] + tail);
    PayloadRun(d, p);
    var d1 := AfterPayload(d, p);
    RunAppend(d, p, [c] + tail);
    assert ([c] + tail)[1..] == tail;
    OutsideFrame(Step(d1, c), tail);
  }

  /** Whatever state the decoder was in, the stretch behind a SYNC0 is read as ParseBlock says. */
  lemma BlockAfterSync(d: Decoder, s: seq<Byte>)
    requires SYNC0 !in s
    ensures Deliveries(Step(d, SYNC0), s) == ToSeq(ParseBlock(s))
  {
    var d1 := Step(d, SYNC0);
    var i := IndexOf(s, SYNC1);
    var junk, rest := s[..i], s[i..];
    assert s == junk + rest;
    WaitSync1(d1, junk);
    RunAppend(d1, junk, rest);
    if rest != [] {
      FramePart(d1, rest);
    }
  }

  lemma ParseAllUnfold(pre: seq<Byte>, block: seq<Byte>, next: seq<Byte>)
    requires SYNC0 !in pre && SYNC0 !in block && (next == [] || next[0] == SYNC0)
    ensures ParseAll(pre + ([SYNC0] + (block + next))) == ToSeq(ParseBlock(block)) + ParseAll(next)
  {
    hide ParseBlock;
    var all := pre + ([SYNC0] + (block + next));
    assert all[..|pre|] == pre && all[|pre|] == SYNC0;
    IndexOfIs(all, SYNC0, |pre|);
    assert all[|pre| + 1..] == block + next;
    IndexOfIs(block + next, SYNC0, |block|);
    assert (block + next)[..|block|] == block && (block + next)[|block|..] == next;
  }

  lemma SyncedRun(d: Decoder, block: seq<Byte>, next: seq<Byte>)
    requires SYNC0 !in block
    ensures Deliveries(d, [SYNC0] + (block + next))
            == ToSeq(ParseBlock(block)) + Deliveries(Run(Step(d, SYNC0), block), next)
  {
    BlockAfterSync(d, block);
    RunAppend(Step(d, SYNC0), block, next);
    assert ([SYNC0] + (block + next))[1..] == block + next;
  }

  /** An input that starts with SYNC0 is delivered as its one-shot reading, from any state. */
  lemma {:induction false} SyncedStream(d: Decoder, s: seq<Byte>)
    requires s == [] || s[0] == SYNC0
    ensures Deliveries(d, s) == ParseAll(s)
    decreases |s|
  {
    if s != [] {
      var n := IndexOf(s[1..], SYNC0);
      var block, next := s[1..][..n], s[1..][n..];
      assert s == [] + ([SYNC0] + (block + next)) && s == [SYNC0] + (block + next);
      ParseAllUnfold([], block, next);
      SyncedRun(d, block, next);
      SyncedStream(Run(Step(d, SYNC0), block), next);
    }
  }

  /** MAIN RESULT. From any decoder state, the uninitialised one included, everything the decoder
      delivers from the first SYNC0 on is what the one-shot reading of the input gives. */
  lemma DecoderMeetsFormat(d: Decoder, pre: seq<Byte>, s: seq<Byte>)
    requires SYNC0 !in pre && (s == [] || s[0] == SYNC0)
    ensures Deliveries(d, pre + s) == Deliveries(d, pre) + ParseAll(pre + s)
  {
    RunAppend(d, pre, s);
    SyncedStream(Run(d, pre), s);
    ParseAllSkips(pre, s);
  }

  lemma ParseAllSkips(pre: seq<Byte>, s: seq<Byte>)
    requires SYNC0 !in pre && (s == [] || s[0] == SYNC0)
    ensures ParseAll(pre + s) == ParseAll(s)
  {
    IndexOfIs(pre + s, SYNC0, |pre|);
    IndexOfIs(s, SYNC0, 0);
    if s != [] {
      assert (pre + s)[|pre| + 1..] == s[1..];
    }
  }

  // ---------- Consequences ----------

  lemma BodyShape(junk: seq<Byte>, cmd: Byte, payload: seq<Byte>, sum: Byte, tail: seq<Byte>)
    requires SYNC1 !in junk && 1 <= |payload| < 0x1_0000
    ensures var s := junk + ([SYNC1, cmd, |payload| % 256, |payload| / 256] + payload + [sum] + tail);
            ParseBlock(s) == if sum == Checksum(cmd, payload) then Some(Meaning(cmd, payload)) else None
  {
    var n: nat := |payload|;
    var h: seq<Byte> := [SYNC1, cmd, n % 256, n / 256];
    var b := h + payload + [sum] + tail;
    IndexOfIs(junk + b, SYNC1, |junk|);
    assert (junk + b)[|junk|..] == b;
    assert b[4..4 + n] == payload && b[4 + n] == sum && Word(b[2], b[3]) == n;
  }

  /** The shape of an accepted stretch. */
  ghost predicate Accepts(s: seq<Byte>, x: Delivery) {
    exists junk: seq<Byte>, cmd: Byte, payload: seq<Byte>, tail: seq<Byte> ::
      IsFrameIn(s, junk, cmd, payload, tail) && x == Meaning(cmd, payload)
  }

  predicate IsFrameIn(s: seq<Byte>, junk: seq<Byte>, cmd: Byte, payload: seq<Byte>, tail: seq<Byte>) {
    SYNC1 !in junk && 1 <= |payload| < 0x1_0000 && s == junk + (Body(cmd, payload) + tail)
  }

  /** A stretch is accepted exactly when a complete frame starts at its first SYNC1, whatever
      precedes that SYNC1 and whatever follows the frame. */
  lemma AcceptedIff(s: seq<Byte>, x: Delivery)
    ensures ParseBlock(s) == Some(x) <==> Accepts(s, x)
  {
    if ParseBlock(s) == Some(x) {
      AcceptedHasShape(s, x);
    }
    if Accepts(s, x) {
      var junk: seq<Byte>, cmd: Byte, payload: seq<Byte>, tail: seq<Byte> :|
        IsFrameIn(s, junk, cmd, payload, tail) && x == Meaning(cmd, payload);
      BodyShape(junk, cmd, payload, Checksum(cmd, payload), tail);
    }
  }

  lemma AcceptedHasShape(s: seq<Byte>, x: Delivery)
    requires ParseBlock(s) == Some(x)
    ensures Accepts(s, x)
  {
    var i := IndexOf(s, SYNC1);
    assert s == s[..i] + s[i..];
    ShapeOf(s[..i], s[i..], x);
  }

  lemma ShapeOf(junk: seq<Byte>, b: seq<Byte>, x: Delivery)
    requires SYNC1 !in junk && b != [] && b[0] == SYNC1 && ParseBody(b) == Some(x)
    ensures Accepts(junk + b, x)
  {
    var n := Word(b[2], b[3]);
    WordParts(b[2], b[3]);
    BodyCut(b, n);
    assert IsFrameIn(junk + b, junk, b[1], b[4..4 + n], b[5 + n..]);
  }

  lemma BodyCut(b: seq<Byte>, n: nat)
    requires |b| >= 5 + n && b[0] == SYNC1 && n == Word(b[2], b[3])
    requires b[4 + n] == Checksum(b[1], b[4..4 + n])
    ensures b == Body(b[1], b[4..4 + n]) + b[5 + n..]
  {
    WordParts(b[2], b[3]);
    assert b[..4] == [SYNC1, b[1], n % 256, n / 256];
    assert b == b[..4] + b[4..4 + n] + [b[4 + n]] + b[5 + n..];
  }

  /** Behind SYNC0, the state after a stretch that holds a frame's worth of octets is idle. */
  lemma IdleAfterBody(d: Decoder, cmd: Byte, payload: seq<Byte>, sum: Byte)
    requires 1 <= |payload| < 0x1_0000
    requires SYNC0 !in [SYNC1, cmd, |payload| % 256, |payload| / 256] + payload + [sum]
    ensures var s := [SYNC0] + ([SYNC1, cmd, |payload| % 256, |payload| / 256] + payload + [sum]);
            Run(d, s).charpos == 0
            && Deliveries(d, s) == if sum == Checksum(cmd, payload) then [Meaning(cmd, payload)] else []
  {
    var n: nat := |payload|;
    var h: seq<Byte> := [SYNC1, cmd, n % 256, n / 256];
    var b := h + payload + [sum];
    var d1 := Step(d, SYNC0);
    assert ([SYNC0] + b)[1..] == b;
    assert forall x :: x in h ==> x in b;
    HeaderRun(d1, h);
    assert b == h + (payload + [sum]);
    RunAppend(d1, h, payload + [sum]);
    assert forall x :: x in payload + [sum] ==> x in b;
    PayloadPart(HeaderState(d1, h), payload + [sum]);
    BlockAfterSync(d, b);
    BodyShape([], cmd, payload, sum, []);
    assert [] + (h + payload + [sum] + []) == b;
  }

  /** From every decoder state a sent frame is accepted exactly once, with its command and value,
      and the decoder is idle again. */
  lemma FrameAccepted(d: Decoder, cmd: Byte, payload: seq<Byte>)
    requires Sendable(cmd, payload)
    ensures Deliveries(d, Encode(cmd, payload)) == [Meaning(cmd, payload)]
    ensures Run(d, Encode(cmd, payload)).charpos == 0
  {
    IdleAfterBody(d, cmd, payload, Checksum(cmd, payload));
  }

  /** A payload of at most three octets is delivered as its little-endian number. */
  lemma {:induction false} SmallPayload(cmd: Byte, payload: seq<Byte>)
    requires |payload| <= 3 && cmd != CMD_NO_DATA
    ensures Meaning(cmd, payload) == Delivery(cmd, LittleEndian(payload))
    ensures LittleEndian(payload) < 0x100_0000
  {
    if |payload| >= 1 {
      assert PayloadValue(payload, 0) == payload[0] + PayloadValue(payload[1..], 1);
      assert LittleEndian(payload) == payload[0] + 256 * LittleEndian(payload[1..]);
      if |payload| >= 2 {
        assert PayloadValue(payload[1..], 1) == 256 * payload[1] + PayloadValue(payload[2..], 2);
        assert LittleEndian(payload[1..]) == payload[1] + 256 * LittleEndian(payload[2..]);
        if |payload| == 3 {
          assert PayloadValue(payload[2..], 2) == 0x1_0000 * payload[2] + PayloadValue(payload[3..], 3);
          assert LittleEndian(payload[2..]) == payload[2] + 256 * LittleEndian(payload[3..]);
        }
      }
    }
  }

  /** One frame of a stream, and the octets that precede it on the line. */
  datatype Item = Item(gap: seq<Byte>, cmd: Byte, payload: seq<Byte>)

  ghost predicate ValidItems(items: seq<Item>) {
    forall i :: 0 <= i < |items| ==> SYNC0 !in items[i].gap && Sendable(items[i].cmd, items[i].payload)
  }

  function Line(items: seq<Item>): seq<Byte>
    requires ValidItems(items)
  {
    if items == [] then []
    else items[0].gap + Encode(items[0].cmd, items[0].payload) + Line(items[1..])
  }

  function Meanings(items: seq<Item>): seq<Delivery> {
    seq(|items|, i requires 0 <= i < |items| => Meaning(items[i].cmd, items[i].payload))
  }

  /** Outside a frame, as after the last octet of one or at an uninitialised start beyond 6. */
  predicate Outside(d: Decoder) {
    !(1 <= d.charpos <= 6)
  }

  /** From idle, or from any state if the line starts with a frame, a line of frames with arbitrary
      SYNC0-free gaps decodes to exactly those frames. */
  lemma {:induction false} StreamRoundTrip(d: Decoder, items: seq<Item>)
    requires ValidItems(items) && (Outside(d) || (items != [] && items[0].gap == []))
    ensures Deliveries(d, Line(items)) == Meanings(items) && Outside(Run(d, Line(items)))
    decreases items
  {
    if items != [] {
      var it, rest := items[0], items[1..];
      GapAndFrame(d, it);
      var head := it.gap + Encode(it.cmd, it.payload);
      RunAppend(d, head, Line(rest));
      StreamRoundTrip(Run(d, head), rest);
      assert Meanings(items) == [Meaning(it.cmd, it.payload)] + Meanings(rest);
    }
  }

  lemma GapAndFrame(d: Decoder, it: Item)
    requires (Outside(d) || it.gap == []) && SYNC0 !in it.gap && Sendable(it.cmd, it.payload)
    ensures Deliveries(d, it.gap + Encode(it.cmd, it.payload)) == [Meaning(it.cmd, it.payload)]
    ensures Run(d, it.gap + Encode(it.cmd, it.payload)).charpos == 0
  {
    if it.gap != [] {
      OutsideFrame(d, it.gap);
    }
    RunAppend(d, it.gap, Encode(it.cmd, it.payload));
    FrameAccepted(Run(d, it.gap), it.cmd, it.payload);
  }

  /** Replacing exactly one octet of the command, payload or checksum by anything but SYNC0 yields
      no delivery and leaves the decoder idle. */
  lemma OneOctetChanged(d: Decoder, cmd: Byte, payload: seq<Byte>, i: nat, b: Byte)
    requires Sendable(cmd, payload)
    requires i == 2 || 5 <= i < |payload| + 6
    requires b != SYNC0 && b != Encode(cmd, payload)[i]
    ensures Deliveries(d, Encode(cmd, payload)[i := b]) == []
    ensures Run(d, Encode(cmd, payload)[i := b]).charpos == 0
  {
    var body' := Body(cmd, payload)[i - 1 := b];
    assert Encode(cmd, payload)[i := b] == [SYNC0] + body';
    assert SYNC0 !in body' by {
      assert forall k :: 0 <= k < |body'| ==> Body(cmd, payload)[k] in Body(cmd, payload);
    }
    if i == 2 {
      CommandOctetChanged(d, cmd, payload, b);
    } else if i < |payload| + 5 {
      PayloadOctetChanged(d, cmd, payload, i - 5, b);
    } else {
      assert body' == [SYNC1, cmd, |payload| % 256, |payload| / 256] + payload + [b];
      IdleAfterBody(d, cmd, payload, b);
    }
  }

  lemma CommandOctetChanged(d: Decoder, cmd: Byte, payload: seq<Byte>, b: Byte)
    requires 1 <= |payload| < 0x1_0000 && b != cmd
    requires SYNC0 !in Body(cmd, payload)[1 := b]
    ensures Deliveries(d, [SYNC0] + Body(cmd, payload)[1 := b]) == []
    ensures Run(d, [SYNC0] + Body(cmd, payload)[1 := b]).charpos == 0
  {
    assert Body(cmd, payload)[1 := b]
        == [SYNC1, b, |payload| % 256, |payload| / 256] + payload + [Checksum(cmd, payload)];
    ChecksumDiffers(SYNC0 + SYNC1 + cmd + |payload| % 256 + |payload| / 256 + Sum(payload), cmd, b);
    IdleAfterBody(d, b, payload, Checksum(cmd, payload));
  }

  lemma PayloadOctetChanged(d: Decoder, cmd: Byte, payload: seq<Byte>, i: nat, b: Byte)
    requires 1 <= |payload| < 0x1_0000 && i < |payload| && b != payload[i]
    requires SYNC0 !in Body(cmd, payload)[i + 4 := b]
    ensures Deliveries(d, [SYNC0] + Body(cmd, payload)[i + 4 := b]) == []
    ensures Run(d, [SYNC0] + Body(cmd, payload)[i + 4 := b]).charpos == 0
  {
    var payload' := payload[i := b];
    assert Body(cmd, payload)[i + 4 := b]
        == [SYNC1, cmd, |payload| % 256, |payload| / 256] + payload' + [Checksum(cmd, payload)];
    SumUpdate(payload, i, b);
    ChecksumDiffers(SYNC0 + SYNC1 + cmd + |payload| % 256 + |payload| / 256 + Sum(payload), payload[i], b);
    IdleAfterBody(d, cmd, payload', Checksum(cmd, payload));
  }

  lemma ChecksumDiffers(total: int, was: Byte, now: Byte)
    requires was != now
    ensures total % 256 != (total - was + now) % 256
  {
  }

  lemma {:induction false} SumUpdate(s: seq<Byte>, i: nat, b: Byte)
    requires i < |s|
    ensures Sum(s[i := b]) == Sum(s) - s[i] + b
  {
    if i == 0 {
      assert s[i := b][1..] == s[1..];
    } else {
      assert s[i := b][1..] == s[1..][i - 1 := b];
      SumUpdate(s[1..], i - 1, b);
    }
  }

  /** MAIN RESULT. Changing the length octets of a frame to any other length n without SYNC0 goes
      undetected if and only if n is nonzero, shorter than the payload, and the payload octet that then
      stands in the place of the sum happens to be the sum; the shortened frame is delivered. The
      decoder is idle afterwards if n is nonzero and shorter, otherwise it still waits. */
  lemma ChangedLengthIff(d: Decoder, cmd: Byte, payload: seq<Byte>, lo: Byte, hi: Byte)
    requires Sendable(cmd, payload) && lo != SYNC0 && hi != SYNC0 && Word(lo, hi) != |payload|
    ensures var s, n := Encode(cmd, payload)[3 := lo][4 := hi], Word(lo, hi);
            && (Deliveries(d, s) == [] <==> !(1 <= n < |payload| && payload[n] == Checksum(cmd, payload[..n])))
            && (Deliveries(d, s) != [] ==> Deliveries(d, s) == [Meaning(cmd, payload[..n])])
            && Run(d, s).charpos == if 1 <= n < |payload| then 0 else if n == |payload| + 1 then 6 else 5
  {
    var n := Word(lo, hi);
    var h, rest := [SYNC1, cmd, lo, hi], payload + [Checksum(cmd, payload)];
    assert Encode(cmd, payload)[3 := lo][4 := hi] == [SYNC0] + (h + rest);
    assert ([SYNC0] + (h + rest))[1..] == h + rest;
    assert SYNC0 !in h && SYNC0 !in rest by {
      assert Body(cmd, payload) == [SYNC1, cmd, |payload| % 256, |payload| / 256] + rest;
    }
    BlockAfterSync(d, h + rest);
    ChangedLengthBlock(cmd, payload, lo, hi);
    ChangedLengthState(Step(d, SYNC0), h, rest);
  }

  lemma ChangedLengthBlock(cmd: Byte, payload: seq<Byte>, lo: Byte, hi: Byte)
    requires 1 <= |payload| < 0x1_0000 && Word(lo, hi) != |payload|
    ensures var b, n := [SYNC1, cmd, lo, hi] + (payload + [Checksum(cmd, payload)]), Word(lo, hi);
            ParseBlock(b) == if 1 <= n < |payload| && payload[n] == Checksum(cmd, payload[..n])
                             then Some(Meaning(cmd, payload[..n])) else None
  {
    var b, n := [SYNC1, cmd, lo, hi] + (payload + [Checksum(cmd, payload)]), Word(lo, hi);
    IndexOfIs(b, SYNC1, 0);
    assert b[0..] == b;
    if 1 <= n < |payload| {
      assert b[4..4 + n] == payload[..n] && b[4 + n] == payload[n];
    }
  }

  /** The state behind a header and some number of octets, compared with what the header announces. */
  lemma ChangedLengthState(d: Decoder, h: seq<Byte>, rest: seq<Byte>)
    requires d.charpos == 1 && d.checksum == SYNC0 && |h| == 4 && h[0] == SYNC1
    requires SYNC0 !in h && SYNC0 !in rest && rest != []
    ensures var n := Word(h[2], h[3]);
            Run(d, h + rest).charpos == if 1 <= n < |rest| then 0 else if n == |rest| then 6 else 5
  {
    var d1, n := HeaderState(d, h), Word(h[2], h[3]);
    HeaderRun(d, h);
    RunAppend(d, h, rest);
    if n == 0 {
      ZeroLength(d1, rest);
    } else if n < |rest| {
      PayloadPart(d1, rest);
    } else {
      PayloadRun(d1, rest);
    }
  }

  /** An instance: here lowering the length from 2 to 1 turns one
      accepted frame into another accepted frame. */
  lemma LengthOctetUnprotected(d: Decoder)
    ensures var s := Encode(0x03, [0x04, 0x07]);
            Deliveries(d, s) == [Delivery(0x03, 0x704)]
            && Deliveries(d, s[3 := 1]) == [Delivery(0x03, 0x04)]
  {
    var p: seq<Byte>, q: seq<Byte> := [0x04, 0x07], [0x04];
    assert Checksum(0x03, p) == 0x0F && LittleEndian(p) == 0x704 by {
      var last: seq<Byte> := [0x07];
      assert p[1..] == last && last[1..] == [] && Sum(last) == 0x07 && LittleEndian(last) == 0x07;
    }
    assert Checksum(0x03, q) == 0x07 && LittleEndian(q) == 0x04;
    FrameAccepted(d, 0x03, p);
    SmallPayload(0x03, p);
    assert Encode(0x03, p)[3 := 1] == Encode(0x03, q) + [0x0F];
    FrameAccepted(d, 0x03, q);
    SmallPayload(0x03, q);
    RunAppend(d, Encode(0x03, q), [0x0F]);
    OutsideFrame(Run(d, Encode(0x03, q)), [0x0F]);
  }
}
