/** Bring-up of the Bluetooth controller: command exchanges, speed handover, firmware download. */
module HciInit {
  import opened Common
  import opened HciEvent
  import F = HciFirmware
  import BdAddress

  /** A line speed; the host line is hung up (B0) at a speed termios has no constant for. */
  datatype Speed = Rate(bps: nat) | HungUp

  const TTY_SPEEDS: set<int> :=
    {9600, 19200, 38400, 57600, 115200, 230400, 460800, 500000, 576000, 921600, 1000000, 1152000, 1500000,
     2000000, 2500000, 3000000, 3500000, 3710000, 4000000}

  function HostSpeed(speed: int): Speed {
    if speed in TTY_SPEEDS then Rate(speed) else HungUp
  }

  /** What happened on the port: for each write the speeds and how many bytes were waiting to be read, and
      each speed the host took. */
  datatype Entry =
    | Wrote(bytes: seq<Byte>, host: Speed, controller: Speed, waiting: nat)
    | EventRead
    | HostSet(speed: int)

  /** The controller's answer to a write: the events it sends, and the bytes that reach the host. */
  datatype Reply = Reply(sent: seq<Sent>, arrived: seq<Byte>)

  /** The port: bytes that have arrived and will arrive, both speeds, the log, and the controller's
      answer to each write to come, None when the write fails, and whether termios refuses each setting of
      the host's speed to come. */
  datatype Port = Port(rx: seq<Byte>, host: Speed, controller: Speed, log: seq<Entry>,
                       reactions: seq<Option<Reply>>, refusals: seq<bool>)

  // ---------- Commands ----------

  const CC_MIN_SIZE := 7
  const NAME_SIZE := 20
  const RESET: seq<Byte> := [0x01, 0x03, 0x0C, 0x00]
  const READ_LOCAL_NAME: seq<Byte> := [0x01, 0x14, 0x0C, 0x00]
  const DOWNLOAD_MINIDRIVER: seq<Byte> := [0x01, 0x2e, 0xfc, 0x00]
  const CLOCK_48: seq<Byte> := [0x01, 0x45, 0xfc, 0x01, 0x01]

  function SpeedCommand(speed: int): seq<Byte> {
    [0x01, 0x18, 0xfc, 0x06, 0x00, 0x00,
     speed % 0x100, speed / 0x100 % 0x100, speed / 0x1_0000 % 0x100, speed / 0x100_0000 % 0x100]
  }

  function AddressCommand(text: string): seq<Byte>
    requires BdAddress.IsAddress(text)
  {
    [0x01, 0x01, 0xfc, 0x06] + BdAddress.AddressOf(text)
  }

  function LittleEndian32(b: seq<Byte>): nat
    requires |b| == 4
  {
    var b0: int, b1: int, b2: int, b3: int := b[0], b[1], b[2], b[3];
    b0 + 0x100 * b1 + 0x1_0000 * b2 + 0x100_0000 * b3
  }

  /** The host takes an event as success exactly when bytes 4 to 6 repeat the opcode with status 0;
      it does not look at the event code. */
  predicate Accepts(cmd: seq<Byte>, event: seq<Byte>)
    requires |cmd| >= 4
  {
    |event| >= CC_MIN_SIZE && event[4] == cmd[1] && event[5] == cmd[2] && event[6] == 0
  }

  // ---------- The controller ----------

  /** The event code of a command complete (Bluetooth Core Specification, Vol 4 Part E, section 7.7.14). */
  const COMPLETE: Byte := 0x0e

  /** The parameters are those of a command complete of this command with status 0. */
  predicate SaysDone(cmd: seq<Byte>, params: seq<Byte>)
    requires |cmd| >= 4
  {
    |params| >= 4 && params[1] == cmd[1] && params[2] == cmd[2] && params[3] == 0
  }

  /** Among the events sent is a command complete of this command with status 0. */
  predicate Acknowledges(cmd: seq<Byte>, sent: seq<Sent>)
    requires |cmd| >= 4
  {
    exists k :: 0 <= k < |sent| && sent[k].code == COMPLETE && SaysDone(cmd, sent[k].params)
  }

  predicate IsSpeedCommand(cmd: seq<Byte>) {
    |cmd| == 10 && cmd[1] == 0x18 && cmd[2] == 0xfc
  }

  /** The controller switches speed exactly when it acknowledges the command to do so. */
  function ControllerAfter(now: Speed, cmd: seq<Byte>, sent: seq<Sent>): Speed
    requires |cmd| >= 4
  {
    if IsSpeedCommand(cmd) && Acknowledges(cmd, sent) then Rate(LittleEndian32(cmd[6..])) else now
  }

  /** The longest event. */
  const EVENT_ROOM := 258

  /** Events arrive as they are sent, behind noise that does not look like an event, perhaps cut
      off; and only a command complete has the parameters of one for the speed command. */
  ghost predicate Honest(reply: Reply) {
    && Fits(reply.sent, EVENT_ROOM) && reply.arrived <= OnLine(reply.sent, EVENT_ROOM)
    && (forall k :: 0 <= k < |reply.sent| && SaysDone(SpeedCommand(0), reply.sent[k].params) ==>
          reply.sent[k].code == COMPLETE)
  }

  ghost predicate AllHonest(reactions: seq<Option<Reply>>) {
    forall k :: 0 <= k < |reactions| && reactions[k].Some? ==> Honest(reactions[k].value)
  }

  /** What the host accepts of an honest reply to the speed command is an acknowledgement. */
  lemma HonestAcceptance(cmd: seq<Byte>, reply: Reply)
    requires IsSpeedCommand(cmd) && Honest(reply)
    requires FirstEvent(reply.arrived, CC_MIN_SIZE).Some?
    requires Accepts(cmd, FirstEvent(reply.arrived, CC_MIN_SIZE).value.event)
    ensures Acknowledges(cmd, reply.sent)
  {
    hide FirstEvent;
    var e := FirstSent(reply, CC_MIN_SIZE);
    var event := EventPacket(e.code, e.params)[..3 + Min(|e.params|, CC_MIN_SIZE - 3)];
    AcceptedParams(cmd, e.code, e.params, event);
    assert SaysDone(SpeedCommand(0), e.params);
  }

  /** The first event that arrives is the first one sent, as far as there is room for it. */
  lemma FirstSent(reply: Reply, size: int) returns (e: Sent)
    requires Honest(reply) && FirstEvent(reply.arrived, size).Some? && size >= 3
    ensures reply.sent != [] && e == reply.sent[0] && |e.params| < 256
    ensures FirstEvent(reply.arrived, size).value.event
            == EventPacket(e.code, e.params)[..3 + Min(|e.params|, size - 3)]
  {
    hide FirstEvent, EventPacket, SaysDone;
    var line := OnLine(reply.sent, EVENT_ROOM);
    assert line == reply.arrived + line[|reply.arrived|..];
    LaterBytes(reply.arrived, line[|reply.arrived|..], size);
    NothingOnLine(size);
    e := reply.sent[0];
    ReadsEvent(e.noise, e.code, e.params, OnLine(reply.sent[1..], EVENT_ROOM), size);
  }

  lemma NothingOnLine(size: int)
    ensures FirstEvent([], size) == None
  {
  }

  lemma AcceptedParams(cmd: seq<Byte>, code: Byte, params: seq<Byte>, event: seq<Byte>)
    requires |cmd| >= 4 && |params| < 256 && event == EventPacket(code, params)[..3 + Min(|params|, CC_MIN_SIZE - 3)]
    requires Accepts(cmd, event)
    ensures SaysDone(cmd, params)
  {
    assert event[4] == params[1] && event[5] == params[2] && event[6] == params[3];
  }

  // ---------- The bring-up as a script ----------

  datatype Instr =
    | Flush
    | Command(bytes: seq<Byte>, size: int, required: bool)  // write, read an event, compare
    | Record(packet: seq<Byte>, last: bool, after: Speed)   // write, read an event, flush
    | SetHost(speed: int)

  predicate WellFormedInstr(i: Instr) {
    i.Command? ==> |i.bytes| >= 4 && i.size >= 3
  }

  ghost predicate WellFormed(script: seq<Instr>) {
    forall k :: 0 <= k < |script| ==> WellFormedInstr(script[k])
  }

  /** Every event read has room for an acknowledgement. */
  predicate RoomForAck(i: Instr) {
    WellFormedInstr(i) && (i.Command? ==> i.size >= CC_MIN_SIZE)
  }

  ghost predicate RoomForAcks(script: seq<Instr>) {
    forall k :: 0 <= k < |script| ==> RoomForAck(script[k])
  }

  /** A write at the current speeds, the controller moving to `after` if the write succeeds. */
  function AfterWrite(p: Port, bytes: seq<Byte>, after: Speed): (Port, bool) {
    if p.reactions != [] && p.reactions[0].None? then (p.(reactions := p.reactions[1..]), false)
    else
      (p.(log := p.log + [Wrote(bytes, p.host, p.controller, |p.rx|)],
          controller := after,
          rx := p.rx + NextReply(p.reactions).arrived,
          reactions := if p.reactions == [] then [] else p.reactions[1..]), true)
  }

  /** Without an answer nothing is sent. */
  function NextReply(reactions: seq<Option<Reply>>): Reply {
    if reactions != [] && reactions[0].Some? then reactions[0].value else Reply([], [])
  }

  function AfterRead(p: Port, size: int): (Port, Option<seq<Byte>>) {
    match FirstEvent(p.rx, size)
    case None => (p.(rx := [], log := p.log + [EventRead]), None)
    case Some(f) => (p.(rx := f.rest, log := p.log + [EventRead]), Some(f.event))
  }

  predicate RefusesNext(p: Port) {
    p.refusals != [] && p.refusals[0]
  }

  /** A setting of the host's speed, and whether termios takes it. */
  function AfterSetHost(p: Port, speed: int): (Port, bool) {
    var rest := if p.refusals == [] then [] else p.refusals[1..];
    if RefusesNext(p) then (p.(refusals := rest), false)
    else (p.(host := HostSpeed(speed), log := p.log + [HostSet(speed)], refusals := rest), true)
  }

  /** One instruction, and whether the bring-up goes on. */
  function Exec1(p: Port, i: Instr): (Port, bool)
    requires WellFormedInstr(i)
  {
    match i
    case Flush => (p.(rx := []), true)
    case SetHost(speed) => AfterSetHost(p, speed)
    case Command(bytes, size, required) =>
      var (p1, written) := AfterWrite(p, bytes, ControllerAfter(p.controller, bytes, NextReply(p.reactions).sent));
      if !written then (p1, !required)
      else
        var (p2, event) := AfterRead(p1, size);
        (p2, !required || (event.Some? && Accepts(bytes, event.value)))
    case Record(packet, last, after) =>
      var (p1, written) := AfterWrite(p, packet, if last then after else p.controller);
      if !written then (p1, false) else (AfterRead(p1, CC_MIN_SIZE).0.(rx := []), true)
  }

  function Exec(p: Port, script: seq<Instr>): (Port, bool)
    requires WellFormed(script)
    decreases script
  {
    if script == [] then (p, true)
    else
      var (p1, ok) := Exec1(p, script[0]);
      if ok then Exec(p1, script[1..]) else (p1, false)
  }

  /** A command other than the speed change, or a flush. */
  predicate Plain(i: Instr) {
    || i.Flush?
    || (i.Command? && |i.bytes| >= 4 && i.size >= 3 && !(|i.bytes| == 10 && i.bytes[1] == 0x18))
  }

  function ClockScript(speed: int): (s: seq<Instr>)
    ensures WellFormed(s) && RoomForAcks(s) && forall k :: 0 <= k < |s| ==> Plain(s[k])
  {
    if speed % 0x1_0000_0000 > 3000000 then [Flush, Command(CLOCK_48, CC_MIN_SIZE, true)] else []
  }

  function SwitchScript(speed: int): (s: seq<Instr>)
    ensures WellFormed(s) && RoomForAcks(s)
  {
    [Flush, Command(SpeedCommand(speed), CC_MIN_SIZE, true), SetHost(speed)]
  }

  function SpeedScript(speed: int): (s: seq<Instr>)
    ensures WellFormed(s) && RoomForAcks(s)
  {
    ClockScript(speed) + SwitchScript(speed)
  }

  /** One record per packet; the last one makes the controller leave for `after`. */
  function RecordScript(packets: seq<seq<Byte>>, after: Speed): (s: seq<Instr>)
    ensures WellFormed(s) && RoomForAcks(s)
  {
    if packets == [] then [] else [Record(packets[0], |packets| == 1, after)] + RecordScript(packets[1..], after)
  }

  function FirmwareScript(packets: seq<seq<Byte>>, after: Speed): (s: seq<Instr>)
    ensures WellFormed(s) && RoomForAcks(s)
  {
    [Flush, Command(DOWNLOAD_MINIDRIVER, CC_MIN_SIZE, true), Flush] + RecordScript(packets, after)
  }

  function PatchScript(defSpeed: nat, speed: int, packets: seq<seq<Byte>>): (s: seq<Instr>)
    ensures WellFormed(s) && RoomForAcks(s)
  {
    SpeedScript(speed) + FirmwareScript(packets, Rate(defSpeed))
    + [SetHost(defSpeed), Command(RESET, CC_MIN_SIZE, true)]
  }

  function PatchPart(defSpeed: nat, speed: int, patch: Option<seq<seq<Byte>>>): (s: seq<Instr>)
    ensures WellFormed(s) && RoomForAcks(s)
  {
    if patch.Some? then PatchScript(defSpeed, speed, patch.value) else []
  }

  function AddressScript(bdaddr: Option<string>): (s: seq<Instr>)
    ensures WellFormed(s) && RoomForAcks(s)
  {
    if bdaddr.Some? && BdAddress.IsAddress(bdaddr.value)
    then [Flush, Command(AddressCommand(bdaddr.value), CC_MIN_SIZE, false)] else []
  }

  const NAME_SCRIPT: seq<Instr> :=
    [Command(RESET, CC_MIN_SIZE, true), Flush, Command(READ_LOCAL_NAME, NAME_SIZE, true)]

  /** The whole initialisation; `patch` holds the packets of the firmware file, if one is found. */
  function InitScript(defSpeed: nat, speed: int, patch: Option<seq<seq<Byte>>>, bdaddr: Option<string>): (s: seq<Instr>)
    ensures WellFormed(s) && RoomForAcks(s)
  {
    NAME_SCRIPT + PatchPart(defSpeed, speed, patch)
    + AddressScript(bdaddr) + SpeedScript(speed)
  }

  /** Initialisation with the host's own speed settings around it. */
  function UartScript(defSpeed: nat, speed: int, patch: Option<seq<seq<Byte>>>, bdaddr: Option<string>): (s: seq<Instr>)
    ensures WellFormed(s) && RoomForAcks(s)
  {
    [SetHost(defSpeed), Flush] + InitScript(defSpeed, speed, patch, bdaddr) + [Flush, SetHost(speed)]
  }

  lemma {:induction false} ExecAppend(p: Port, a: seq<Instr>, b: seq<Instr>)
    requires WellFormed(a) && WellFormed(b)
    ensures WellFormed(a + b)
    ensures Exec(p, a + b) == if Exec(p, a).1 then Exec(Exec(p, a).0, b) else Exec(p, a)
    decreases a
  {
    if a == [] {
      assert a + b == b;
    } else {
      assert (a + b)[1..] == a[1..] + b;
      var (p1, ok) := Exec1(p, a[0]);
      if ok {
        ExecAppend(p1, a[1..], b);
      }
    }
  }

  lemma ExecOne(p: Port, i: Instr)
    requires WellFormedInstr(i)
    ensures Exec(p, [i]) == Exec1(p, i)
  {
    assert [i][1..] == [];
  }

  lemma ExecCons(p: Port, i: Instr, rest: seq<Instr>)
    requires WellFormedInstr(i) && WellFormed(rest)
    ensures WellFormed([i] + rest)
    ensures Exec(p, [i] + rest) == if Exec1(p, i).1 then Exec(Exec1(p, i).0, rest) else Exec1(p, i)
  {
    assert ([i] + rest)[1..] == rest;
  }

  // ---------- Speeds stay in step ----------

  /** Every write happened while both ends ran at the same speed. */
  ghost predicate InStep(log: seq<Entry>) {
    forall k :: 0 <= k < |log| && log[k].Wrote? ==> log[k].host == log[k].controller
  }

  /** So far in step, and the controller's answers to come are honest. */
  ghost predicate Sound(p: Port) {
    InStep(p.log) && AllHonest(p.reactions)
  }

  /** Both ends at speed r, and sound. */
  ghost predicate SafeAt(p: Port, r: Speed) {
    p.host == r && p.controller == r && Sound(p)
  }

  lemma WriteInStep(p: Port, bytes: seq<Byte>, after: Speed)
    requires p.host == p.controller && Sound(p)
    ensures var (p', written) := AfterWrite(p, bytes, after);
            p'.host == p.host && Sound(p') && p'.controller == if written then after else p.controller
  {
  }

  lemma ReadInStep(p: Port, size: int)
    requires Sound(p)
    ensures var p' := AfterRead(p, size).0;
            p'.host == p.host && p'.controller == p.controller && Sound(p')
  {
  }

  lemma SetInStep(p: Port, speed: int)
    ensures var (p', ok) := AfterSetHost(p, speed);
            && (InStep(p.log) ==> InStep(p'.log)) && p'.controller == p.controller && p'.reactions == p.reactions
            && p'.rx == p.rx && p'.host == if ok then HostSpeed(speed) else p.host
  {
  }

  lemma PlainStep(p: Port, i: Instr, r: Speed)
    requires SafeAt(p, r) && Plain(i)
    ensures SafeAt(Exec1(p, i).0, r)
  {
    if i.Command? {
      WriteInStep(p, i.bytes, p.controller);
      ReadInStep(AfterWrite(p, i.bytes, p.controller).0, i.size);
    }
  }

  lemma {:induction false} PlainSafe(p: Port, s: seq<Instr>, r: Speed)
    requires SafeAt(p, r) && WellFormed(s) && forall k :: 0 <= k < |s| ==> Plain(s[k])
    ensures SafeAt(Exec(p, s).0, r)
    decreases s
  {
    if s != [] {
      PlainStep(p, s[0], r);
      if Exec1(p, s[0]).1 {
        PlainSafe(Exec1(p, s[0]).0, s[1..], r);
      }
    }
  }

  lemma SpeedBytes(speed: int)
    requires 0 <= speed < 0x1_0000_0000
    ensures LittleEndian32(SpeedCommand(speed)[6..]) == speed
  {
    var b := SpeedCommand(speed)[6..];
    assert b == [speed % 0x100, speed / 0x100 % 0x100, speed / 0x1_0000 % 0x100, speed / 0x100_0000 % 0x100];
    assert speed / 0x100_0000 == speed / 0x1_0000 / 0x100 && speed / 0x1_0000 == speed / 0x100 / 0x100;
  }

  /** Flushed, commanded, accepted by the host: then the controller has switched, too. */
  lemma SpeedCommandStep(p: Port, speed: int, r: Speed)
    requires SafeAt(p, r) && p.rx == [] && 0 <= speed < 0x1_0000_0000
    ensures var (p', ok) := Exec1(p, Command(SpeedCommand(speed), CC_MIN_SIZE, true));
            Sound(p') && p'.host == r && (ok ==> p'.controller == Rate(speed))
  {
    hide LittleEndian32, FirstEvent, Accepts, Honest, Acknowledges;
    var cmd, reply := SpeedCommand(speed), NextReply(p.reactions);
    var after := ControllerAfter(r, cmd, reply.sent);
    WriteInStep(p, cmd, after);
    var (p1, written) := AfterWrite(p, cmd, after);
    if written {
      ReadInStep(p1, CC_MIN_SIZE);
      AcceptedSwitch(reply, speed, r);
      assert p1.rx == reply.arrived;
    }
  }

  lemma AcceptedSwitch(reply: Reply, speed: int, r: Speed)
    requires 0 <= speed < 0x1_0000_0000 && (Honest(reply) || reply == Reply([], []))
    ensures var cmd, f := SpeedCommand(speed), FirstEvent(reply.arrived, CC_MIN_SIZE);
            f.Some? && Accepts(cmd, f.value.event) ==> ControllerAfter(r, cmd, reply.sent) == Rate(speed)
  {
    var cmd, f := SpeedCommand(speed), FirstEvent(reply.arrived, CC_MIN_SIZE);
    if f.Some? && Accepts(cmd, f.value.event) {
      HonestAcceptance(cmd, reply);
      SpeedBytes(speed);
    }
  }

  lemma Switching(p: Port, speed: int)
    ensures var (p', ok) := Exec1(p.(rx := []), Command(SpeedCommand(speed), CC_MIN_SIZE, true));
            Exec(p, SwitchScript(speed)) == if ok then AfterSetHost(p', speed) else (p', false)
  {
    var c, h := Command(SpeedCommand(speed), CC_MIN_SIZE, true), SetHost(speed);
    assert SwitchScript(speed) == [Flush] + [c, h] && [c, h] == [c] + [h];
    ExecCons(p, Flush, [c, h]);
    ExecCons(p.(rx := []), c, [h]);
    ExecOne(Exec1(p.(rx := []), c).0, h);
  }

  lemma SwitchSafe(p: Port, speed: int, r: Speed)
    requires SafeAt(p, r) && speed in TTY_SPEEDS
    ensures var (p', ok) := Exec(p, SwitchScript(speed)); Sound(p') && (ok ==> SafeAt(p', Rate(speed)))
  {
    hide SwitchScript, Exec, Exec1, AfterSetHost, InStep, AllHonest;
    SpeedCommandStep(p.(rx := []), speed, r);
    Switching(p, speed);
    SetInStep(Exec1(p.(rx := []), Command(SpeedCommand(speed), CC_MIN_SIZE, true)).0, speed);
  }

  lemma SpeedSafe(p: Port, speed: int, r: Speed)
    requires SafeAt(p, r) && speed in TTY_SPEEDS
    ensures var (p', ok) := Exec(p, SpeedScript(speed)); Sound(p') && (ok ==> SafeAt(p', Rate(speed)))
  {
    PlainSafe(p, ClockScript(speed), r);
    ExecAppend(p, ClockScript(speed), SwitchScript(speed));
    SwitchSafe(Exec(p, ClockScript(speed)).0, speed, r);
  }

  lemma RecordStep(p: Port, packet: seq<Byte>, last: bool, r: Speed, after: Speed)
    requires SafeAt(p, r)
    ensures var (p', ok) := Exec1(p, Record(packet, last, after));
            Sound(p') && (ok ==> p'.host == r && p'.controller == if last then after else r)
  {
    var to := if last then after else p.controller;
    WriteInStep(p, packet, to);
    ReadInStep(AfterWrite(p, packet, to).0, CC_MIN_SIZE);
  }

  lemma {:induction false} RecordsSafe(p: Port, packets: seq<seq<Byte>>, r: Speed, after: Speed)
    requires SafeAt(p, r)
    ensures var (p', ok) := Exec(p, RecordScript(packets, after));
            Sound(p') && (ok ==> p'.host == r && p'.controller == if packets == [] then r else after)
    decreases packets
  {
    if packets != [] {
      RecordStep(p, packets[0], |packets| == 1, r, after);
      var (p1, ok) := Exec1(p, Record(packets[0], |packets| == 1, after));
      assert RecordScript(packets, after)[1..] == RecordScript(packets[1..], after);
      if ok && |packets| > 1 {
        RecordsSafe(p1, packets[1..], r, after);
      }
    }
  }

  lemma FirmwareSafe(p: Port, packets: seq<seq<Byte>>, r: Speed, after: Speed)
    requires SafeAt(p, r)
    ensures var (p', ok) := Exec(p, FirmwareScript(packets, after));
            Sound(p') && (ok ==> p'.host == r && p'.controller == if packets == [] then r else after)
  {
    var head := [Flush, Command(DOWNLOAD_MINIDRIVER, CC_MIN_SIZE, true), Flush];
    PlainSafe(p, head, r);
    ExecAppend(p, head, RecordScript(packets, after));
    RecordsSafe(Exec(p, head).0, packets, r, after);
  }

  lemma PatchSafe(p: Port, defSpeed: nat, speed: int, packets: seq<seq<Byte>>)
    requires SafeAt(p, Rate(defSpeed)) && defSpeed in TTY_SPEEDS && speed in TTY_SPEEDS
    requires packets != [] || speed == defSpeed
    ensures var (p', ok) := Exec(p, PatchScript(defSpeed, speed, packets));
            Sound(p') && (ok ==> SafeAt(p', Rate(defSpeed)))
  {
    var a, b := SpeedScript(speed), FirmwareScript(packets, Rate(defSpeed));
    var back := [SetHost(defSpeed), Command(RESET, CC_MIN_SIZE, true)];
    ExecAppend(p, a, b);
    ExecAppend(p, a + b, back);
    SpeedSafe(p, speed, Rate(defSpeed));
    var (p1, ok1) := Exec(p, a);
    if ok1 {
      FirmwareSafe(p1, packets, Rate(speed), Rate(defSpeed));
      var (p2, ok2) := Exec(p1, b);
      if ok2 {
        BackHome(p2, defSpeed);
      }
    }
  }

  lemma BackHome(p: Port, defSpeed: nat)
    requires p.controller == Rate(defSpeed) && Sound(p) && defSpeed in TTY_SPEEDS
    ensures var (p', ok) := Exec(p, [SetHost(defSpeed), Command(RESET, CC_MIN_SIZE, true)]);
            Sound(p') && (ok ==> SafeAt(p', Rate(defSpeed)))
  {
    var c := Command(RESET, CC_MIN_SIZE, true);
    var (p1, taken) := AfterSetHost(p, defSpeed);
    assert [SetHost(defSpeed), c] == [SetHost(defSpeed)] + [c];
    ExecCons(p, SetHost(defSpeed), [c]);
    if taken {
      PlainSafe(p1, [c], Rate(defSpeed));
    }
  }

  /** The port before a bring-up: nothing read or written yet. */
  function AtStart(host: Speed, defSpeed: nat, reactions: seq<Option<Reply>>, refusals: seq<bool>): Port {
    Port([], host, Rate(defSpeed), [], reactions, refusals)
  }

  /** The speeds the port is asked for exist, and a firmware file, if used, has a last record to send
      the controller home (or home is where it already is). */
  predicate Ready(defSpeed: nat, speed: int, patch: Option<seq<seq<Byte>>>) {
    && defSpeed in TTY_SPEEDS && speed in TTY_SPEEDS
    && (patch.Some? && patch.value == [] ==> speed == defSpeed)
  }

  /** In step throughout, and both ends at the requested speed if the run succeeds. */
  ghost predicate Good(r: (Port, bool), speed: int) {
    InStep(r.0.log) && (r.1 ==> speed >= 0 && r.0.host == r.0.controller == Rate(speed))
  }

  ghost predicate EndsAt(r: (Port, bool), speed: Speed) {
    Sound(r.0) && (r.1 ==> SafeAt(r.0, speed))
  }

  lemma NameSafe(p: Port, r: Speed)
    requires SafeAt(p, r)
    ensures var p' := Exec(p, NAME_SCRIPT).0; Sound(p') && SafeAt(p', r)
  {
    PlainSafe(p, NAME_SCRIPT, r);
  }

  lemma PartSafe(p: Port, defSpeed: nat, speed: int, patch: Option<seq<seq<Byte>>>)
    requires SafeAt(p, Rate(defSpeed)) && Ready(defSpeed, speed, patch)
    ensures var (p', ok) := Exec(p, PatchPart(defSpeed, speed, patch)); Sound(p') && (ok ==> SafeAt(p', Rate(defSpeed)))
  {
    if patch.Some? {
      PatchSafe(p, defSpeed, speed, patch.value);
    }
  }

  lemma AddressSafe(p: Port, r: Speed, bdaddr: Option<string>)
    requires SafeAt(p, r)
    ensures var p' := Exec(p, AddressScript(bdaddr)).0; Sound(p') && SafeAt(p', r)
  {
    PlainSafe(p, AddressScript(bdaddr), r);
  }

  lemma InitSafe(p: Port, defSpeed: nat, speed: int, patch: Option<seq<seq<Byte>>>, bdaddr: Option<string>)
    requires SafeAt(p, Rate(defSpeed)) && Ready(defSpeed, speed, patch)
    ensures EndsAt(Exec(p, InitScript(defSpeed, speed, patch, bdaddr)), Rate(speed))
  {
    hide Exec, Exec1, SafeAt, Sound, PatchPart, AddressScript, SpeedScript, RoomForAcks;
    var a, b := PatchPart(defSpeed, speed, patch), AddressScript(bdaddr);
    ExecAppend(p, NAME_SCRIPT, a);
    ExecAppend(p, NAME_SCRIPT + a, b);
    ExecAppend(p, NAME_SCRIPT + a + b, SpeedScript(speed));
    NameSafe(p, Rate(defSpeed));
    var (p1, ok1) := Exec(p, NAME_SCRIPT);
    PartSafe(p1, defSpeed, speed, patch);
    var (p2, ok2) := Exec(p1, a);
    if ok1 && ok2 {
      AddressSafe(p2, Rate(defSpeed), bdaddr);
      SpeedSafe(Exec(p2, b).0, speed, Rate(defSpeed));
    }
  }

  lemma HostThenFlush(p: Port, speed: int)
    ensures var (p', ok) := AfterSetHost(p, speed);
            Exec(p, [SetHost(speed), Flush]) == if ok then (p'.(rx := []), true) else (p', false)
  {
    var (p', ok) := AfterSetHost(p, speed);
    assert [SetHost(speed), Flush] == [SetHost(speed)] + [Flush];
    ExecCons(p, SetHost(speed), [Flush]);
    if ok {
      ExecOne(p', Flush);
    }
  }

  lemma FlushThenHost(p: Port, speed: int)
    ensures Exec(p, [Flush, SetHost(speed)]) == AfterSetHost(p.(rx := []), speed)
  {
    assert [Flush, SetHost(speed)] == [Flush] + [SetHost(speed)];
    ExecCons(p, Flush, [SetHost(speed)]);
    ExecOne(p.(rx := []), SetHost(speed));
  }

  /** Whatever an honest controller sends, whichever writes fail and whichever speed settings are refused, a
      ready bring-up writes every command in step and, if it succeeds, ends with both sides at the requested speed. */
  lemma ReadyIsGood(p: Port, defSpeed: nat, speed: int, patch: Option<seq<seq<Byte>>>, bdaddr: Option<string>)
    requires p.controller == Rate(defSpeed) && Sound(p) && Ready(defSpeed, speed, patch)
    ensures Good(Exec(p, UartScript(defSpeed, speed, patch, bdaddr)), speed)
  {
    hide InitScript, Exec, Exec1, AfterSetHost, InStep, AllHonest;
    var a, b, c := [SetHost(defSpeed), Flush], InitScript(defSpeed, speed, patch, bdaddr), [Flush, SetHost(speed)];
    ExecAppend(p, a, b);
    ExecAppend(p, a + b, c);
    HostThenFlush(p, defSpeed);
    SetInStep(p, defSpeed);
    var (p1, taken) := Exec(p, a);
    if taken {
      InitSafe(p1, defSpeed, speed, patch, bdaddr);
      FlushThenHost(Exec(p1, b).0, speed);
      SetInStep(Exec(p1, b).0.(rx := []), speed);
    }
  }

  // ---------- A run in which every command is accepted ----------

  /** One event with the parameters of a command complete with status 0, under some event code. */
  function Answer(cmd: seq<Byte>, code: Byte): Reply
    requires |cmd| >= 4
  {
    var params: seq<Byte> := [0x01, cmd[1], cmd[2], 0x00];
    Reply([Sent([], code, params)], EventPacket(code, params))
  }

  function AnswerTo(cmd: seq<Byte>, speedCode: Byte): Reply
    requires |cmd| >= 4
  {
    Answer(cmd, if IsSpeedCommand(cmd) then speedCode else COMPLETE)
  }

  /** The reactions of a controller that acknowledges every command of a script but the speed commands,
      which it answers with an event of the given code; an acknowledgement, if that is COMPLETE. */
  function AllAnswered(script: seq<Instr>, speedCode: Byte): seq<Option<Reply>>
    requires WellFormed(script)
  {
    if script == [] then []
    else
      (match script[0]
       case Command(bytes, _, _) => [Some(AnswerTo(bytes, speedCode))]
       case Record(_, _, _) => [Some(Reply([], []))]
       case _ => []) + AllAnswered(script[1..], speedCode)
  }

  lemma AnswerIsHonest(cmd: seq<Byte>)
    requires |cmd| >= 4
    ensures Honest(Answer(cmd, COMPLETE))
  {
    var r := Answer(cmd, COMPLETE);
    assert r.sent[1..] == [] && [] + (r.arrived + []) == r.arrived;
  }

  lemma {:induction false} AllAnsweredIsHonest(script: seq<Instr>)
    requires WellFormed(script)
    ensures AllHonest(AllAnswered(script, COMPLETE))
  {
    if script != [] {
      AllAnsweredIsHonest(script[1..]);
      if script[0].Command? {
        AnswerIsHonest(script[0].bytes);
      }
    }
  }

  /** The speeds along such a run, whether its writes were in step, and the code of the answers to
      speed commands. */
  datatype Track = Track(host: Speed, controller: Speed, inStep: bool, speedCode: Byte)

  function Ideal1(t: Track, i: Instr): Track
    requires WellFormedInstr(i)
  {
    match i
    case Flush => t
    case SetHost(speed) => t.(host := HostSpeed(speed))
    case Command(bytes, _, _) =>
      t.(inStep := t.inStep && t.host == t.controller,
         controller := if IsSpeedCommand(bytes) && t.speedCode == COMPLETE
                       then Rate(LittleEndian32(bytes[6..])) else t.controller)
    case Record(_, last, after) =>
      t.(inStep := t.inStep && t.host == t.controller, controller := if last then after else t.controller)
  }

  function Ideal(t: Track, script: seq<Instr>): Track
    requires WellFormed(script)
    decreases script
  {
    if script == [] then t else Ideal(Ideal1(t, script[0]), script[1..])
  }

  ghost predicate Tracks(t: Track, p: Port) {
    t.host == p.host && t.controller == p.controller && (t.inStep <==> InStep(p.log)) && p.rx == [] && p.refusals == []
  }

  lemma AnswerIsAccepted(cmd: seq<Byte>, code: Byte, size: int)
    requires |cmd| >= 4 && size >= CC_MIN_SIZE
    ensures var r := Answer(cmd, code);
            && FirstEvent(r.arrived, size) == Some(Framed(r.arrived, []))
            && Accepts(cmd, r.arrived) && (Acknowledges(cmd, r.sent) <==> code == COMPLETE)
  {
    var params: seq<Byte> := [0x01, cmd[1], cmd[2], 0x00];
    ReadsEvent([], code, params, [], size);
    var e := EventPacket(code, params);
    assert [] + (e + []) == e && e[..7] == e && params[4..] + [] == [];
    assert SaysDone(cmd, Answer(cmd, code).sent[0].params);
  }

  lemma LogOne(log: seq<Entry>, e: Entry)
    ensures InStep(log + [e]) <==> InStep(log) && (e.Wrote? ==> e.host == e.controller)
  {
    if InStep(log + [e]) {
      assert forall k :: 0 <= k < |log| ==> log[k] == (log + [e])[k];
      assert (log + [e])[|log|] == e;
    }
  }

  lemma AnsweredCommand(p: Port, i: Instr, t: Track)
    requires i.Command? && RoomForAck(i) && Tracks(t, p)
    requires p.reactions != [] && p.reactions[0] == Some(AnswerTo(i.bytes, t.speedCode))
    ensures var (p', ok) := Exec1(p, i); ok && Tracks(Ideal1(t, i), p') && p'.reactions == p.reactions[1..]
  {
    hide FirstEvent, Accepts, Acknowledges, LittleEndian32, InStep, Answer;
    var code := if IsSpeedCommand(i.bytes) then t.speedCode else COMPLETE;
    var r := Answer(i.bytes, code);
    AnswerIsAccepted(i.bytes, code, i.size);
    assert [] + r.arrived == r.arrived;
    var w := Wrote(i.bytes, p.host, p.controller, 0);
    LogOne(p.log, w);
    LogOne(p.log + [w], EventRead);
  }

  lemma AnsweredRecord(p: Port, i: Instr, t: Track)
    requires i.Record? && Tracks(t, p) && p.reactions != [] && p.reactions[0] == Some(Reply([], []))
    ensures var (p', ok) := Exec1(p, i); ok && Tracks(Ideal1(t, i), p') && p'.reactions == p.reactions[1..]
  {
    var w := Wrote(i.packet, p.host, p.controller, 0);
    LogOne(p.log, w);
    LogOne(p.log + [w], EventRead);
  }

  /** Such a run succeeds, and its speeds are those of the ideal track. */
  lemma {:induction false} AnsweredRun(p: Port, script: seq<Instr>, t: Track)
    requires WellFormed(script) && RoomForAcks(script) && Tracks(t, p)
    requires p.reactions == AllAnswered(script, t.speedCode)
    ensures Exec(p, script).1 && Tracks(Ideal(t, script), Exec(p, script).0)
    decreases script
  {
    if script != [] {
      var i := script[0];
      match i {
        case Command(_, _, _) =>
          AnsweredCommand(p, i, t);
        case Record(_, _, _) =>
          AnsweredRecord(p, i, t);
        case SetHost(speed) =>
          LogOne(p.log, HostSet(speed));
        case Flush =>
      }
      assert Exec1(p, i).0.reactions == AllAnswered(script[1..], t.speedCode);
      AnsweredRun(Exec1(p, i).0, script[1..], Ideal1(t, i));
    }
  }

  lemma {:induction false} IdealAppend(t: Track, a: seq<Instr>, b: seq<Instr>)
    requires WellFormed(a) && WellFormed(b)
    ensures WellFormed(a + b) && Ideal(t, a + b) == Ideal(Ideal(t, a), b)
    decreases a
  {
    if a == [] {
      assert a + b == b;
    } else {
      assert (a + b)[1..] == a[1..] + b;
      IdealAppend(Ideal1(t, a[0]), a[1..], b);
    }
  }

  /** Once out of step, out of step for good. */
  lemma {:induction false} NeverBackInStep(t: Track, script: seq<Instr>)
    requires WellFormed(script) && !t.inStep
    ensures !Ideal(t, script).inStep
    decreases script
  {
    if script != [] {
      NeverBackInStep(Ideal1(t, script[0]), script[1..]);
    }
  }

  lemma {:induction false} IdealPlain(t: Track, s: seq<Instr>)
    requires WellFormed(s) && t.host == t.controller && forall k :: 0 <= k < |s| ==> Plain(s[k])
    ensures Ideal(t, s) == t
    decreases s
  {
    if s != [] {
      IdealPlain(Ideal1(t, s[0]), s[1..]);
    }
  }

  lemma IdealTwo(t: Track, i: Instr, j: Instr)
    requires WellFormedInstr(i) && WellFormedInstr(j)
    ensures Ideal(t, [i, j]) == Ideal1(Ideal1(t, i), j)
  {
    assert [i, j][1..] == [j] && [j][1..] == [];
    assert Ideal(Ideal1(t, i), [j]) == Ideal1(Ideal1(t, i), j);
  }

  /** The host follows every speed command, the controller only those it acknowledges. */
  lemma IdealSpeed(t: Track, speed: int)
    requires t.host == t.controller && speed in TTY_SPEEDS
    ensures Ideal(t, SpeedScript(speed))
            == t.(host := Rate(speed), controller := if t.speedCode == COMPLETE then Rate(speed) else t.controller)
  {
    IdealPlain(t, ClockScript(speed));
    IdealAppend(t, ClockScript(speed), SwitchScript(speed));
    IdealSwitch(t, speed);
  }

  lemma IdealSwitch(t: Track, speed: int)
    requires t.host == t.controller && speed in TTY_SPEEDS
    ensures Ideal(t, SwitchScript(speed))
            == t.(host := Rate(speed), controller := if t.speedCode == COMPLETE then Rate(speed) else t.controller)
  {
    var c := Command(SpeedCommand(speed), CC_MIN_SIZE, true);
    assert SwitchScript(speed) == [Flush] + [c, SetHost(speed)];
    IdealAppend(t, [Flush], [c, SetHost(speed)]);
    IdealPlain(t, [Flush]);
    SpeedBytes(speed);
    IdealTwo(t, c, SetHost(speed));
  }

  /** An initial speed termios does not know: the very first command is out of step. */
  lemma UnknownInitialSpeed(t: Track, defSpeed: nat, rest: seq<Instr>)
    requires defSpeed !in TTY_SPEEDS && t.controller == Rate(defSpeed) && WellFormed(rest)
    ensures WellFormed([SetHost(defSpeed), Flush] + (NAME_SCRIPT + rest))
    ensures !Ideal(t, [SetHost(defSpeed), Flush] + (NAME_SCRIPT + rest)).inStep
  {
    var head := [SetHost(defSpeed), Flush];
    var reset := Command(RESET, CC_MIN_SIZE, true);
    var t1 := t.(host := HungUp);
    IdealTwo(t, SetHost(defSpeed), Flush);
    var tail := NAME_SCRIPT[1..] + rest;
    assert NAME_SCRIPT + rest == [reset] + tail;
    IdealAppend(t, head, [reset] + tail);
    IdealAppend(t1, [reset], tail);
    assert [reset][1..] == [];
    NeverBackInStep(Ideal1(t1, reset), tail);
  }

  /** An empty firmware file leaves the controller at the new speed while the host goes back. */
  lemma EmptyPatchOutOfStep(t: Track, defSpeed: nat, speed: int)
    requires defSpeed in TTY_SPEEDS && speed in TTY_SPEEDS && speed != defSpeed
    requires t.host == t.controller && t.speedCode == COMPLETE
    ensures !Ideal(t, PatchScript(defSpeed, speed, [])).inStep
  {
    var fw := FirmwareScript([], Rate(defSpeed));
    var reset := Command(RESET, CC_MIN_SIZE, true);
    var t1 := t.(host := Rate(speed), controller := Rate(speed));
    IdealSpeed(t, speed);
    assert fw == [Flush, Command(DOWNLOAD_MINIDRIVER, CC_MIN_SIZE, true), Flush];
    IdealPlain(t1, fw);
    IdealAppend(t, SpeedScript(speed), fw);
    IdealAppend(t, SpeedScript(speed) + fw, [SetHost(defSpeed), reset]);
    IdealTwo(t1, SetHost(defSpeed), reset);
  }

  /** Up to the controller's name nothing but the host's speed changes. */
  lemma IdealName(t: Track, defSpeed: nat, rest: seq<Instr>)
    requires defSpeed in TTY_SPEEDS && t.controller == Rate(defSpeed) && WellFormed(rest)
    ensures WellFormed([SetHost(defSpeed), Flush] + (NAME_SCRIPT + rest))
    ensures Ideal(t, [SetHost(defSpeed), Flush] + (NAME_SCRIPT + rest)) == Ideal(t.(host := Rate(defSpeed)), rest)
  {
    var t1 := t.(host := Rate(defSpeed));
    IdealTwo(t, SetHost(defSpeed), Flush);
    IdealAppend(t, [SetHost(defSpeed), Flush], NAME_SCRIPT + rest);
    IdealPlain(t1, NAME_SCRIPT);
    IdealAppend(t1, NAME_SCRIPT, rest);
  }

  lemma EmptyPatchRun(t: Track, defSpeed: nat, speed: int, rest: seq<Instr>)
    requires defSpeed in TTY_SPEEDS && speed in TTY_SPEEDS && speed != defSpeed
    requires t.controller == Rate(defSpeed) && t.speedCode == COMPLETE && WellFormed(rest)
    ensures var s := [SetHost(defSpeed), Flush] + (NAME_SCRIPT + (PatchScript(defSpeed, speed, []) + rest));
            WellFormed(s) && !Ideal(t, s).inStep
  {
    var patch := PatchScript(defSpeed, speed, []);
    var t1 := t.(host := Rate(defSpeed));
    IdealName(t, defSpeed, patch + rest);
    IdealAppend(t1, patch, rest);
    EmptyPatchOutOfStep(t1, defSpeed, speed);
    NeverBackInStep(Ideal(t1, patch), rest);
  }

  lemma Regroup<T>(a: seq<T>, b: seq<T>, c: seq<T>, d: seq<T>, e: seq<T>, f: seq<T>)
    ensures a + (b + c + d + e) + f == a + (b + (c + (d + e + f)))
  {
  }

  lemma IdealNotReady(t: Track, defSpeed: nat, speed: int, patch: Option<seq<seq<Byte>>>, bdaddr: Option<string>)
    requires t.controller == Rate(defSpeed) && t.speedCode == COMPLETE && !Ready(defSpeed, speed, patch)
    ensures var t' := Ideal(t, UartScript(defSpeed, speed, patch, bdaddr)); !t'.inStep || t'.host == HungUp
  {
    var last := [Flush, SetHost(speed)];
    var tail := AddressScript(bdaddr) + SpeedScript(speed) + last;
    Regroup([SetHost(defSpeed), Flush], NAME_SCRIPT, PatchPart(defSpeed, speed, patch),
            AddressScript(bdaddr), SpeedScript(speed), last);
    if defSpeed !in TTY_SPEEDS {
      UnknownInitialSpeed(t, defSpeed, PatchPart(defSpeed, speed, patch) + tail);
    } else if speed !in TTY_SPEEDS {
      var front := [SetHost(defSpeed), Flush] + InitScript(defSpeed, speed, patch, bdaddr);
      IdealAppend(t, front, last);
      IdealTwo(Ideal(t, front), Flush, SetHost(speed));
    } else {
      EmptyPatchRun(t, defSpeed, speed, tail);
    }
  }

  /** A bring-up that is not ready goes wrong even with a controller that acknowledges everything. */
  lemma NotReadyIsBad(host: Speed, defSpeed: nat, speed: int, patch: Option<seq<seq<Byte>>>, bdaddr: Option<string>)
    requires !Ready(defSpeed, speed, patch)
    ensures var s := UartScript(defSpeed, speed, patch, bdaddr);
            && AllHonest(AllAnswered(s, COMPLETE))
            && !Good(Exec(AtStart(host, defSpeed, AllAnswered(s, COMPLETE), []), s), speed)
  {
    var s := UartScript(defSpeed, speed, patch, bdaddr);
    var t := Track(host, Rate(defSpeed), true, COMPLETE);
    AllAnsweredIsHonest(s);
    AnsweredRun(AtStart(host, defSpeed, AllAnswered(s, COMPLETE), []), s, t);
    IdealNotReady(t, defSpeed, speed, patch, bdaddr);
  }

  /** MAIN RESULT. Over all honest replies, failing writes and refused speed settings, every command is
      written in step and every success ends with both sides at the requested speed, if and only if both
      speeds exist for termios and a firmware file that is used is not empty (unless the speeds are equal
      anyway). */
  lemma InStepIff(host: Speed, defSpeed: nat, speed: int, patch: Option<seq<seq<Byte>>>, bdaddr: Option<string>)
    ensures (forall reactions, refusals :: AllHonest(reactions) ==>
               Good(Exec(AtStart(host, defSpeed, reactions, refusals),
                         UartScript(defSpeed, speed, patch, bdaddr)), speed))
            <==> Ready(defSpeed, speed, patch)
  {
    if Ready(defSpeed, speed, patch) {
      forall reactions, refusals: seq<bool> | AllHonest(reactions)
        ensures Good(Exec(AtStart(host, defSpeed, reactions, refusals),
                          UartScript(defSpeed, speed, patch, bdaddr)), speed)
      {
        ReadyIsGood(AtStart(host, defSpeed, reactions, refusals), defSpeed, speed, patch, bdaddr);
      }
    } else {
      NotReadyIsBad(host, defSpeed, speed, patch, bdaddr);
    }
  }

  // ---------- Without the assumption on replies ----------

  /** A single speed change that the host accepts, whatever the reply, leaves both sides at the new speed
      if and only if the controller acknowledged it or ran at that speed before. */
  lemma AcceptedSwitchIff(p: Port, speed: int)
    requires speed in TTY_SPEEDS && Exec(p, SwitchScript(speed)).1
    ensures var p' := Exec(p, SwitchScript(speed)).0;
            && p'.host == Rate(speed)
            && (p'.controller == Rate(speed)
                <==> Acknowledges(SpeedCommand(speed), NextReply(p.reactions).sent) || p.controller == Rate(speed))
  {
    hide FirstEvent, Accepts, Acknowledges, LittleEndian32;
    Switching(p, speed);
    SpeedBytes(speed);
  }

  /** Any other event with the parameters of an acknowledgement makes the host switch alone. */
  lemma MimicSwitchesHostAlone(p: Port, speed: int, code: Byte)
    requires speed in TTY_SPEEDS && code != COMPLETE
    requires p.reactions != [] && p.reactions[0] == Some(Answer(SpeedCommand(speed), code))
    ensures var (p', ok) := Exec(p, SwitchScript(speed));
            && p'.controller == p.controller
            && (ok <==> !RefusesNext(p)) && (ok ==> p'.host == Rate(speed))
  {
    hide FirstEvent, Accepts, Acknowledges, LittleEndian32, Answer;
    Switching(p, speed);
    AnswerIsAccepted(SpeedCommand(speed), code, CC_MIN_SIZE);
    assert [] + p.reactions[0].value.arrived == p.reactions[0].value.arrived;
  }

  /** The instruction leaves both ends at r, whatever the reply. */
  predicate Stays(i: Instr, r: Speed) {
    match i
    case Flush => true
    case SetHost(speed) => HostSpeed(speed) == r
    case Command(bytes, size, _) =>
      |bytes| >= 4 && size >= 3 && (IsSpeedCommand(bytes) ==> Rate(LittleEndian32(bytes[6..])) == r)
    case Record(_, _, after) => after == r
  }

  ghost predicate AllStay(script: seq<Instr>, r: Speed) {
    forall k :: 0 <= k < |script| ==> Stays(script[k], r)
  }

  lemma StaysStep(p: Port, i: Instr, r: Speed)
    requires p.host == r && p.controller == r && InStep(p.log) && Stays(i, r)
    ensures var p' := Exec1(p, i).0; p'.host == r && p'.controller == r && InStep(p'.log)
  {
    hide FirstEvent, Accepts, Acknowledges, LittleEndian32;
  }

  lemma {:induction false} RunStays(p: Port, script: seq<Instr>, r: Speed)
    requires p.host == r && p.controller == r && InStep(p.log) && WellFormed(script) && AllStay(script, r)
    ensures var p' := Exec(p, script).0; p'.host == r && p'.controller == r && InStep(p'.log)
    decreases script
  {
    if script != [] {
      StaysStep(p, script[0], r);
      if Exec1(p, script[0]).1 {
        RunStays(Exec1(p, script[0]).0, script[1..], r);
      }
    }
  }

  lemma SpeedScriptStays(speed: int)
    requires speed in TTY_SPEEDS
    ensures AllStay(SpeedScript(speed), Rate(speed))
  {
    SpeedBytes(speed);
  }

  lemma {:induction false} RecordsStay(packets: seq<seq<Byte>>, r: Speed)
    ensures AllStay(RecordScript(packets, r), r)
  {
    if packets != [] {
      RecordsStay(packets[1..], r);
    }
  }

  lemma InitStays(speed: nat, patch: Option<seq<seq<Byte>>>, bdaddr: Option<string>)
    requires speed in TTY_SPEEDS
    ensures AllStay(InitScript(speed, speed, patch, bdaddr), Rate(speed))
  {
    SpeedScriptStays(speed);
    assert AllStay(PatchPart(speed, speed, patch), Rate(speed)) by {
      if patch.Some? {
        RecordsStay(patch.value, Rate(speed));
      }
    }
  }

  /** A bring-up that changes no speed is in step whatever the controller sends. */
  lemma EqualSpeedsAreGood(p: Port, speed: nat, patch: Option<seq<seq<Byte>>>, bdaddr: Option<string>)
    requires p.controller == Rate(speed) && InStep(p.log) && speed in TTY_SPEEDS
    ensures Good(Exec(p, UartScript(speed, speed, patch, bdaddr)), speed)
  {
    hide InitScript, Exec, Exec1, AfterSetHost, InStep;
    var a, b, c := [SetHost(speed), Flush], InitScript(speed, speed, patch, bdaddr), [Flush, SetHost(speed)];
    ExecAppend(p, a, b);
    ExecAppend(p, a + b, c);
    HostThenFlush(p, speed);
    SetInStep(p, speed);
    var (p1, taken) := Exec(p, a);
    if taken {
      InitStays(speed, patch, bdaddr);
      RunStays(p1, b, Rate(speed));
      FlushThenHost(Exec(p1, b).0, speed);
      SetInStep(Exec(p1, b).0.(rx := []), speed);
    }
  }

  /** Mimicked acknowledgements of the speed commands leave the controller behind: in the download, or at
      the end. */
  lemma MimickedPatch(t: Track, defSpeed: nat, speed: int, packets: seq<seq<Byte>>)
    requires defSpeed in TTY_SPEEDS && speed in TTY_SPEEDS && speed != defSpeed && t.speedCode != COMPLETE
    requires t.host == t.controller == Rate(defSpeed)
    ensures !Ideal(t, PatchScript(defSpeed, speed, packets)).inStep
  {
    var download := Command(DOWNLOAD_MINIDRIVER, CC_MIN_SIZE, true);
    var back := [SetHost(defSpeed), Command(RESET, CC_MIN_SIZE, true)];
    var rest := [Flush] + RecordScript(packets, Rate(defSpeed)) + back;
    var t1 := t.(host := Rate(speed));
    IdealSpeed(t, speed);
    assert PatchScript(defSpeed, speed, packets) == SpeedScript(speed) + ([Flush, download] + rest);
    IdealAppend(t, SpeedScript(speed), [Flush, download] + rest);
    IdealAppend(t1, [Flush, download], rest);
    IdealTwo(t1, Flush, download);
    NeverBackInStep(Ideal1(t1, download), rest);
  }

  lemma MimickedRun(t: Track, defSpeed: nat, speed: int, patch: Option<seq<seq<Byte>>>, bdaddr: Option<string>)
    requires defSpeed in TTY_SPEEDS && speed in TTY_SPEEDS && speed != defSpeed && t.speedCode != COMPLETE
    requires t.controller == Rate(defSpeed)
    ensures var t' := Ideal(t, UartScript(defSpeed, speed, patch, bdaddr));
            !t'.inStep || t'.controller == Rate(defSpeed)
  {
    var last := [Flush, SetHost(speed)];
    var part, address := PatchPart(defSpeed, speed, patch), AddressScript(bdaddr);
    var tail := address + SpeedScript(speed) + last;
    Regroup([SetHost(defSpeed), Flush], NAME_SCRIPT, part, address, SpeedScript(speed), last);
    IdealName(t, defSpeed, part + tail);
    MimickedTail(t.(host := Rate(defSpeed)), defSpeed, speed, patch, bdaddr);
  }

  lemma MimickedTail(t: Track, defSpeed: nat, speed: int, patch: Option<seq<seq<Byte>>>, bdaddr: Option<string>)
    requires defSpeed in TTY_SPEEDS && speed in TTY_SPEEDS && speed != defSpeed && t.speedCode != COMPLETE
    requires t.host == t.controller == Rate(defSpeed)
    ensures var tail := AddressScript(bdaddr) + SpeedScript(speed) + [Flush, SetHost(speed)];
            var t' := Ideal(t, PatchPart(defSpeed, speed, patch) + tail);
            !t'.inStep || t'.controller == Rate(defSpeed)
  {
    var tail := AddressScript(bdaddr) + SpeedScript(speed) + [Flush, SetHost(speed)];
    if patch.Some? {
      var part := PatchScript(defSpeed, speed, patch.value);
      IdealAppend(t, part, tail);
      MimickedPatch(t, defSpeed, speed, patch.value);
      NeverBackInStep(Ideal(t, part), tail);
    } else {
      assert [] + tail == tail;
      MimickedEnd(t, speed, bdaddr);
    }
  }

  lemma MimickedEnd(t: Track, speed: int, bdaddr: Option<string>)
    requires speed in TTY_SPEEDS && t.speedCode != COMPLETE && t.host == t.controller
    ensures Ideal(t, AddressScript(bdaddr) + SpeedScript(speed) + [Flush, SetHost(speed)]).controller == t.controller
  {
    var address := AddressScript(bdaddr);
    IdealPlain(t, address);
    IdealAppend(t, address, SpeedScript(speed));
    IdealSpeed(t, speed);
    IdealAppend(t, address + SpeedScript(speed), [Flush, SetHost(speed)]);
    IdealTwo(t.(host := Rate(speed)), Flush, SetHost(speed));
  }

  /** Over all replies whatsoever, the same is guaranteed if and only if no speed is changed. */
  lemma UnrestrictedIff(host: Speed, defSpeed: nat, speed: int, patch: Option<seq<seq<Byte>>>, bdaddr: Option<string>)
    ensures (forall reactions, refusals :: Good(Exec(AtStart(host, defSpeed, reactions, refusals),
                                           UartScript(defSpeed, speed, patch, bdaddr)), speed))
            <==> speed == defSpeed && speed in TTY_SPEEDS
  {
    if speed == defSpeed && speed in TTY_SPEEDS {
      forall reactions, refusals
        ensures Good(Exec(AtStart(host, defSpeed, reactions, refusals),
                          UartScript(defSpeed, speed, patch, bdaddr)), speed)
      {
        EqualSpeedsAreGood(AtStart(host, defSpeed, reactions, refusals), defSpeed, patch, bdaddr);
      }
    } else if !Ready(defSpeed, speed, patch) {
      NotReadyIsBad(host, defSpeed, speed, patch, bdaddr);
    } else {
      MimicIsBad(host, defSpeed, speed, patch, bdaddr);
    }
  }

  lemma MimicIsBad(host: Speed, defSpeed: nat, speed: int, patch: Option<seq<seq<Byte>>>, bdaddr: Option<string>)
    requires defSpeed in TTY_SPEEDS && speed in TTY_SPEEDS && speed != defSpeed
    ensures var s := UartScript(defSpeed, speed, patch, bdaddr);
            !Good(Exec(AtStart(host, defSpeed, AllAnswered(s, 0xff), []), s), speed)
  {
    var s := UartScript(defSpeed, speed, patch, bdaddr);
    var t := Track(host, Rate(defSpeed), true, 0xff);
    AnsweredRun(AtStart(host, defSpeed, AllAnswered(s, 0xff), []), s, t);
    MimickedRun(t, defSpeed, speed, patch, bdaddr);
  }
}
