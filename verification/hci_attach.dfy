/** The bring-up code itself: the functions of hciattach as methods on the serial port. */
module HciAttach {
  import opened Common
  import opened HciEvent
  import opened HciInit
  import F = HciFirmware
  import BdAddress

  class Serial {
    const line: Receiver
    var host: Speed
    var controller: Speed
    var log: seq<Entry>
    var reactions: seq<Option<Reply>>
    var refusals: seq<bool>

    ghost function State(): Port
      reads this, line
    {
      Port(line.rx, host, controller, log, reactions, refusals)
    }

    constructor (host: Speed, controller: Speed, reactions: seq<Option<Reply>>, refusals: seq<bool>)
      ensures fresh(line) && State() == Port([], host, controller, [], reactions, refusals)
    {
      line := new Receiver([]);
      this.host, this.controller, this.log := host, controller, [];
      this.reactions, this.refusals := reactions, refusals;
    }

    /** tcflush */
    method Flush()
      modifies line
      ensures State() == old(State()).(rx := [])
    {
      line.rx := [];
    }

    /** set_speed: the host keeps its speed when termios refuses the new one. */
    method SetSpeed(speed: int) returns (ok: bool)
      modifies this`host, this`log, this`refusals
      ensures (State(), ok) == AfterSetHost(old(State()), speed)
    {
      ok := refusals == [] || !refusals[0];
      if refusals != [] {
        refusals := refusals[1..];
      }
      if ok {
        host := if speed in TTY_SPEEDS then Rate(speed) else HungUp;
        log := log + [HostSet(speed)];
      }
    }

    /** write(2); the controller reacts and moves to speed `after`. */
    method Write(bytes: seq<Byte>, after: Speed) returns (ok: bool)
      modifies this, line
      ensures (State(), ok) == AfterWrite(old(State()), bytes, after)
    {
      if reactions != [] && reactions[0].None? {
        reactions := reactions[1..];
        return false;
      }
      log := log + [Wrote(bytes, host, controller, |line.rx|)];
      controller := after;
      line.rx := line.rx + NextReply(reactions).arrived;
      if reactions != [] {
        reactions := reactions[1..];
      }
      ok := true;
    }

    method ReadEvent(resp: array<Byte>, size: int) returns (count: int)
      requires 3 <= size <= resp.Length
      modifies this`log, line, resp
      ensures State() == AfterRead(old(State()), size).0
      ensures match AfterRead(old(State()), size).1
              case None => count == -1
              case Some(e) => count == |e| <= resp.Length && resp[..count] == e
    {
      count := line.ReadHciEvent(resp, size);
      log := log + [EventRead];
    }

    /** Write a command, read an event, and compare its bytes 4 to 6 with the opcode and status 0. */
    method Exchange(cmd: seq<Byte>, size: int, resp: array<Byte>) returns (ok: bool)
      requires |cmd| >= 4 && CC_MIN_SIZE <= size <= resp.Length
      modifies this, line, resp
      ensures (State(), ok) == Exec1(old(State()), Command(cmd, size, true))
    {
      ok := Write(cmd, ControllerAfter(controller, cmd, NextReply(reactions).sent));
      if !ok {
        return;
      }
      var count := ReadEvent(resp, size);
      if count < CC_MIN_SIZE {
        return false;
      }
      assert resp[..count][4] == resp[4] && resp[..count][5] == resp[5] && resp[..count][6] == resp[6];
      ok := resp[4] == cmd[1] && resp[5] == cmd[2] && resp[6] == 0;
    }

    method Reset() returns (ok: bool)
      modifies this, line
      ensures (State(), ok) == Exec1(old(State()), Command(RESET, CC_MIN_SIZE, true))
    {
      var resp := new Byte[CC_MIN_SIZE](_ => 0);
      ok := Exchange(RESET, CC_MIN_SIZE, resp);
    }

    /** Only the exchange: the name that is copied out of the response is not modelled. */
    method ReadLocalName() returns (ok: bool)
      modifies this, line
      ensures (State(), ok) == Exec(old(State()), [HciInit.Flush, Command(READ_LOCAL_NAME, NAME_SIZE, true)])
    {
      ghost var p := State();
      var resp := new Byte[NAME_SIZE + CC_MIN_SIZE](_ => 0);
      Flush();
      ok := Exchange(READ_LOCAL_NAME, NAME_SIZE, resp);
      FlushThen(p, Command(READ_LOCAL_NAME, NAME_SIZE, true));
    }

    method SetBdAddr(bdaddr: string)
      modifies this, line
      ensures State() == Exec(old(State()), AddressScript(Some(bdaddr))).0
      ensures Exec(old(State()), AddressScript(Some(bdaddr))).1
    {
      ghost var p := State();
      var ba := new Byte[6](_ => 0);
      var valid := BdAddress.Str2Ba(Some(bdaddr), ba);
      if !valid {
        return;
      }
      var cmd := [0x01, 0x01, 0xfc, 0x06] + ba[..];
      assert cmd == AddressCommand(bdaddr);
      var resp := new Byte[CC_MIN_SIZE](_ => 0);
      Flush();
      var ok := Exchange(cmd, CC_MIN_SIZE, resp);
      FlushThen(p, Command(AddressCommand(bdaddr), CC_MIN_SIZE, false));
    }

    method SetClock48() returns (ok: bool)
      modifies this, line
      ensures (State(), ok) == Exec(old(State()), [HciInit.Flush, Command(CLOCK_48, CC_MIN_SIZE, true)])
    {
      ghost var p := State();
      var resp := new Byte[CC_MIN_SIZE](_ => 0);
      Flush();
      ok := Exchange(CLOCK_48, CC_MIN_SIZE, resp);
      FlushThen(p, Command(CLOCK_48, CC_MIN_SIZE, true));
    }

    method SetControllerSpeed(speed: int) returns (ok: bool)
      modifies this, line
      ensures (State(), ok) == Exec(old(State()), SpeedScript(speed))
    {
      ghost var p := State();
      ExecAppend(p, ClockScript(speed), SwitchScript(speed));
      if speed % 0x1_0000_0000 > 3000000 {
        ok := SetClock48();
        if !ok {
          return;
        }
      }
      ghost var p1 := State();
      var resp := new Byte[CC_MIN_SIZE](_ => 0);
      Flush();
      ok := Exchange(SpeedCommand(speed), CC_MIN_SIZE, resp);
      Switching(p1, speed);
      if ok {
        ok := SetSpeed(speed);
      }
    }

    /** Reads up to n bytes of a file into the transmit buffer: all that is left, if that is less. */
    method ReadFile(file: seq<Byte>, tx: array<Byte>, at: nat, n: nat) returns (rest: seq<Byte>)
      requires at + n <= tx.Length
      modifies tx
      ensures var k := Min(n, |file|); rest == file[k..] && tx[..] == F.Overwrite(old(tx[..]), at, file[..k])
    {
      var k := Min(n, |file|);
      forall i | 0 <= i < k {
        tx[at + i] := file[i];
      }
      rest := file[k..];
    }

    /** One turn of the download loop up to the write. */
    method NextPacket(file: seq<Byte>, tx: array<Byte>) returns (rest: seq<Byte>)
      requires file != [] && tx.Length == F.TX_SIZE
      modifies tx
      ensures (tx[..], rest) == F.FillPacket(file, old(tx[..]))
    {
      rest := ReadFile(file, tx, 1, 3);
      ghost var was := tx[..];
      tx[0] := F.COMMAND_PKT;
      assert tx[..] == F.Overwrite(was, 0, [F.COMMAND_PKT]);
      rest := ReadFile(rest, tx, 4, tx[3]);
    }

    /** Write one record, read one event whatever it says, flush. */
    method SendRecord(packet: seq<Byte>, last: bool, home: Speed) returns (ok: bool)
      modifies this, line
      ensures (State(), ok) == Exec1(old(State()), Record(packet, last, home))
    {
      ok := Write(packet, if last then home else controller);
      if !ok {
        return;
      }
      var resp := new Byte[CC_MIN_SIZE](_ => 0);
      var count := ReadEvent(resp, CC_MIN_SIZE);
      Flush();
    }

    /** One turn of the download loop. */
    method DownloadTurn(file: seq<Byte>, tx: array<Byte>, home: Speed) returns (ok: bool, rest: seq<Byte>)
      requires file != [] && tx.Length == F.TX_SIZE
      modifies this, line, tx
      ensures |rest| < |file|
      ensures Exec(old(State()), RecordScript(F.Packets(file, old(tx[..])), home))
              == if ok then Exec(State(), RecordScript(F.Packets(rest, tx[..]), home)) else (State(), false)
    {
      TurnOfScript(State(), file, tx[..], home);
      rest := NextPacket(file, tx);
      var len: nat := tx[3];
      ok := SendRecord(tx[..4 + len], rest == [], home);
    }

    /** `tx` is the transmit buffer with whatever it holds, `home` the speed the controller returns to
        after the last record. */
    method LoadFirmware(file: seq<Byte>, tx: array<Byte>, home: Speed) returns (ok: bool)
      requires tx.Length == F.TX_SIZE
      modifies this, line, tx
      ensures (State(), ok) == Exec(old(State()), FirmwareScript(F.Packets(file, old(tx[..])), home))
    {
      ghost var p, script := State(), FirmwareScript(F.Packets(file, tx[..]), home);
      Downloading(p, F.Packets(file, tx[..]), home);
      var resp := new Byte[CC_MIN_SIZE](_ => 0);
      Flush();
      ok := Exchange(DOWNLOAD_MINIDRIVER, CC_MIN_SIZE, resp);
      if !ok {
        return;
      }
      Flush();
      var rest := file;
      while rest != []
        invariant Exec(p, script) == Exec(State(), RecordScript(F.Packets(rest, tx[..]), home))
        decreases |rest|
      {
        ok, rest := DownloadTurn(rest, tx, home);
        if !ok {
          return;
        }
      }
      ok := true;
    }

    /** The whole initialisation; `patch` is the firmware file when the search finds one. */
    method Init(defSpeed: nat, speed: int, patch: Option<seq<Byte>>, tx: array<Byte>, bdaddr: Option<string>)
      returns (ok: bool)
      requires tx.Length == F.TX_SIZE
      modifies this, line, tx
      ensures (State(), ok) == Exec(old(State()), InitScript(defSpeed, speed, PacketsOf(patch, old(tx[..])), bdaddr))
    {
      hide Exec1, SpeedScript, PatchScript, InitScript, F.Packets;
      ghost var p, packets := State(), PacketsOf(patch, tx[..]);
      InitParts(p, defSpeed, speed, packets, bdaddr);
      ok := Reset();
      if !ok {
        return;
      }
      ok := ReadLocalName();
      if !ok {
        return;
      }
      if patch.Some? {
        ok := ApplyPatch(defSpeed, speed, patch.value, tx);
        if !ok {
          return;
        }
      }
      if bdaddr.Some? {
        SetBdAddr(bdaddr.value);
      }
      ok := SetControllerSpeed(speed);
    }

    method ApplyPatch(defSpeed: nat, speed: int, file: seq<Byte>, tx: array<Byte>) returns (ok: bool)
      requires tx.Length == F.TX_SIZE
      modifies this, line, tx
      ensures (State(), ok) == Exec(old(State()), PatchScript(defSpeed, speed, F.Packets(file, old(tx[..]))))
    {
      PatchParts(State(), defSpeed, speed, F.Packets(file, tx[..]));
      ok := SetControllerSpeed(speed);
      if !ok {
        return;
      }
      ok := LoadFirmware(file, tx, Rate(defSpeed));
      if !ok {
        return;
      }
      GoingBack(State(), defSpeed);
      ok := SetSpeed(defSpeed);
      if !ok {
        return;
      }
      ok := Reset();
    }

    /** The part of init_uart that touches the line. A ready bring-up of a controller that answers honestly
        writes in step, and a success leaves both sides at the requested speed. */
    method InitUart(defSpeed: nat, speed: int, patch: Option<seq<Byte>>, tx: array<Byte>, bdaddr: Option<string>)
      returns (ok: bool)
      requires tx.Length == F.TX_SIZE
      modifies this, line, tx
      ensures (State(), ok) == Exec(old(State()), UartScript(defSpeed, speed, PacketsOf(patch, old(tx[..])), bdaddr))
      ensures old(controller) == Rate(defSpeed) && Sound(old(State())) ==>
                Ready(defSpeed, speed, PacketsOf(patch, old(tx[..]))) ==> Good((State(), ok), speed)
    {
      hide Exec, Exec1, UartScript, InitScript, Good, Sound, Ready;
      UartParts(State(), defSpeed, speed, PacketsOf(patch, tx[..]), bdaddr);
      if controller == Rate(defSpeed) && Sound(State()) && Ready(defSpeed, speed, PacketsOf(patch, tx[..])) {
        ReadyIsGood(State(), defSpeed, speed, PacketsOf(patch, tx[..]), bdaddr);
      }
      ok := SetSpeed(defSpeed);
      if !ok {
        return;
      }
      Flush();
      ok := Init(defSpeed, speed, patch, tx, bdaddr);
      if !ok {
        return;
      }
      Flush();
      ok := SetSpeed(speed);
    }
  }

  function PacketsOf(patch: Option<seq<Byte>>, tx: seq<Byte>): Option<seq<seq<Byte>>>
    requires |tx| == F.TX_SIZE
  {
    if patch.Some? then Some(F.Packets(patch.value, tx)) else None
  }

  // ---------- The scripts, instruction by instruction ----------

  lemma FlushThen(p: Port, i: Instr)
    requires WellFormedInstr(i)
    ensures Exec(p, [HciInit.Flush, i]) == Exec1(p.(rx := []), i)
  {
    assert [HciInit.Flush, i] == [HciInit.Flush] + [i];
    ExecCons(p, HciInit.Flush, [i]);
    ExecOne(p.(rx := []), i);
  }

  lemma Downloading(p: Port, packets: seq<seq<Byte>>, home: Speed)
    ensures var (p', ok) := Exec1(p.(rx := []), Command(DOWNLOAD_MINIDRIVER, CC_MIN_SIZE, true));
            Exec(p, FirmwareScript(packets, home))
            == if ok then Exec(p'.(rx := []), RecordScript(packets, home)) else (p', false)
  {
    var c := Command(DOWNLOAD_MINIDRIVER, CC_MIN_SIZE, true);
    var rs := RecordScript(packets, home);
    assert FirmwareScript(packets, home) == [HciInit.Flush] + ([c] + ([HciInit.Flush] + rs));
    ExecCons(p, HciInit.Flush, [c] + ([HciInit.Flush] + rs));
    ExecCons(p.(rx := []), c, [HciInit.Flush] + rs);
    ExecCons(Exec1(p.(rx := []), c).0, HciInit.Flush, rs);
  }

  lemma FirstRecord(p: Port, packets: seq<seq<Byte>>, home: Speed)
    requires packets != []
    ensures var (p', ok) := Exec1(p, Record(packets[0], |packets| == 1, home));
            Exec(p, RecordScript(packets, home)) == if ok then Exec(p', RecordScript(packets[1..], home)) else (p', ok)
  {
    ExecCons(p, Record(packets[0], |packets| == 1, home), RecordScript(packets[1..], home));
  }

  lemma TurnOfScript(p: Port, file: seq<Byte>, tx: seq<Byte>, home: Speed)
    requires file != [] && |tx| == F.TX_SIZE
    ensures var (tx', rest) := F.FillPacket(file, tx);
            var (p', ok) := Exec1(p, Record(tx'[..4 + tx'[3] as int], rest == [], home));
            Exec(p, RecordScript(F.Packets(file, tx), home))
            == if ok then Exec(p', RecordScript(F.Packets(rest, tx'), home)) else (p', false)
  {
    FirstRecord(p, F.Packets(file, tx), home);
  }

  function Then(r: (Port, bool), script: seq<Instr>): (Port, bool)
    requires WellFormed(script)
  {
    if r.1 then Exec(r.0, script) else r
  }

  lemma PatchParts(p: Port, defSpeed: nat, speed: int, packets: seq<seq<Byte>>)
    ensures var back := [SetHost(defSpeed), Command(RESET, CC_MIN_SIZE, true)];
            Exec(p, PatchScript(defSpeed, speed, packets))
            == Then(Then(Exec(p, SpeedScript(speed)), FirmwareScript(packets, Rate(defSpeed))), back)
  {
    var a, b := SpeedScript(speed), FirmwareScript(packets, Rate(defSpeed));
    ExecAppend(p, a, b);
    ExecAppend(p, a + b, [SetHost(defSpeed), Command(RESET, CC_MIN_SIZE, true)]);
  }

  lemma GoingBack(p: Port, defSpeed: nat)
    ensures var (p', ok) := AfterSetHost(p, defSpeed);
            Exec(p, [SetHost(defSpeed), Command(RESET, CC_MIN_SIZE, true)])
            == if ok then Exec1(p', Command(RESET, CC_MIN_SIZE, true)) else (p', false)
  {
    var c := Command(RESET, CC_MIN_SIZE, true);
    assert [SetHost(defSpeed), c] == [SetHost(defSpeed)] + [c];
    ExecCons(p, SetHost(defSpeed), [c]);
    ExecOne(AfterSetHost(p, defSpeed).0, c);
  }

  lemma InitParts(p: Port, defSpeed: nat, speed: int, patch: Option<seq<seq<Byte>>>, bdaddr: Option<string>)
    ensures var name := [HciInit.Flush, Command(READ_LOCAL_NAME, NAME_SIZE, true)];
            Exec(p, InitScript(defSpeed, speed, patch, bdaddr))
            == Then(Then(Then(Then(Exec1(p, Command(RESET, CC_MIN_SIZE, true)), name),
                              PatchPart(defSpeed, speed, patch)), AddressScript(bdaddr)), SpeedScript(speed))
  {
    var reset := Command(RESET, CC_MIN_SIZE, true);
    var name := [HciInit.Flush, Command(READ_LOCAL_NAME, NAME_SIZE, true)];
    assert NAME_SCRIPT == [reset] + name;
    ExecCons(p, reset, name);
    var a, b := PatchPart(defSpeed, speed, patch), AddressScript(bdaddr);
    ExecAppend(p, NAME_SCRIPT, a);
    ExecAppend(p, NAME_SCRIPT + a, b);
    ExecAppend(p, NAME_SCRIPT + a + b, SpeedScript(speed));
  }

  lemma UartParts(p: Port, defSpeed: nat, speed: int, patch: Option<seq<seq<Byte>>>, bdaddr: Option<string>)
    ensures var (p1, taken) := AfterSetHost(p, defSpeed);
            var (p2, ok) := Exec(p1.(rx := []), InitScript(defSpeed, speed, patch, bdaddr));
            Exec(p, UartScript(defSpeed, speed, patch, bdaddr))
            == if !taken then (p1, false) else if ok then AfterSetHost(p2.(rx := []), speed) else (p2, false)
  {
    var a, b := [SetHost(defSpeed), HciInit.Flush], InitScript(defSpeed, speed, patch, bdaddr);
    var c := [HciInit.Flush, SetHost(speed)];
    ExecAppend(p, a, b);
    ExecAppend(p, a + b, c);
    HostThenFlush(p, defSpeed);
    FlushThenHost(Exec(AfterSetHost(p, defSpeed).0.(rx := []), b).0, speed);
  }

  /** MAIN RESULT, in the terms of a caller of InitUart: the firmware file must not be empty. */
  lemma BringUpInStepIff(host: Speed, defSpeed: nat, speed: int, patch: Option<seq<Byte>>, tx: seq<Byte>,
                         bdaddr: Option<string>)
    requires |tx| == F.TX_SIZE
    ensures (forall reactions, refusals :: AllHonest(reactions) ==>
               Good(Exec(AtStart(host, defSpeed, reactions, refusals),
                         UartScript(defSpeed, speed, PacketsOf(patch, tx), bdaddr)), speed))
            <==> defSpeed in TTY_SPEEDS && speed in TTY_SPEEDS && (patch == Some([]) ==> speed == defSpeed)
  {
    InStepIff(host, defSpeed, speed, PacketsOf(patch, tx), bdaddr);
  }

  // ---------- What the download puts on the line ----------

  /** `waiting` bytes are on the line before the first packet, and none before the others. */
  function DownloadLog(packets: seq<seq<Byte>>, host: Speed, controller: Speed, waiting: nat): seq<Entry> {
    if packets == [] then []
    else [Wrote(packets[0], host, controller, waiting), EventRead] + DownloadLog(packets[1..], host, controller, 0)
  }

  /** A download that succeeds has written every packet once, in order, and read exactly one event
      after each; one that fails has done so for the first n packets. */
  lemma {:induction false} DownloadIsLockStep(p: Port, packets: seq<seq<Byte>>, home: Speed) returns (n: nat)
    ensures n <= |packets| && (Exec(p, RecordScript(packets, home)).1 ==> n == |packets|)
    ensures Exec(p, RecordScript(packets, home)).0.log
            == p.log + DownloadLog(packets[..n], p.host, p.controller, |p.rx|)
    decreases packets
  {
    hide Exec, Exec1, RecordScript;
    n := 0;
    if packets == [] {
      NoRecords(p, home);
    } else {
      FirstRecord(p, packets, home);
      var (p1, ok1) := Exec1(p, Record(packets[0], |packets| == 1, home));
      RecordLog(p, packets[0], |packets| == 1, home);
      if ok1 {
        var m := DownloadIsLockStep(p1, packets[1..], home);
        n := m + 1;
        assert packets[..n][1..] == packets[1..][..m];
      }
    }
  }

  lemma NoRecords(p: Port, home: Speed)
    ensures Exec(p, RecordScript([], home)) == (p, true)
  {
  }

  lemma RecordLog(p: Port, packet: seq<Byte>, last: bool, home: Speed)
    ensures var (p', ok) := Exec1(p, Record(packet, last, home));
            p'.host == p.host && (ok && !last ==> p'.controller == p.controller) && (ok ==> p'.rx == [])
            && p'.log == p.log + if ok then [Wrote(packet, p.host, p.controller, |p.rx|), EventRead] else []
  {
  }
}
