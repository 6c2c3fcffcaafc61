/** What a Bluetooth bring-up does in order: the octets it writes and the speeds it sets the host to. */
module HciActions {
  import opened Common
  import opened HciEvent
  import opened HciInit
  import BdAddress

  /** The host writes, or takes a speed. */
  datatype Action = Write(bytes: seq<Byte>) | Set(speed: int)

  /** The host's actions in a log, in order. */
  function Actions(log: seq<Entry>): seq<Action> {
    if log == [] then [] else Actions(log[..|log| - 1]) + ActionsOf(log[|log| - 1])
  }

  function ActionsOf(e: Entry): seq<Action> {
    match e
    case Wrote(bytes, _, _, _) => [Write(bytes)]
    case HostSet(speed) => [Set(speed)]
    case EventRead => []
  }

  function WriteAll(packets: seq<seq<Byte>>): seq<Action> {
    if packets == [] then [] else [Write(packets[0])] + WriteAll(packets[1..])
  }

  ghost predicate NoFailingWrite(reactions: seq<Option<Reply>>) {
    forall k :: 0 <= k < |reactions| ==> reactions[k].Some?
  }

  /** What a script does when it runs to its end. */
  function ScriptActions(script: seq<Instr>): seq<Action> {
    if script == [] then []
    else
      (match script[0]
       case Command(bytes, _, _) => [Write(bytes)]
       case Record(packet, _, _) => [Write(packet)]
       case SetHost(speed) => [Set(speed)]
       case Flush => []) + ScriptActions(script[1..])
  }

  lemma {:induction false} ScriptActionsAppend(a: seq<Instr>, b: seq<Instr>)
    ensures ScriptActions(a + b) == ScriptActions(a) + ScriptActions(b)
  {
    if a == [] {
      assert a + b == b;
    } else {
      assert (a + b)[1..] == a[1..] + b;
      ScriptActionsAppend(a[1..], b);
    }
  }

  lemma LogActions(log: seq<Entry>, e: Entry)
    ensures Actions(log + [e]) == Actions(log) + ActionsOf(e)
  {
    assert (log + [e])[..|log|] == log;
  }

  lemma WriteLogs(p: Port, bytes: seq<Byte>, after: Speed)
    requires NoFailingWrite(p.reactions)
    ensures var (p', written) := AfterWrite(p, bytes, after);
            written && NoFailingWrite(p'.reactions) && Actions(p'.log) == Actions(p.log) + [Write(bytes)]
  {
    LogActions(p.log, Wrote(bytes, p.host, p.controller, |p.rx|));
  }

  lemma ReadLogs(p: Port, size: int)
    ensures var p' := AfterRead(p, size).0; Actions(p'.log) == Actions(p.log) && p'.reactions == p.reactions
  {
    LogActions(p.log, EventRead);
  }

  lemma OneActions(p: Port, i: Instr)
    requires WellFormedInstr(i) && NoFailingWrite(p.reactions)
    requires Exec1(p, i).1
    ensures var p' := Exec1(p, i).0;
            NoFailingWrite(p'.reactions) && Actions(p'.log) == Actions(p.log) + ScriptActions([i])
  {
    hide AfterWrite, AfterRead, Accepts, ControllerAfter, Actions, NoFailingWrite, NextReply;
    OneScript(i);
    match i
    case Command(bytes, size, _) =>
      var after := ControllerAfter(p.controller, bytes, NextReply(p.reactions).sent);
      WriteLogs(p, bytes, after);
      ReadLogs(AfterWrite(p, bytes, after).0, size);
    case Record(packet, last, home) =>
      var after := if last then home else p.controller;
      WriteLogs(p, packet, after);
      ReadLogs(AfterWrite(p, packet, after).0, CC_MIN_SIZE);
    case SetHost(speed) =>
      LogActions(p.log, HostSet(speed));
    case Flush =>
  }

  lemma OneScript(i: Instr)
    ensures ScriptActions([i]) == match i
                             case Command(bytes, _, _) => [Write(bytes)]
                             case Record(packet, _, _) => [Write(packet)]
                             case SetHost(speed) => [Set(speed)]
                             case Flush => []
  {
    assert [i][1..] == [];
  }

  /** A script that succeeds without a failing write has done what it says. */
  lemma {:induction false} ExecActions(p: Port, script: seq<Instr>)
    requires WellFormed(script) && NoFailingWrite(p.reactions) && Exec(p, script).1
    ensures Actions(Exec(p, script).0.log) == Actions(p.log) + ScriptActions(script)
    decreases script
  {
    hide Exec1;
    if script != [] {
      OneActions(p, script[0]);
      ExecActions(Exec1(p, script[0]).0, script[1..]);
      ScriptActionsAppend([script[0]], script[1..]);
      assert [script[0]] + script[1..] == script;
    }
  }

  /** A change of both speeds: the clock first, above 3000000, then the controller's, then the host's. */
  function SpeedChange(speed: int, b: seq<Byte>): seq<Action> {
    (if speed % 0x1_0000_0000 > 3000000 then [Write([0x01, 0x45, 0xfc, 0x01, 0x01])] else [])
    + [Write([0x01, 0x18, 0xfc, 0x06, 0x00, 0x00] + b), Set(speed)]
  }

  /** Four bytes, low first. */
  predicate SpellsLowFirst(b: seq<Byte>, n: int) {
    |b| == 4
    && var b0: int, b1: int, b2: int, b3: int := b[0], b[1], b[2], b[3];
       b0 + 0x100 * b1 + 0x1_0000 * b2 + 0x100_0000 * b3 == n
  }

  lemma SpeedActions(speed: int) returns (b: seq<Byte>)
    ensures SpellsLowFirst(b, speed % 0x1_0000_0000)
    ensures ScriptActions(SpeedScript(speed)) == SpeedChange(speed, b)
  {
    b := [speed % 0x100, speed / 0x100 % 0x100, speed / 0x1_0000 % 0x100, speed / 0x100_0000 % 0x100];
    FourBytes(speed);
    ScriptActionsAppend(ClockScript(speed), SwitchScript(speed));
    assert SpeedCommand(speed) == [0x01, 0x18, 0xfc, 0x06, 0x00, 0x00] + b;
    ThreeActions(Flush, Command(SpeedCommand(speed), CC_MIN_SIZE, true), SetHost(speed));
    TwoActions(Flush, Command(CLOCK_48, CC_MIN_SIZE, true));
  }

  lemma FourBytes(x: int)
    ensures x % 0x100 + 0x100 * (x / 0x100 % 0x100) + 0x1_0000 * (x / 0x1_0000 % 0x100)
            + 0x100_0000 * (x / 0x100_0000 % 0x100) == x % 0x1_0000_0000
  {
    var q1, q2, q3 := x / 0x100, x / 0x100 / 0x100, x / 0x100 / 0x100 / 0x100;
    Quotients(x);
    assert x == 0x100 * q1 + x % 0x100 && q1 == 0x100 * q2 + q1 % 0x100;
    assert q2 == 0x100 * q3 + q2 % 0x100 && q3 == 0x100 * (q3 / 0x100) + q3 % 0x100;
    Remainder(x, q3 / 0x100, x % 0x100 + 0x100 * (q1 % 0x100) + 0x1_0000 * (q2 % 0x100) + 0x100_0000 * (q3 % 0x100));
  }

  lemma Quotients(x: int)
    ensures x / 0x1_0000 == x / 0x100 / 0x100 && x / 0x100_0000 == x / 0x100 / 0x100 / 0x100
  {
    assert x / 0x1_0000 == x / 0x100 / 0x100;
    assert x / 0x100_0000 == x / 0x1_0000 / 0x100;
  }

  lemma Remainder(x: int, q: int, r: int)
    requires x == 0x1_0000_0000 * q + r && 0 <= r < 0x1_0000_0000
    ensures x % 0x1_0000_0000 == r
  {
  }

  lemma TwoActions(i: Instr, j: Instr)
    ensures ScriptActions([i, j]) == ScriptActions([i]) + ScriptActions([j])
  {
    assert [i, j] == [i] + [j];
    ScriptActionsAppend([i], [j]);
  }

  lemma ThreeActions(i: Instr, j: Instr, k: Instr)
    ensures ScriptActions([i, j, k]) == ScriptActions([i]) + ScriptActions([j]) + ScriptActions([k])
  {
    assert [i, j, k] == [i, j] + [k];
    ScriptActionsAppend([i, j], [k]);
    TwoActions(i, j);
  }

  lemma {:induction false} RecordActions(packets: seq<seq<Byte>>, home: Speed)
    ensures ScriptActions(RecordScript(packets, home)) == WriteAll(packets)
  {
    if packets != [] {
      RecordActions(packets[1..], home);
      assert RecordScript(packets, home)[1..] == RecordScript(packets[1..], home);
    }
  }

  lemma FirmwareActions(packets: seq<seq<Byte>>, home: Speed)
    ensures ScriptActions(FirmwareScript(packets, home)) == [Write([0x01, 0x2e, 0xfc, 0x00])] + WriteAll(packets)
  {
    hide RecordScript;
    var download := Command(DOWNLOAD_MINIDRIVER, CC_MIN_SIZE, true);
    ScriptActionsAppend([Flush, download, Flush], RecordScript(packets, home));
    RecordActions(packets, home);
    ThreeActions(Flush, download, Flush);
  }

  lemma PatchActions(defSpeed: nat, speed: int, packets: seq<seq<Byte>>, b: seq<Byte>)
    requires ScriptActions(SpeedScript(speed)) == SpeedChange(speed, b)
    ensures ScriptActions(PatchScript(defSpeed, speed, packets))
            == SpeedChange(speed, b) + [Write([0x01, 0x2e, 0xfc, 0x00])] + WriteAll(packets)
               + [Set(defSpeed), Write([0x01, 0x03, 0x0c, 0x00])]
  {
    hide SpeedScript, FirmwareScript, SpeedChange;
    var a, f := SpeedScript(speed), FirmwareScript(packets, Rate(defSpeed));
    var reset := Command(RESET, CC_MIN_SIZE, true);
    ScriptActionsAppend(a + f, [SetHost(defSpeed), reset]);
    ScriptActionsAppend(a, f);
    FirmwareActions(packets, Rate(defSpeed));
    TwoActions(SetHost(defSpeed), reset);
  }

  lemma AddressActions(bdaddr: Option<string>) returns (a: seq<Byte>)
    ensures if bdaddr.Some? && BdAddress.IsAddress(bdaddr.value) then
              && |a| == 6 && BdAddress.Printed(a) == BdAddress.Lower(bdaddr.value)
              && ScriptActions(AddressScript(bdaddr)) == [Write([0x01, 0x01, 0xfc, 0x06] + a)]
            else ScriptActions(AddressScript(bdaddr)) == []
  {
    a := [];
    if bdaddr.Some? && BdAddress.IsAddress(bdaddr.value) {
      a := BdAddress.AddressOf(bdaddr.value);
      BdAddress.PrintInvertsParse(bdaddr.value);
      TwoActions(Flush, Command(AddressCommand(bdaddr.value), CC_MIN_SIZE, false));
    }
  }

  /** MAIN RESULT. A bring-up that succeeds without a failing write has done this, in this order, and nothing
      else: the host takes the initial speed; reset and name; with a firmware file a change to the new
      speed, the download command, its packets, the host back to the initial speed, and a reset; the
      address, if there is an acceptable one, as six bytes that print as its text; a change to the new
      speed, which the host takes once more. Four bytes, low first, spell the speed. */
  lemma BringUpActions(p: Port, defSpeed: nat, speed: int, patch: Option<seq<seq<Byte>>>, bdaddr: Option<string>)
    returns (b: seq<Byte>, a: seq<Byte>)
    requires NoFailingWrite(p.reactions)
    ensures SpellsLowFirst(b, speed % 0x1_0000_0000)
    ensures bdaddr.Some? && BdAddress.IsAddress(bdaddr.value) ==>
              |a| == 6 && BdAddress.Printed(a) == BdAddress.Lower(bdaddr.value)
    ensures var (p', ok) := Exec(p, UartScript(defSpeed, speed, patch, bdaddr));
            ok ==>
              Actions(p'.log)
              == Actions(p.log) + [Set(defSpeed), Write([0x01, 0x03, 0x0c, 0x00]), Write([0x01, 0x14, 0x0c, 0x00])]
                 + (if patch.Some? then
                      SpeedChange(speed, b) + [Write([0x01, 0x2e, 0xfc, 0x00])] + WriteAll(patch.value)
                      + [Set(defSpeed), Write([0x01, 0x03, 0x0c, 0x00])]
                    else [])
                 + (if bdaddr.Some? && BdAddress.IsAddress(bdaddr.value)
                    then [Write([0x01, 0x01, 0xfc, 0x06] + a)] else [])
                 + SpeedChange(speed, b) + [Set(speed)]
  {
    hide Exec, UartScript, PatchPart, AddressScript, SpeedScript, ScriptActions, Actions, SpeedChange, SpellsLowFirst;
    hide BdAddress.IsAddress, BdAddress.Printed, BdAddress.Lower, NoFailingWrite;
    b := SpeedActions(speed);
    a := AddressActions(bdaddr);
    if Exec(p, UartScript(defSpeed, speed, patch, bdaddr)).1 {
      ExecActions(p, UartScript(defSpeed, speed, patch, bdaddr));
    }
    PatchPartActions(defSpeed, speed, patch, b);
    UartActions(defSpeed, speed, patch, bdaddr);
  }

  lemma PatchPartActions(defSpeed: nat, speed: int, patch: Option<seq<seq<Byte>>>, b: seq<Byte>)
    requires ScriptActions(SpeedScript(speed)) == SpeedChange(speed, b)
    ensures ScriptActions(PatchPart(defSpeed, speed, patch))
            == if patch.Some? then
                 SpeedChange(speed, b) + [Write([0x01, 0x2e, 0xfc, 0x00])] + WriteAll(patch.value)
                 + [Set(defSpeed), Write([0x01, 0x03, 0x0c, 0x00])]
               else []
  {
    if patch.Some? {
      PatchActions(defSpeed, speed, patch.value, b);
    }
  }

  lemma UartActions(defSpeed: nat, speed: int, patch: Option<seq<seq<Byte>>>, bdaddr: Option<string>)
    ensures ScriptActions(UartScript(defSpeed, speed, patch, bdaddr))
            == [Set(defSpeed), Write([0x01, 0x03, 0x0c, 0x00]), Write([0x01, 0x14, 0x0c, 0x00])]
               + ScriptActions(PatchPart(defSpeed, speed, patch)) + ScriptActions(AddressScript(bdaddr))
               + ScriptActions(SpeedScript(speed)) + [Set(speed)]
  {
    hide PatchPart, AddressScript, SpeedScript;
    var a, b, c := PatchPart(defSpeed, speed, patch), AddressScript(bdaddr), SpeedScript(speed);
    var first, last := [SetHost(defSpeed), Flush], [Flush, SetHost(speed)];
    ScriptActionsAppend(NAME_SCRIPT, a);
    ScriptActionsAppend(NAME_SCRIPT + a, b);
    ScriptActionsAppend(NAME_SCRIPT + a + b, c);
    ScriptActionsAppend(first, NAME_SCRIPT + a + b + c);
    ScriptActionsAppend(first + (NAME_SCRIPT + a + b + c), last);
    TwoActions(SetHost(defSpeed), Flush);
    TwoActions(Flush, SetHost(speed));
    ThreeActions(Command(RESET, CC_MIN_SIZE, true), Flush, Command(READ_LOCAL_NAME, NAME_SIZE, true));
  }

  // ---------- No stale bytes ----------

  /** At every write no byte is waiting to be read. */
  ghost predicate NothingWaiting(log: seq<Entry>) {
    forall k :: 0 <= k < |log| && log[k].Wrote? ==> log[k].waiting == 0
  }

  /** Whether every write of a script comes when the line is empty; `empty` says so of its start. */
  predicate Tidy(script: seq<Instr>, empty: bool)
    decreases script
  {
    script == [] ||
    match script[0]
    case Flush => Tidy(script[1..], true)
    case SetHost(_) => Tidy(script[1..], empty)
    case Command(_, _, _) => empty && Tidy(script[1..], false)
    case Record(_, _, _) => empty && Tidy(script[1..], true)
  }

  lemma {:induction false} TidyMore(script: seq<Instr>)
    ensures Tidy(script, false) ==> Tidy(script, true)
    decreases script
  {
    if script != [] {
      TidyMore(script[1..]);
    }
  }

  lemma {:induction false} TidyAppend(a: seq<Instr>, b: seq<Instr>, empty: bool)
    requires Tidy(a, empty) && Tidy(b, false)
    ensures Tidy(a + b, empty)
    decreases a
  {
    if a == [] {
      assert a + b == b;
      TidyMore(b);
    } else {
      assert (a + b)[1..] == a[1..] + b;
      match a[0]
      case Flush => TidyAppend(a[1..], b, true);
      case SetHost(_) => TidyAppend(a[1..], b, empty);
      case Command(_, _, _) => TidyAppend(a[1..], b, false);
      case Record(_, _, _) => TidyAppend(a[1..], b, true);
    }
  }

  lemma {:induction false} TidyRun(p: Port, script: seq<Instr>, empty: bool)
    requires WellFormed(script) && Tidy(script, empty) && NothingWaiting(p.log) && (empty ==> p.rx == [])
    ensures NothingWaiting(Exec(p, script).0.log)
    decreases script
  {
    if script != [] {
      var (p1, ok) := Exec1(p, script[0]);
      TidyStep(p, script[0]);
      if ok {
        TidyRun(p1, script[1..], match script[0]
                                 case Flush => true
                                 case SetHost(_) => empty
                                 case Command(_, _, _) => false
                                 case Record(_, _, _) => true);
      }
    }
  }

  lemma TidyStep(p: Port, i: Instr)
    requires WellFormedInstr(i) && NothingWaiting(p.log) && (i.Command? || i.Record? ==> p.rx == [])
    ensures var (p', ok) := Exec1(p, i);
            && NothingWaiting(p'.log) && (ok && (i.Flush? || i.Record?) ==> p'.rx == [])
            && (i.SetHost? ==> p'.rx == p.rx)
  {
    hide FirstEvent, Accepts, Acknowledges, LittleEndian32;
  }

  lemma {:induction false} RecordsTidy(packets: seq<seq<Byte>>, home: Speed, rest: seq<Instr>)
    requires Tidy(rest, true)
    ensures Tidy(RecordScript(packets, home) + rest, true)
  {
    var s := RecordScript(packets, home);
    if packets == [] {
      assert s + rest == rest;
    } else {
      RecordsTidy(packets[1..], home, rest);
      assert (s + rest)[1..] == RecordScript(packets[1..], home) + rest;
    }
  }

  lemma FlushTidy(rest: seq<Instr>, empty: bool)
    requires Tidy(rest, true)
    ensures Tidy([Flush] + rest, empty)
  {
    assert ([Flush] + rest)[1..] == rest;
  }

  lemma HostTidy(speed: int, rest: seq<Instr>, empty: bool)
    requires Tidy(rest, empty)
    ensures Tidy([SetHost(speed)] + rest, empty)
  {
    assert ([SetHost(speed)] + rest)[1..] == rest;
  }

  lemma CommandTidy(c: Instr, rest: seq<Instr>)
    requires c.Command? && Tidy(rest, false)
    ensures Tidy([c] + rest, true) && Tidy([Flush] + ([c] + rest), false)
  {
    assert ([c] + rest)[1..] == rest;
    FlushTidy([c] + rest, false);
  }

  lemma SpeedTidy(speed: int)
    ensures Tidy(SpeedScript(speed), false)
  {
    var c, clock := Command(SpeedCommand(speed), CC_MIN_SIZE, true), Command(CLOCK_48, CC_MIN_SIZE, true);
    LastTidy(speed);
    HostTidy(speed, [], false);
    CommandTidy(c, [SetHost(speed)] + []);
    CommandTidy(clock, []);
    assert [Flush] + ([c] + ([SetHost(speed)] + [])) == SwitchScript(speed);
    assert [Flush] + ([clock] + []) == [Flush, clock];
    TidyAppend(ClockScript(speed), SwitchScript(speed), false);
  }

  lemma PatchTidy(defSpeed: nat, speed: int, packets: seq<seq<Byte>>)
    ensures Tidy(PatchScript(defSpeed, speed, packets), false)
  {
    hide Tidy, PatchScript, SpeedScript, RecordScript;
    var download, reset := Command(DOWNLOAD_MINIDRIVER, CC_MIN_SIZE, true), Command(RESET, CC_MIN_SIZE, true);
    var records, back := RecordScript(packets, Rate(defSpeed)), [SetHost(defSpeed)] + ([reset] + []);
    NothingTidy();
    CommandTidy(reset, []);
    HostTidy(defSpeed, [reset] + [], true);
    RecordsTidy(packets, Rate(defSpeed), back);
    FlushTidy(records + back, false);
    CommandTidy(download, [Flush] + (records + back));
    SpeedTidy(speed);
    var rest := [Flush] + ([download] + ([Flush] + (records + back)));
    TidyAppend(SpeedScript(speed), rest, false);
    PatchRegrouped(defSpeed, speed, packets);
  }

  lemma PatchRegrouped(defSpeed: nat, speed: int, packets: seq<seq<Byte>>)
    ensures var download, reset := Command(DOWNLOAD_MINIDRIVER, CC_MIN_SIZE, true), Command(RESET, CC_MIN_SIZE, true);
            var records, back := RecordScript(packets, Rate(defSpeed)), [SetHost(defSpeed)] + ([reset] + []);
            PatchScript(defSpeed, speed, packets)
            == SpeedScript(speed) + ([Flush] + ([download] + ([Flush] + (records + back))))
  {
    hide SpeedScript, RecordScript;
    var download, reset := Command(DOWNLOAD_MINIDRIVER, CC_MIN_SIZE, true), Command(RESET, CC_MIN_SIZE, true);
    var a, records := SpeedScript(speed), RecordScript(packets, Rate(defSpeed));
    assert [Flush, download, Flush] + records == [Flush] + ([download] + ([Flush] + records));
    assert [SetHost(defSpeed), reset] == [SetHost(defSpeed)] + ([reset] + []);
  }

  lemma NothingTidy()
    ensures Tidy([], false)
  {
  }

  lemma NameTidy()
    ensures Tidy(NAME_SCRIPT, true)
  {
    var reset, name := Command(RESET, CC_MIN_SIZE, true), Command(READ_LOCAL_NAME, NAME_SIZE, true);
    CommandTidy(name, []);
    CommandTidy(reset, [Flush] + ([name] + []));
    assert [reset] + ([Flush] + ([name] + [])) == NAME_SCRIPT;
  }

  lemma AddressTidy(bdaddr: Option<string>)
    ensures Tidy(AddressScript(bdaddr), false)
  {
    if bdaddr.Some? && BdAddress.IsAddress(bdaddr.value) {
      var c := Command(AddressCommand(bdaddr.value), CC_MIN_SIZE, false);
      CommandTidy(c, []);
      assert [Flush] + ([c] + []) == [Flush, c];
    }
  }

  /** Whatever the controller sends, in a bring-up no command or packet is written while bytes of an earlier
      answer are waiting: no answer is mistaken for that of a later command. */
  lemma NoStaleBytes(p: Port, defSpeed: nat, speed: int, patch: Option<seq<seq<Byte>>>, bdaddr: Option<string>)
    requires NothingWaiting(p.log)
    ensures NothingWaiting(Exec(p, UartScript(defSpeed, speed, patch, bdaddr)).0.log)
  {
    hide PatchScript, AddressScript, SpeedScript, Exec;
    var a, b, c := PatchPart(defSpeed, speed, patch), AddressScript(bdaddr), SpeedScript(speed);
    var first, last := [SetHost(defSpeed), Flush], [Flush, SetHost(speed)];
    var init := NAME_SCRIPT + a + b + c;
    NameTidy();
    PatchTidy(defSpeed, speed, patch.GetOr([]));
    AddressTidy(bdaddr);
    SpeedTidy(speed);
    TidyAppend(NAME_SCRIPT, a, true);
    TidyAppend(NAME_SCRIPT + a, b, true);
    TidyAppend(NAME_SCRIPT + a + b, c, true);
    LastTidy(speed);
    TidyAppend(init, last, true);
    assert UartScript(defSpeed, speed, patch, bdaddr) == first + (init + last);
    FirstTidy(defSpeed, init + last);
    TidyRun(p, UartScript(defSpeed, speed, patch, bdaddr), false);
  }

  lemma LastTidy(speed: int)
    ensures Tidy([Flush, SetHost(speed)], false)
  {
    HostTidy(speed, [], true);
    FlushTidy([SetHost(speed)] + [], false);
    assert [Flush] + ([SetHost(speed)] + []) == [Flush, SetHost(speed)];
  }

  lemma FirstTidy(defSpeed: nat, rest: seq<Instr>)
    requires Tidy(rest, true)
    ensures Tidy([SetHost(defSpeed), Flush] + rest, false)
  {
    FlushTidy(rest, false);
    HostTidy(defSpeed, [Flush] + rest, false);
    assert [SetHost(defSpeed)] + ([Flush] + rest) == [SetHost(defSpeed), Flush] + rest;
  }

  // ---------- An example ----------

  /** From 115200 to 3000000 without a firmware file, every command acknowledged. */
  lemma ExampleBringUp()
    ensures var s := UartScript(115200, 3000000, None, Some("b8:27:eb:90:75:b6"));
            var (p', ok) := Exec(AtStart(HungUp, 115200, AllAnswered(s, 0x0e), []), s);
            && ok && p'.host == p'.controller == Rate(3000000)
            && Actions(p'.log) == [Set(115200), Write([0x01, 0x03, 0x0c, 0x00]), Write([0x01, 0x14, 0x0c, 0x00]),
                                   Write([0x01, 0x01, 0xfc, 0x06, 0xb6, 0x75, 0x90, 0xeb, 0x27, 0xb8]),
                                   Write([0x01, 0x18, 0xfc, 0x06, 0x00, 0x00, 0xc0, 0xc6, 0x2d, 0x00]),
                                   Set(3000000), Set(3000000)]
  {
    hide Exec, UartScript, AllAnswered, Actions, SpeedChange, Tracks, Sound;
    hide BdAddress.IsAddress, BdAddress.Lower, BdAddress.Printed;
    hide SpellsLowFirst, Ready;
    var text := "b8:27:eb:90:75:b6";
    var s := UartScript(115200, 3000000, None, Some(text));
    var p := AtStart(HungUp, 115200, AllAnswered(s, COMPLETE), []);
    AllAnsweredIsHonest(s);
    StartTracks(s);
    AnsweredRun(p, s, Track(HungUp, Rate(115200), true, COMPLETE));
    ReadyExample();
    ReadyIsGood(p, 115200, 3000000, None, Some(text));
    AllAnsweredSucceed(s);
    var b, a := BringUpActions(p, 115200, 3000000, None, Some(text));
    ExampleAddress(a);
    SpeedOctets(b);
    NoActions();
    FourCommands(a, b);
  }

  lemma FourCommands(a: seq<Byte>, b: seq<Byte>)
    requires a == [0xb6, 0x75, 0x90, 0xeb, 0x27, 0xb8] && b == [0xc0, 0xc6, 0x2d, 0x00]
    ensures [] + [Set(115200), Write([0x01, 0x03, 0x0c, 0x00]), Write([0x01, 0x14, 0x0c, 0x00])] + []
            + [Write([0x01, 0x01, 0xfc, 0x06] + a)] + SpeedChange(3000000, b) + [Set(3000000)]
            == [Set(115200), Write([0x01, 0x03, 0x0c, 0x00]), Write([0x01, 0x14, 0x0c, 0x00]),
                Write([0x01, 0x01, 0xfc, 0x06, 0xb6, 0x75, 0x90, 0xeb, 0x27, 0xb8]),
                Write([0x01, 0x18, 0xfc, 0x06, 0x00, 0x00, 0xc0, 0xc6, 0x2d, 0x00]), Set(3000000), Set(3000000)]
  {
    assert [0x01, 0x01, 0xfc, 0x06] + a == [0x01, 0x01, 0xfc, 0x06, 0xb6, 0x75, 0x90, 0xeb, 0x27, 0xb8];
    assert [0x01, 0x18, 0xfc, 0x06, 0x00, 0x00] + b == [0x01, 0x18, 0xfc, 0x06, 0x00, 0x00, 0xc0, 0xc6, 0x2d, 0x00];
  }

  lemma ReadyExample()
    ensures Ready(115200, 3000000, None)
  {
  }

  lemma NoActions()
    ensures Actions([]) == []
  {
  }

  lemma StartTracks(s: seq<Instr>)
    requires WellFormed(s)
    ensures var p := AtStart(HungUp, 115200, AllAnswered(s, COMPLETE), []);
            Tracks(Track(HungUp, Rate(115200), true, COMPLETE), p) && Sound(p)
  {
    AllAnsweredIsHonest(s);
  }

  lemma {:induction false} AllAnsweredSucceed(script: seq<Instr>)
    requires WellFormed(script)
    ensures NoFailingWrite(AllAnswered(script, COMPLETE))
  {
    if script != [] {
      AllAnsweredSucceed(script[1..]);
    }
  }

  lemma SpeedOctets(b: seq<Byte>)
    requires SpellsLowFirst(b, 3000000)
    ensures b == [0xc0, 0xc6, 0x2d, 0x00]
  {
  }

  lemma ExampleAddress(a: seq<Byte>)
    ensures BdAddress.IsAddress("b8:27:eb:90:75:b6")
    ensures |a| == 6 && BdAddress.Printed(a) == BdAddress.Lower("b8:27:eb:90:75:b6") ==>
              a == [0xb6, 0x75, 0x90, 0xeb, 0x27, 0xb8]
  {
    var ba: seq<Byte> := [0xb6, 0x75, 0x90, 0xeb, 0x27, 0xb8];
    var text := "b8:27:eb:90:75:b6";
    hide BdAddress.Printed, BdAddress.IsAddress, BdAddress.AddressOf, BdAddress.Lower;
    ExamplePairs(ba);
    BdAddress.ParseInvertsPrint(ba);
    ExampleIsLower();
    if |a| == 6 && BdAddress.Printed(a) == text {
      BdAddress.ParseInvertsPrint(a);
    }
  }

  lemma ExampleIsLower()
    ensures BdAddress.Lower("b8:27:eb:90:75:b6") == "b8:27:eb:90:75:b6"
  {
  }

  lemma ExamplePairs(ba: seq<Byte>)
    requires ba == [0xb6, 0x75, 0x90, 0xeb, 0x27, 0xb8]
    ensures BdAddress.Printed(ba) == "b8:27:eb:90:75:b6"
  {
    assert BdAddress.Pair(0xb8) == "b8" && BdAddress.Pair(0x27) == "27" && BdAddress.Pair(0xeb) == "eb";
    assert BdAddress.Pair(0x90) == "90" && BdAddress.Pair(0x75) == "75" && BdAddress.Pair(0xb6) == "b6";
    assert BdAddress.PairsOf(ba) == ["b8", "27", "eb", "90", "75", "b6"];
  }
}
