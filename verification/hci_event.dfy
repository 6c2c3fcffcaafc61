/** HCI event framing on a serial port whose reads may be short. */
module HciEvent {
  import opened Common

  /** The UART packet indicator of an HCI event (Bluetooth Core Specification, Vol 4 Part A, section 2). */
  const EVENT_PKT: Byte := 0x04

  /** The bytes of one event as read, and the bytes left on the line. */
  datatype Framed = Framed(event: seq<Byte>, rest: seq<Byte>)

  /** How many bytes a reader with room for `size` takes of an event with `len` parameter bytes. */
  function EventSize(len: Byte, size: int): nat {
    3 + Max(0, Min(len, size - 3))
  }

  /** The event whose indicator has just been read, on a line that holds exactly `tail` before it
      ends. None when the line ends before the event does. */
  function EventBehind(tail: seq<Byte>, size: int): Option<Framed> {
    if |tail| < 2 then None
    else
      var n := EventSize(tail[1], size) - 1;
      if |tail| < n then None else Some(Framed([EVENT_PKT] + tail[..n], tail[n..]))
  }

  /** The first event on a line: everything in front of the first indicator is dropped. */
  function FirstEvent(rx: seq<Byte>, size: int): Option<Framed> {
    var i := IndexOf(rx, EVENT_PKT);
    if i < |rx| then EventBehind(rx[i + 1..], size) else None
  }

  /** An event packet: indicator, code, parameter length, parameters. */
  function EventPacket(code: Byte, params: seq<Byte>): seq<Byte>
    requires |params| < 256
  {
    [0x04, code, |params|] + params
  }

  lemma SkipsNoise(junk: seq<Byte>, tail: seq<Byte>, size: int)
    requires EVENT_PKT !in junk
    ensures FirstEvent(junk + ([EVENT_PKT] + tail), size) == EventBehind(tail, size)
  {
    var rx := junk + ([EVENT_PKT] + tail);
    IndexOfIs(rx, EVENT_PKT, |junk|);
    assert rx[|junk| + 1..] == tail;
  }

  lemma TakesEvent(code: Byte, params: seq<Byte>, rest: seq<Byte>, size: int)
    requires |params| < 256 && size >= 3
    ensures var n := Min(|params|, size - 3);
            EventBehind([code, |params|] + params + rest, size)
            == Some(Framed(EventPacket(code, params)[..3 + n], params[n..] + rest))
  {
    var n := Min(|params|, size - 3);
    var tail := [code, |params|] + params + rest;
    assert [EVENT_PKT] + tail[..2 + n] == EventPacket(code, params)[..3 + n];
    assert tail[2 + n..] == params[n..] + rest;
  }

  /** Whatever indicator-free bytes precede it, an event is read up to the reader's room, and exactly
      those bytes are consumed. */
  lemma ReadsEvent(junk: seq<Byte>, code: Byte, params: seq<Byte>, rest: seq<Byte>, size: int)
    requires EVENT_PKT !in junk && |params| < 256 && size >= 3
    ensures var n := Min(|params|, size - 3);
            FirstEvent(junk + (EventPacket(code, params) + rest), size)
            == Some(Framed(EventPacket(code, params)[..3 + n], params[n..] + rest))
  {
    PacketTail(code, params, rest);
    var tail := [code, |params|] + params + rest;
    SkipsNoise(junk, tail, size);
    TakesEvent(code, params, rest, size);
  }

  lemma PacketTail(code: Byte, params: seq<Byte>, rest: seq<Byte>)
    requires |params| < 256
    ensures EventPacket(code, params) + rest == [EVENT_PKT] + ([code, |params|] + params + rest)
  {
  }

  /** A reader that had no room for all parameters reads the following event next if and only if no
      byte it left behind looks like an indicator. */
  lemma NextEventIff(left: seq<Byte>, code: Byte, params: seq<Byte>, size: int)
    requires |params| < 256 && size >= 3 + |params|
    ensures FirstEvent(left + EventPacket(code, params), size) == Some(Framed(EventPacket(code, params), []))
            <==> EVENT_PKT !in left
  {
    var e := EventPacket(code, params);
    if EVENT_PKT !in left {
      ReadsEvent(left, code, params, [], size);
      assert e + [] == e && e[..3 + |params|] == e && params[|params|..] + [] == [];
    } else {
      var i := IndexOf(left, EVENT_PKT);
      assert left + e == left[..i] + ([EVENT_PKT] + (left[i + 1..] + e));
      SkipsNoise(left[..i], left[i + 1..] + e, size);
      ConsumesAsRead(left[i + 1..] + e, size);
    }
  }

  /** What is read and what is left add up to what was on the line. */
  lemma ConsumesAsRead(tail: seq<Byte>, size: int)
    ensures EventBehind(tail, size).Some? ==>
              var f := EventBehind(tail, size).value; f.event + f.rest == [EVENT_PKT] + tail
  {
  }

  /** What arrives later does not change an event that has already arrived. */
  lemma LaterBytes(rx: seq<Byte>, later: seq<Byte>, size: int)
    requires FirstEvent(rx, size).Some?
    ensures var f := FirstEvent(rx, size).value;
            FirstEvent(rx + later, size) == Some(Framed(f.event, f.rest + later))
  {
    var i := IndexOf(rx, EVENT_PKT);
    assert (rx + later)[..i] == rx[..i];
    IndexOfIs(rx + later, EVENT_PKT, i);
    var tail := rx[i + 1..];
    assert (rx + later)[i + 1..] == tail + later;
    var n := EventSize(tail[1], size) - 1;
    assert (tail + later)[..n] == tail[..n] && (tail + later)[n..] == tail[n..] + later;
  }

  /** n reads in a row. */
  function ReadEvents(rx: seq<Byte>, size: int, n: nat): (r: (seq<seq<Byte>>, seq<Byte>)) {
    if n == 0 then ([], rx)
    else
      match FirstEvent(rx, size)
      case None => ([], [])
      case Some(f) =>
        var (es, rest) := ReadEvents(f.rest, size, n - 1);
        ([f.event] + es, rest)
  }

  /** An event and the noise in front of it. */
  datatype Sent = Sent(noise: seq<Byte>, code: Byte, params: seq<Byte>)

  predicate Fits(sent: seq<Sent>, size: int) {
    forall k :: 0 <= k < |sent| ==> EVENT_PKT !in sent[k].noise && |sent[k].params| <= Min(255, size - 3)
  }

  function OnLine(sent: seq<Sent>, size: int): seq<Byte>
    requires Fits(sent, size)
  {
    if sent == [] then []
    else sent[0].noise + (EventPacket(sent[0].code, sent[0].params) + OnLine(sent[1..], size))
  }

  function Packets(sent: seq<Sent>, size: int): seq<seq<Byte>>
    requires Fits(sent, size)
  {
    if sent == [] then [] else [EventPacket(sent[0].code, sent[0].params)] + Packets(sent[1..], size)
  }

  lemma ReadsWholeEvent(s: Sent, rest: seq<Byte>, size: int)
    requires EVENT_PKT !in s.noise && |s.params| <= Min(255, size - 3)
    ensures FirstEvent(s.noise + (EventPacket(s.code, s.params) + rest), size)
            == Some(Framed(EventPacket(s.code, s.params), rest))
  {
    var e := EventPacket(s.code, s.params);
    ReadsEvent(s.noise, s.code, s.params, rest, size);
    assert e[..3 + |s.params|] == e && s.params[|s.params|..] + rest == rest;
  }

  lemma ReadEventsStep(rx: seq<Byte>, size: int, n: nat, f: Framed)
    requires n > 0 && FirstEvent(rx, size) == Some(f)
    ensures ReadEvents(rx, size, n)
            == ([f.event] + ReadEvents(f.rest, size, n - 1).0, ReadEvents(f.rest, size, n - 1).1)
  {
  }

  /** Events that fit are read back one by one, each whole, until the line is used up. */
  lemma {:induction false} EventsRoundTrip(sent: seq<Sent>, size: int)
    requires Fits(sent, size)
    ensures ReadEvents(OnLine(sent, size), size, |sent|) == (Packets(sent, size), [])
  {
    if sent != [] {
      EventsRoundTrip(sent[1..], size);
      FirstOfLine(sent, size);
      ReadEventsStep(OnLine(sent, size), size, |sent|,
                     Framed(EventPacket(sent[0].code, sent[0].params), OnLine(sent[1..], size)));
    }
  }

  lemma FirstOfLine(sent: seq<Sent>, size: int)
    requires Fits(sent, size) && sent != []
    ensures FirstEvent(OnLine(sent, size), size)
            == Some(Framed(EventPacket(sent[0].code, sent[0].params), OnLine(sent[1..], size)))
  {
    ReadsWholeEvent(sent[0], OnLine(sent[1..], size), size);
  }

  /** The receive side of the port: what will still arrive before the line ends or fails. */
  class Receiver {
    var rx: seq<Byte>

    constructor (rx: seq<Byte>)
      ensures this.rx == rx
    {
      this.rx := rx;
    }

    /** read(2): any nonempty part of what is asked for and left, or 0 at the end. */
    method Read(buf: array<Byte>, at: nat, n: nat) returns (r: nat)
      requires at + n <= buf.Length && n > 0
      modifies this, buf
      ensures r <= n && (r == 0 <==> old(rx) == []) && r <= |old(rx)| && rx == old(rx)[r..]
      ensures forall k :: 0 <= k < r ==> buf[at + k] == old(rx)[k]
      ensures forall k :: 0 <= k < buf.Length && !(at <= k < at + r) ==> buf[k] == old(buf[k])
    {
      if rx == [] {
        return 0;
      }
      r :| 1 <= r <= n && r <= |rx|;
      forall i | 0 <= i < r {
        buf[at + i] := rx[i];
      }
      rx := rx[r..];
    }

    /** Reads until `n` bytes are in the buffer from position `at` on; false when the line ends. */
    method ReadFully(buf: array<Byte>, at: nat, n: nat) returns (ok: bool)
      requires at + n <= buf.Length
      modifies this, buf
      ensures ok <==> n <= |old(rx)|
      ensures rx == if ok then old(rx)[n..] else []
      ensures ok ==> forall k :: at <= k < at + n ==> buf[k] == old(rx)[k - at]
      ensures forall k :: 0 <= k < buf.Length && !(at <= k < at + n) ==> buf[k] == old(buf[k])
    {
      var got := 0;
      while got < n
        invariant 0 <= got <= n && got <= |old(rx)| && rx == old(rx)[got..]
        invariant forall k :: at <= k < at + got ==> buf[k] == old(rx)[k - at]
        invariant forall k :: 0 <= k < buf.Length && !(at <= k < at + n) ==> buf[k] == old(buf[k])
      {
        label before:
        var r := Read(buf, at + got, n - got);
        if r == 0 {
          return false;
        }
        assert forall k :: at + got <= k < at + got + r ==> buf[k] == old@before(rx)[k - at - got];
        got := got + r;
      }
      ok := true;
    }

    /** The search for the indicator; on success it is in buf[0] and `skipped` bytes preceded it. */
    method SkipToIndicator(buf: array<Byte>) returns (ok: bool, ghost skipped: nat)
      requires buf.Length >= 1
      modifies this, buf
      ensures skipped == IndexOf(old(rx), EVENT_PKT)
      ensures ok <==> skipped < |old(rx)|
      ensures ok ==> buf[0] == EVENT_PKT && rx == old(rx)[skipped + 1..]
      ensures !ok ==> rx == []
    {
      skipped := 0;
      while true
        invariant skipped <= |old(rx)| && rx == old(rx)[skipped..]
        invariant EVENT_PKT !in old(rx)[..skipped]
        decreases |rx|
      {
        var r := Read(buf, 0, 1);
        if r == 0 {
          IndexOfIs(old(rx), EVENT_PKT, skipped);
          return false, skipped;
        }
        assert buf[0 + 0] == old(rx)[skipped];
        if buf[0] == EVENT_PKT {
          IndexOfIs(old(rx), EVENT_PKT, skipped);
          return true, skipped;
        }
        assert old(rx)[..skipped + 1] == old(rx)[..skipped] + [old(rx)[skipped]];
        skipped := skipped + 1;
      }
    }

    /** The buffer may hold more than `size` bytes; with room for fewer than three the C code needs
        three all the same. */
    method ReadHciEvent(buf: array<Byte>, size: int) returns (count: int)
      requires size > 0 ==> 3 <= buf.Length && size <= buf.Length
      modifies this, buf
      ensures size <= 0 ==> count == -1 && rx == old(rx) && buf[..] == old(buf[..])
      ensures size > 0 ==>
        match FirstEvent(old(rx), size)
        case None => count == -1 && rx == []
        case Some(f) => count == |f.event| <= buf.Length && buf[..count] == f.event && rx == f.rest
    {
      if size <= 0 {
        return -1;
      }
      var ok, i := SkipToIndicator(buf);
      if !ok {
        return -1;
      }
      count := ReadBehindIndicator(buf, size);
    }

    /** The event code, the parameter length, and as many parameters as there is room for. */
    method ReadBehindIndicator(buf: array<Byte>, size: int) returns (count: int)
      requires 3 <= buf.Length && size <= buf.Length && buf[0] == EVENT_PKT
      modifies this, buf
      ensures match EventBehind(old(rx), size)
              case None => count == -1 && rx == []
              case Some(f) => count == |f.event| <= buf.Length && buf[..count] == f.event && rx == f.rest
    {
      ghost var tail := rx;
      var ok := ReadFully(buf, 1, 2);
      if !ok {
        return -1;
      }
      assert buf[1] == tail[0] && buf[2] == tail[1];
      var remain := Max(0, if buf[2] < size - 3 then buf[2] else size - 3);
      ok := ReadFully(buf, 3, remain);
      if !ok {
        return -1;
      }
      count := 3 + remain;
      assert forall k :: 3 <= k < count ==> buf[k] == tail[k - 1];
      assert buf[..count] == [EVENT_PKT] + tail[..count - 1];
    }
  }
}
