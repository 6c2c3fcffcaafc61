/** Firmware files (.hcd) as the download loop cuts them into command packets. */
module HciFirmware {
  import opened Common

  const COMMAND_PKT: Byte := 0x01
  const TX_SIZE: nat := 1024

  /** The buffer with `data` written from position `at` on. */
  function Overwrite(tx: seq<Byte>, at: nat, data: seq<Byte>): (r: seq<Byte>)
    requires at + |data| <= |tx|
    ensures |r| == |tx|
  {
    tx[..at] + data + tx[at + |data|..]
  }

  /** One turn of the loop on the rest of a file: the buffer afterwards, and what is still unread.
      A read gets what is left of the file when that is less than what it asks for, and the buffer
      keeps its stale contents behind it. */
  function FillPacket(file: seq<Byte>, tx: seq<Byte>): (r: (seq<Byte>, seq<Byte>))
    requires file != [] && |tx| == TX_SIZE
    ensures |r.0| == TX_SIZE && r.0[0] == COMMAND_PKT && |r.1| < |file|
  {
    var n := Min(3, |file|);
    var tx1 := Overwrite(Overwrite(tx, 1, file[..n]), 0, [COMMAND_PKT]);
    var rest := file[n..];
    var m := Min(tx1[3], |rest|);
    (Overwrite(tx1, 4, rest[..m]), rest[m..])
  }

  /** The packets written for a file; `tx` is what the transmit buffer happens to hold. */
  function Packets(file: seq<Byte>, tx: seq<Byte>): (ps: seq<seq<Byte>>)
    requires |tx| == TX_SIZE
    ensures forall p :: p in ps ==> 4 <= |p| <= 4 + 255
    decreases |file|
  {
    if file == [] then []
    else
      var (tx', rest) := FillPacket(file, tx);
      [tx'[..4 + tx'[3] as int]] + Packets(rest, tx')
  }

  /** The size of the record that a file starts with. */
  function RecordSize(file: seq<Byte>): nat
    requires |file| >= 3
  {
    3 + file[2] as int
  }

  predicate HasRecord(file: seq<Byte>) {
    |file| >= 3 && |file| >= RecordSize(file)
  }

  /** A file is a sequence of records: two opcode bytes, a length, that many parameter bytes. */
  predicate WellFormed(file: seq<Byte>)
    decreases |file|
  {
    file == [] || (HasRecord(file) && WellFormed(file[RecordSize(file)..]))
  }

  /** The records of a well-formed file. */
  function Records(file: seq<Byte>): seq<seq<Byte>>
    requires WellFormed(file)
    decreases |file|
  {
    if file == [] then [] else [file[..RecordSize(file)]] + Records(file[RecordSize(file)..])
  }

  function Tail(p: seq<Byte>): seq<Byte> {
    if p == [] then [] else p[1..]
  }

  /** The packets without their indicators, end to end. */
  function Stripped(ps: seq<seq<Byte>>): seq<Byte> {
    if ps == [] then [] else Tail(ps[0]) + Stripped(ps[1..])
  }

  function Framed(rs: seq<seq<Byte>>): seq<seq<Byte>> {
    if rs == [] then [] else [[0x01] + rs[0]] + Framed(rs[1..])
  }

  /** When a whole record is left, the loop turns it into one packet and nothing else. */
  lemma WholeRecord(file: seq<Byte>, tx: seq<Byte>)
    requires |tx| == TX_SIZE && HasRecord(file)
    ensures var (tx', rest) := FillPacket(file, tx);
            tx'[..4 + tx'[3] as int] == [COMMAND_PKT] + file[..RecordSize(file)] && rest == file[RecordSize(file)..]
  {
    var len: nat := file[2];
    var tx1 := Overwrite(Overwrite(tx, 1, file[..3]), 0, [COMMAND_PKT]);
    assert tx1[..4] == [COMMAND_PKT] + file[..3] && tx1[3] == len;
    var tx2 := Overwrite(tx1, 4, file[3..][..len]);
    assert tx2[3] == len && tx2[..4 + len] == tx1[..4] + file[3..][..len];
    assert tx1[..4] + file[3..][..len] == [COMMAND_PKT] + file[..3 + len];
    assert file[3..][len..] == file[3 + len..];
  }

  /** When less than a record is left, the packet is longer than what is left of the file. */
  lemma PartialRecord(file: seq<Byte>, tx: seq<Byte>)
    requires |tx| == TX_SIZE && file != [] && !HasRecord(file)
    ensures var (tx', rest) := FillPacket(file, tx); |tx'[..4 + tx'[3] as int]| > 1 + |file| && rest == []
  {
    var n := Min(3, |file|);
    var tx1 := Overwrite(Overwrite(tx, 1, file[..n]), 0, [COMMAND_PKT]);
    assert n == 3 ==> tx1[3] == file[2];
    assert Overwrite(tx1, 4, file[n..][..Min(tx1[3], |file| - n)])[3] == tx1[3];
  }

  /** For a well-formed file, one packet per record in order, whatever the buffer held before. */
  lemma {:induction false} OnePacketPerRecord(file: seq<Byte>, tx: seq<Byte>)
    requires |tx| == TX_SIZE && WellFormed(file)
    ensures Packets(file, tx) == Framed(Records(file))
    decreases |file|
  {
    if file != [] {
      WholeRecord(file, tx);
      var (tx', rest) := FillPacket(file, tx);
      OnePacketPerRecord(rest, tx');
    }
  }

  lemma {:induction false} StrippedFramed(rs: seq<seq<Byte>>)
    ensures Stripped(Framed(rs)) == Flatten(rs)
  {
    if rs != [] {
      StrippedFramed(rs[1..]);
      assert Tail([COMMAND_PKT] + rs[0]) == rs[0];
    }
  }

  lemma {:induction false} RecordsRestore(file: seq<Byte>)
    requires WellFormed(file)
    ensures Flatten(Records(file)) == file
    decreases |file|
  {
    if file != [] {
      RecordsRestore(file[RecordSize(file)..]);
    }
  }

  lemma StrippedStep(file: seq<Byte>, tx: seq<Byte>)
    requires |tx| == TX_SIZE && file != []
    ensures var (tx', rest) := FillPacket(file, tx);
            |Stripped(Packets(file, tx))| == 3 + tx'[3] as int + |Stripped(Packets(rest, tx'))|
  {
    var (tx', rest) := FillPacket(file, tx);
    assert |Tail(tx'[..4 + tx'[3] as int])| == 3 + tx'[3] as int;
  }

  lemma {:induction false} NeverShorter(file: seq<Byte>, tx: seq<Byte>)
    requires |tx| == TX_SIZE
    ensures |Stripped(Packets(file, tx))| >= |file|
    ensures !WellFormed(file) ==> |Stripped(Packets(file, tx))| > |file|
    decreases |file|
  {
    if file != [] {
      var (tx', rest) := FillPacket(file, tx);
      NeverShorter(rest, tx');
      StrippedStep(file, tx);
      if HasRecord(file) {
        WholeRecord(file, tx);
        assert |tx'[..4 + tx'[3] as int]| == |[COMMAND_PKT] + file[..RecordSize(file)]|;
      } else {
        PartialRecord(file, tx);
      }
    }
  }

  /** MAIN RESULT. Stripping the packets of their indicators and concatenating them restores the file
      if and only if the file is well formed. */
  lemma PacketsRestoreIff(file: seq<Byte>, tx: seq<Byte>)
    requires |tx| == TX_SIZE
    ensures Stripped(Packets(file, tx)) == file <==> WellFormed(file)
  {
    NeverShorter(file, tx);
    if WellFormed(file) {
      OnePacketPerRecord(file, tx);
      StrippedFramed(Records(file));
      RecordsRestore(file);
    }
  }
}
