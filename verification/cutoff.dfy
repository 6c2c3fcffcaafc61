/** The cutoff tool: the sending side of the microcontroller link. */
module Cutoff {
  import opened Common
  import opened McuLink

  const CMD_CUTOFF: Byte := 5
  const CUTOFF_KEY: Byte := 0xF7

  lemma {:induction false} SumExtend(s: seq<int>, i: nat)
    requires i < |s|
    ensures Sum(s[..i + 1]) == Sum(s[..i]) + s[i]
  {
    assert s[..i + 1] == s[..i] + [s[i]];
    SumAppend(s[..i], [s[i]]);
    assert Sum([s[i]]) == s[i];
  }

  /** The frame is built in place, its checksum accumulated in its own last octet. */
  method BuildFrame() returns (payload: array<Byte>)
    ensures fresh(payload) && payload[..] == Encode(0x05, [0xF7])
  {
    payload := new Byte[7](_ => 0);
    payload[0], payload[1], payload[2], payload[3], payload[4], payload[5] :=
      SYNC0, SYNC1, CMD_CUTOFF, 1, 0, CUTOFF_KEY;
    payload[6] := 0;
    for i := 0 to 6
      invariant forall k :: 0 <= k < 6 ==> payload[k] == HEAD[k]
      invariant payload[6] == Sum(HEAD[..i]) % 256
    {
      SumExtend(HEAD, i);
      AddModulo(Sum(HEAD[..i]), HEAD[i]);
      var s: int := payload[6] as int + payload[i] as int;
      payload[6] := s % 256;
    }
    HeadSum();
    assert HEAD[..6] == HEAD;
    assert payload[..] == HEAD + [payload[6]];
  }

  const HEAD: seq<int> := [SYNC0, SYNC1, CMD_CUTOFF, 1, 0, CUTOFF_KEY]

  lemma AddModulo(a: int, b: int)
    ensures (a % 256 + b) % 256 == (a + b) % 256
  {
  }

  lemma HeadSum()
    ensures Sum(HEAD) % 256 == Checksum(CMD_CUTOFF, [CUTOFF_KEY])
  {
    var h: seq<int> := HEAD;
    assert Sum(h) == h[0] + Sum(h[1..]) && Sum(h[1..]) == h[1] + Sum(h[2..]) && Sum(h[2..]) == h[2] + Sum(h[3..]);
    assert Sum(h[3..]) == h[3] + Sum(h[4..]) && Sum(h[4..]) == h[4] + Sum(h[5..]) && Sum(h[5..]) == h[5] + Sum(h[6..]);
    assert Sum([CUTOFF_KEY]) == CUTOFF_KEY;
  }

  /** The receiving side of the link accepts the cutoff frame once, from every decoder state. */
  lemma FrameIsUnderstood(d: Decoder)
    ensures Deliveries(d, Encode(0x05, [0xF7])) == [Delivery(0x05, 0xF7)]
    ensures Run(d, Encode(0x05, [0xF7])).charpos == 0
  {
    var p: seq<Byte> := [CUTOFF_KEY];
    assert Sum(p) == CUTOFF_KEY;
    assert Checksum(CMD_CUTOFF, p) == 0xFC;
    FrameAccepted(d, CMD_CUTOFF, p);
    SmallPayload(CMD_CUTOFF, p);
  }
}
