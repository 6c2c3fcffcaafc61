/** Bluetooth device addresses as text: the checker, the parser, and the derivation from a serial. */
module BdAddress {
  import opened Common

  const TEXT_LENGTH: nat := 17

  predicate IsHex(c: char) {
    '0' <= c <= '9' || 'a' <= c <= 'f' || 'A' <= c <= 'F'
  }

  /** The value of a hex digit; anything else counts as 0, as in the serial number loop. */
  function HexValue(c: char): (v: nat)
    ensures v < 16
  {
    if '0' <= c <= '9' then c as int - '0' as int
    else if 'a' <= c <= 'f' then c as int - 'a' as int + 10
    else if 'A' <= c <= 'F' then c as int - 'A' as int + 10
    else 0
  }

  function LowerDigit(v: nat): (c: char)
    requires v < 16
    ensures IsHex(c) && HexValue(c) == v
  {
    if v < 10 then ('0' as int + v) as char else ('a' as int + v - 10) as char
  }

  function ToLower(c: char): char {
    if 'A' <= c <= 'F' then (c as int - 'A' as int + 'a' as int) as char else c
  }

  function Lower(s: string): string {
    seq(|s|, i requires 0 <= i < |s| => ToLower(s[i]))
  }

  /** XX:XX:XX:XX:XX:XX with X a hex digit. */
  predicate IsAddress(s: string) {
    |s| == TEXT_LENGTH && forall k :: 0 <= k < 6 ==> IsPairAt(s, 3 * k)
  }

  /** Two hex digits at position i, and a colon behind them unless they end the text. */
  predicate IsPairAt(s: string, i: int) {
    0 <= i < |s| - 1 && IsHex(s[i]) && IsHex(s[i + 1]) && (i + 2 < |s| ==> s[i + 2] == ':')
  }

  /** The address of a text, first pair last. */
  function AddressOf(s: string): seq<Byte>
    requires |s| == TEXT_LENGTH
  {
    seq(6, j requires 0 <= j < 6 => PairAt(s, 15 - 3 * j))
  }

  function PairAt(s: string, i: nat): Byte
    requires i + 1 < |s|
  {
    16 * HexValue(s[i]) + HexValue(s[i + 1])
  }

  /** Two lower-case hex digits, the format "%02x". */
  function Pair(b: Byte): (p: string)
    ensures |p| == 2
  {
    [LowerDigit(b / 16), LowerDigit(b % 16)]
  }

  predicate SixPairs(ps: seq<string>) {
    |ps| == 6 && forall k :: 0 <= k < 6 ==> |ps[k]| == 2
  }

  function Joined(ps: seq<string>): string
    requires SixPairs(ps)
  {
    ps[0] + ":" + ps[1] + ":" + ps[2] + ":" + ps[3] + ":" + ps[4] + ":" + ps[5]
  }

  function PairsOf(ba: seq<Byte>): seq<string>
    requires |ba| == 6
  {
    seq(6, k requires 0 <= k < 6 => Pair(ba[5 - k]))
  }

  /** The usual rendering of an address: its bytes as pairs from last to first, between colons. */
  function Printed(ba: seq<Byte>): string
    requires |ba| == 6
  {
    Joined(PairsOf(ba))
  }

  /** strtol in base 16 on text that starts with a hex digit: the value of its longest run of hex
      digits (a "0x" prefix cannot occur in front of a second hex digit or a colon). */
  function LeadingHex(s: string, acc: nat): nat
    decreases s
  {
    if s != [] && IsHex(s[0]) then LeadingHex(s[1..], 16 * acc + HexValue(s[0])) else acc
  }

  lemma LeadingPair(s: string)
    requires |s| >= 2 && IsHex(s[0]) && IsHex(s[1]) && (|s| == 2 || !IsHex(s[2]))
    ensures LeadingHex(s, 0) == PairAt(s, 0)
  {
    assert s[1..][1..] == s[2..];
    assert LeadingHex(s[2..], 16 * HexValue(s[0]) + HexValue(s[1])) == 16 * HexValue(s[0]) + HexValue(s[1]);
  }

  /** The scan over a candidate text; None stands for a null pointer. */
  method Bachk(str: Option<string>) returns (ok: bool)
    ensures ok <==> str.Some? && IsAddress(str.value)
  {
    if str.None? || |str.value| != TEXT_LENGTH {
      return false;
    }
    var s, i := str.value, 0;
    ghost var n := 0;
    while i < |s|
      invariant i == 3 * n && 0 <= n <= 5
      invariant forall k :: 0 <= k < n ==> IsPairAt(s, 3 * k)
    {
      assert IsPairAt(s, 3 * n) || !IsAddress(s);
      if !IsHex(s[i]) {
        return false;
      }
      if !IsHex(s[i + 1]) {
        return false;
      }
      if i + 2 == |s| {
        assert n == 5 && IsPairAt(s, 15);
        break;
      }
      if s[i + 2] != ':' {
        return false;
      }
      i, n := i + 3, n + 1;
    }
    ok := true;
  }

  /** Parses into `ba`, which is cleared when the text is not an address. */
  method Str2Ba(str: Option<string>, ba: array<Byte>) returns (ok: bool)
    requires ba.Length == 6
    modifies ba
    ensures ok <==> str.Some? && IsAddress(str.value)
    ensures ba[..] == if ok then AddressOf(str.value) else [0, 0, 0, 0, 0, 0]
  {
    ok := Bachk(str);
    if !ok {
      forall i | 0 <= i < 6 {
        ba[i] := 0;
      }
      return;
    }
    var s, i, at := str.value, 5, 0;
    while i >= 0
      invariant -1 <= i <= 5 && at == 15 - 3 * i
      invariant forall j :: i < j < 6 ==> ba[j] == AddressOf(s)[j]
    {
      assert IsPairAt(s, 3 * (5 - i));
      assert IsHex(s[at..][0]) && IsHex(s[at..][1]) && (i > 0 ==> s[at..][2] == ':');
      LeadingPair(s[at..]);
      ba[i] := LeadingHex(s[at..], 0);
      i, at := i - 1, at + 3;
    }
  }

  lemma DigitsOfPair(b: Byte)
    ensures 16 * HexValue(Pair(b)[0]) + HexValue(Pair(b)[1]) == b
  {
  }

  lemma JoinedAt(ps: seq<string>, k: nat)
    requires SixPairs(ps) && k < 6
    ensures var s := Joined(ps);
            |s| == TEXT_LENGTH && s[3 * k] == ps[k][0] && s[3 * k + 1] == ps[k][1] && (k < 5 ==> s[3 * k + 2] == ':')
  {
    assert Joined(ps) == [ps[0][0], ps[0][1], ':', ps[1][0], ps[1][1], ':', ps[2][0], ps[2][1], ':',
                          ps[3][0], ps[3][1], ':', ps[4][0], ps[4][1], ':', ps[5][0], ps[5][1]];
    assert k == 0 || k == 1 || k == 2 || k == 3 || k == 4 || k == 5;
  }

  /** Texts of this shape with the same pairs are equal. */
  lemma JoinedIs(ps: seq<string>, s: string)
    requires SixPairs(ps) && |s| == TEXT_LENGTH
    requires forall k :: 0 <= k < 6 ==> s[3 * k] == ps[k][0] && s[3 * k + 1] == ps[k][1] && (k < 5 ==> s[3 * k + 2] == ':')
    ensures s == Joined(ps)
  {
    assert s == [ps[0][0], ps[0][1], s[3 * 0 + 2], ps[1][0], ps[1][1], s[3 * 1 + 2], ps[2][0], ps[2][1], s[3 * 2 + 2],
                 ps[3][0], ps[3][1], s[3 * 3 + 2], ps[4][0], ps[4][1], s[3 * 4 + 2], ps[5][0], ps[5][1]];
  }

  /** Printing an address and parsing it gives the address back. */
  lemma ParseInvertsPrint(ba: seq<Byte>)
    requires |ba| == 6
    ensures IsAddress(Printed(ba)) && AddressOf(Printed(ba)) == ba
  {
    var s := Printed(ba);
    forall k | 0 <= k < 6
      ensures |s| == TEXT_LENGTH && IsPairAt(s, 3 * k) && PairAt(s, 3 * k) == ba[5 - k]
    {
      PrintedPair(PairsOf(ba), k, ba[5 - k]);
    }
    forall j | 0 <= j < 6
      ensures AddressOf(s)[j] == ba[j]
    {
      assert PairAt(s, 3 * (5 - j)) == ba[5 - (5 - j)];
    }
  }

  lemma PrintedPair(ps: seq<string>, k: nat, b: Byte)
    requires SixPairs(ps) && k < 6 && ps[k] == Pair(b)
    ensures var s := Joined(ps); |s| == TEXT_LENGTH && IsPairAt(s, 3 * k) && PairAt(s, 3 * k) == b
  {
    JoinedAt(ps, k);
    DigitsOfPair(b);
  }

  lemma PairOfDigits(a: char, b: char)
    requires IsHex(a) && IsHex(b)
    ensures Pair(16 * HexValue(a) + HexValue(b)) == [ToLower(a), ToLower(b)]
  {
  }

  /** Parsing an accepted text and printing the result gives the text back, lower-cased. */
  lemma PrintInvertsParse(s: string)
    requires IsAddress(s)
    ensures Printed(AddressOf(s)) == Lower(s)
  {
    forall k | 0 <= k < 6
      ensures var l, ps := Lower(s), PairsOf(AddressOf(s));
              l[3 * k] == ps[k][0] && l[3 * k + 1] == ps[k][1] && (k < 5 ==> l[3 * k + 2] == ':')
    {
      assert IsPairAt(s, 3 * k);
      LowerPair(s, k);
    }
    JoinedIs(PairsOf(AddressOf(s)), Lower(s));
  }

  lemma LowerPair(s: string, k: nat)
    requires |s| == TEXT_LENGTH && k < 6 && IsPairAt(s, 3 * k)
    ensures PairsOf(AddressOf(s))[k] == [Lower(s)[3 * k], Lower(s)[3 * k + 1]]
    ensures k < 5 ==> Lower(s)[3 * k + 2] == ':'
  {
    PairOfDigits(s[3 * k], s[3 * k + 1]);
    PairsOfText(s, k);
  }

  lemma PairsOfText(s: string, k: nat)
    requires |s| == TEXT_LENGTH && k < 6
    ensures PairsOf(AddressOf(s))[k] == Pair(PairAt(s, 3 * k))
  {
    assert 15 - 3 * (5 - k) == 3 * k;
    assert AddressOf(s)[5 - k] == PairAt(s, 3 * k);
  }

  predicate HexDigit(c: char) {
    c in "0123456789abcdefABCDEF"
  }

  /** Character by character: a text is accepted if and only if it has 17, every third one is a colon, and
      the others are hex digits of either case. */
  lemma AcceptedIff(s: string)
    ensures IsAddress(s)
            <==> |s| == 17 && forall k :: 0 <= k < 17 ==> if k % 3 == 2 then s[k] == ':' else HexDigit(s[k])
  {
    hide HexDigit;
    forall k | 0 <= k < |s|
      ensures IsHex(s[k]) <==> HexDigit(s[k])
    {
      HexDigits(s[k]);
    }
    if |s| == 17 {
      PairsIff(s);
    }
  }

  lemma PairsIff(s: string)
    requires |s| == 17
    ensures (forall k :: 0 <= k < 6 ==> IsPairAt(s, 3 * k))
            <==> forall k :: 0 <= k < 17 ==> if k % 3 == 2 then s[k] == ':' else IsHex(s[k])
  {
    hide IsHex;
    if forall k :: 0 <= k < 6 ==> IsPairAt(s, 3 * k) {
      forall k | 0 <= k < 17
        ensures if k % 3 == 2 then s[k] == ':' else IsHex(s[k])
      {
        assert IsPairAt(s, 3 * (k / 3));
        assert k == 3 * (k / 3) + k % 3;
      }
    }
    if forall k :: 0 <= k < 17 ==> if k % 3 == 2 then s[k] == ':' else IsHex(s[k]) {
      forall k | 0 <= k < 6
        ensures IsPairAt(s, 3 * k)
      {
        assert (3 * k) % 3 == 0 && (3 * k + 1) % 3 == 1 && (3 * k + 2) % 3 == 2;
      }
    }
  }

  lemma HexDigits(c: char)
    ensures IsHex(c) <==> HexDigit(c)
  {
    var d := "0123456789abcdefABCDEF";
    assert d[0] == '0' && d[1] == '1' && d[2] == '2' && d[3] == '3' && d[4] == '4' && d[5] == '5' && d[6] == '6';
    assert d[7] == '7' && d[8] == '8' && d[9] == '9' && d[10] == 'a' && d[11] == 'b' && d[12] == 'c' && d[13] == 'd';
    assert d[14] == 'e' && d[15] == 'f' && d[16] == 'A' && d[17] == 'B' && d[18] == 'C' && d[19] == 'D' && d[20] == 'E';
    assert d[21] == 'F';
  }

  // ---------- The address derived from the board's serial number ----------

  /** v ^ 0xa for v = 0..15. */
  const MASK_DIGIT: seq<nat> := [10, 11, 8, 9, 14, 15, 12, 13, 2, 3, 0, 1, 6, 7, 4, 5]

  function MaskedDigit(v: nat): (m: nat)
    requires v < 16
    ensures m < 16 && MASK_DIGIT[m] == v
  {
    MASK_DIGIT[v]
  }

  /** b ^ 0xaa, digit by digit. */
  function Masked(b: Byte): Byte {
    16 * MaskedDigit(b / 16) + MaskedDigit(b % 16)
  }

  lemma MaskTwice(b: Byte)
    ensures Masked(Masked(b)) == b
  {
    var m := Masked(b);
    assert m / 16 == MaskedDigit(b / 16) && m % 16 == MaskedDigit(b % 16);
  }

  /** The three bytes spelt by the last six characters of the serial, 0 when it is shorter. */
  function SerialBytes(serial: string): (b: seq<Byte>)
    ensures |b| == 3
  {
    var n := |serial|;
    if n < 6 then [0, 0, 0]
    else [PairAt(serial, n - 6), PairAt(serial, n - 4), PairAt(serial, n - 2)]
  }

  function DerivedText(serial: string): string {
    var b := SerialBytes(serial);
    "b8:27:eb:" + Pair(Masked(b[0])) + ":" + Pair(Masked(b[1])) + ":" + Pair(Masked(b[2]))
  }

  method DeriveAddress(serial: string) returns (bdaddr: string)
    ensures bdaddr == DerivedText(serial)
  {
    var b := new Byte[3](_ => 0);
    if |serial| >= 6 {
      var p := serial[|serial| - 6..];
      ghost var bytes := SerialBytes(serial);
      assert bytes == [PairAt(p, 0), PairAt(p, 2), PairAt(p, 4)];
      for idx := 0 to 6
        invariant forall k :: 0 <= k < 3 ==>
                    b[k] == if 2 * k + 1 < idx then PairAt(p, 2 * k) else if 2 * k < idx then HexValue(p[2 * k]) else 0
      {
        var v: int := b[idx / 2];
        b[idx / 2] := 16 * v + HexValue(p[idx]);
      }
    }
    bdaddr := "b8:27:eb:" + Pair(Masked(b[0])) + ":" + Pair(Masked(b[1])) + ":" + Pair(Masked(b[2]));
  }

  /** MAIN RESULT. The text derived from any serial is accepted; its address carries the fixed
      vendor prefix, and unmasking its low bytes gives back what the serial spelt. */
  lemma DerivedIsAccepted(serial: string)
    ensures IsAddress(DerivedText(serial))
    ensures var ba := AddressOf(DerivedText(serial));
            && ba[3..] == [0xeb, 0x27, 0xb8]
            && [Masked(ba[2]), Masked(ba[1]), Masked(ba[0])] == SerialBytes(serial)
  {
    var b := SerialBytes(serial);
    var ba: seq<Byte> := [Masked(b[2]), Masked(b[1]), Masked(b[0]), 0xeb, 0x27, 0xb8];
    DerivedIsPrinted(serial, ba);
    ParseInvertsPrint(ba);
    MaskTwice(b[0]);
    MaskTwice(b[1]);
    MaskTwice(b[2]);
  }

  /** v with its bits 1 and 3 inverted: v ^ 0xa. */
  function Flipped(v: nat): int {
    v + (if v / 2 % 2 == 0 then 2 else -2) + (if v / 8 % 2 == 0 then 8 else -8)
  }

  lemma MaskFlips(v: nat)
    requires v < 16
    ensures MaskedDigit(v) == Flipped(v)
  {
  }

  /** Where the six derived digits stand in the text. */
  function DigitPlace(j: nat): nat {
    9 + j + j / 2
  }

  /** Digit by digit: those behind the vendor prefix are the last six characters of the serial, each with
      its bits 1 and 3 inverted; "aa:aa:aa" without six. */
  lemma DerivedDigits(serial: string, j: nat)
    requires j < 6
    ensures var t := DerivedText(serial);
            && |t| == 17 && t[..9] == "b8:27:eb:"
            && IsHex(t[DigitPlace(j)]) && t[DigitPlace(j)] == ToLower(t[DigitPlace(j)])
            && HexValue(t[DigitPlace(j)])
               == Flipped(if |serial| < 6 then 0 else HexValue(serial[|serial| - 6 + j]))
  {
    hide Pair, Masked, HexValue, Flipped, IsHex, ToLower, SerialBytes;
    var b := SerialBytes(serial);
    var d := b[j / 2];
    PlacesOf(Pair(Masked(b[0])), Pair(Masked(b[1])), Pair(Masked(b[2])), j);
    MaskedDigits(d);
    DigitOfSerial(serial, j);
    MaskFlips(d / 16);
    MaskFlips(d % 16);
  }

  lemma PlacesOf(p: string, q: string, r: string, j: nat)
    requires |p| == 2 && |q| == 2 && |r| == 2 && j < 6
    ensures var t := "b8:27:eb:" + p + ":" + q + ":" + r;
            |t| == 17 && t[..9] == "b8:27:eb:" && t[DigitPlace(j)] == [p, q, r][j / 2][j % 2]
  {
    var t := "b8:27:eb:" + p + ":" + q + ":" + r;
    assert t == "b8:27:eb:" + [p[0], p[1], ':', q[0], q[1], ':', r[0], r[1]];
    assert j == 0 || j == 1 || j == 2 || j == 3 || j == 4 || j == 5;
  }

  lemma DigitOfSerial(serial: string, j: nat)
    requires j < 6
    ensures var d := SerialBytes(serial)[j / 2];
            (if j % 2 == 0 then d / 16 else d % 16)
            == if |serial| < 6 then 0 else HexValue(serial[|serial| - 6 + j])
  {
    hide HexValue;
    if |serial| >= 6 {
      var n := |serial| - 6 + j - j % 2;
      assert j == 0 || j == 1 || j == 2 || j == 3 || j == 4 || j == 5;
      assert SerialBytes(serial)[j / 2] == PairAt(serial, n);
    }
  }

  lemma MaskedDigits(d: Byte)
    ensures var p := Pair(Masked(d));
            && HexValue(p[0]) == MaskedDigit(d / 16) && HexValue(p[1]) == MaskedDigit(d % 16)
            && IsHex(p[0]) && IsHex(p[1]) && p[0] == ToLower(p[0]) && p[1] == ToLower(p[1])
  {
    var m := Masked(d);
    assert m / 16 == MaskedDigit(d / 16) && m % 16 == MaskedDigit(d % 16);
  }

  lemma DerivedIsPrinted(serial: string, ba: seq<Byte>)
    requires var b := SerialBytes(serial);
             ba == [Masked(b[2]), Masked(b[1]), Masked(b[0]), 0xeb, 0x27, 0xb8]
    ensures DerivedText(serial) == Printed(ba)
  {
    assert Pair(0xb8) == "b8" && Pair(0x27) == "27" && Pair(0xeb) == "eb";
    assert Joined(PairsOf(ba)) == "b8" + ":" + "27" + ":" + "eb" + ":" + Pair(ba[2]) + ":" + Pair(ba[1]) + ":" + Pair(ba[0]);
    assert "b8:27:eb:" == "b8" + ":" + "27" + ":" + "eb" + ":";
  }
}
