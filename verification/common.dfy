/** Small definitions shared by all components. */
module Common {

  /** An unsigned octet: `char` is unsigned on the arm64 target, and `uint8_t` everywhere. */
  type Byte = x: int | 0 <= x < 256

  datatype Option<+T> = None | Some(value: T) {
    function GetOr(default: T): T {
      match this
      case Some(v) => v
      case None => default
    }
  }

  /** The 16-bit number with the given low and high octets. */
  function Word(lo: Byte, hi: Byte): nat {
    var h: int := hi;
    lo + 256 * h
  }

  function ToSeq<T>(o: Option<T>): seq<T> {
    if o.Some? then [o.value] else []
  }

  function Min(x: int, y: int): int {
    if x <= y then x else y
  }

  function Max(x: int, y: int): int {
    if x <= y then y else x
  }

  /** C division: truncates toward zero. */
  function CDiv(x: int, y: int): int
    requires y != 0
  {
    if (x < 0) == (y < 0) then Abs(x) / Abs(y) else -(Abs(x) / Abs(y))
  }

  function Abs(x: int): nat {
    if x < 0 then -x else x
  }

  /** The value of x after conversion to a 32-bit two's complement integer. */
  function ToInt32(x: int): int {
    var low := x % 0x1_0000_0000;
    if low < 0x8000_0000 then low else low - 0x1_0000_0000
  }

  /** The index of the first b in s, or |s| when there is none (C's memchr). */
  function IndexOf<T(==)>(s: seq<T>, b: T): (i: nat)
    ensures i <= |s|
    ensures b !in s[..i]
    ensures i < |s| ==> s[i] == b
  {
    if s == [] then 0
    else if s[0] == b then 0
    else
      assert s[..1 + IndexOf(s[1..], b)] == [s[0]] + s[1..][..IndexOf(s[1..], b)];
      1 + IndexOf(s[1..], b)
  }

  /** The first b found behind a b-free prefix is the one that IndexOf reports. */
  lemma IndexOfIs<T>(s: seq<T>, b: T, i: nat)
    requires i <= |s| && b !in s[..i] && (i < |s| ==> s[i] == b)
    ensures IndexOf(s, b) == i
  {
    var k := IndexOf(s, b);
    assert forall j | 0 <= j < i :: s[j] in s[..i];
    assert forall j | 0 <= j < k :: s[j] in s[..k];
  }

  function Sum(s: seq<int>): int {
    if s == [] then 0 else s[0] + Sum(s[1..])
  }

  lemma {:induction false} SumAppend(a: seq<int>, b: seq<int>)
    ensures Sum(a + b) == Sum(a) + Sum(b)
  {
    if a == [] {
      assert a + b == b;
    } else {
      assert (a + b)[1..] == a[1..] + b;
      SumAppend(a[1..], b);
    }
  }

  /** All sequences of a sequence, one after the other. */
  function Flatten<T>(ss: seq<seq<T>>): seq<T> {
    if ss == [] then [] else ss[0] + Flatten(ss[1..])
  }

  lemma {:induction false} FlattenOneMore<T>(ss: seq<seq<T>>, s: seq<T>)
    ensures Flatten(ss + [s]) == Flatten(ss) + s
  {
    if ss == [] {
      assert ss + [s] == [s] && [s][1..] == [];
    } else {
      assert (ss + [s])[1..] == ss[1..] + [s];
      FlattenOneMore(ss[1..], s);
    }
  }
}
