/** Cutting an NMEA 0183 sentence into its fields. */
module NmeaTokenizer {
  import opened Common

  const MAX_NMEA_TOKENS: nat := 24

  // ---------- Fields, independently of the tokenizer ----------

  /** Where the body of a sentence starts: behind an optional dollar sign. */
  function BodyStart(s: string): (i: nat)
    ensures i <= |s|
  {
    if s != "" && s[0] == '$' then 1 else 0
  }

  /** Where the line ends without its newline and the carriage return in front of it. */
  function LineEnd(s: string): (i: nat)
    ensures BodyStart(s) <= i <= |s|
  {
    var lo := BodyStart(s);
    if |s| > lo && s[|s| - 1] == '\n' then
      if |s| - 1 > lo && s[|s| - 2] == '\r' then |s| - 2 else |s| - 1
    else |s|
  }

  /** Where the body ends: in front of a checksum, if there is one. */
  function BodyEnd(s: string): (i: nat)
    ensures BodyStart(s) <= i <= |s|
  {
    var end := LineEnd(s);
    if end >= BodyStart(s) + 3 && s[end - 3] == '*' then end - 3 else end
  }

  function Body(s: string): string {
    s[BodyStart(s)..BodyEnd(s)]
  }

  /** The comma-separated fields of `field` followed by s, where `field` is a field begun; nothing
      follows a trailing comma. */
  function FieldsFrom(field: string, s: string): seq<string>
    decreases s
  {
    if s == "" then (if field == "" then [] else [field])
    else if s[0] == ',' then [field] + FieldsFrom("", s[1..])
    else FieldsFrom(field + [s[0]], s[1..])
  }

  function Fields(body: string): seq<string> {
    FieldsFrom("", body)
  }

  /** The tokens of a sentence: its first 24 fields. */
  function Tokens(s: string): (f: seq<string>)
    ensures |f| <= MAX_NMEA_TOKENS
  {
    var f := Fields(Body(s));
    f[..Min(|f|, MAX_NMEA_TOKENS)]
  }

  function Joined(fs: seq<string>): string {
    if fs == [] then "" else if |fs| == 1 then fs[0] else fs[0] + [','] + Joined(fs[1..])
  }

  ghost predicate CommaFree(fs: seq<string>) {
    forall k :: 0 <= k < |fs| ==> ',' !in fs[k]
  }

  /** Up to the next comma, characters belong to the field begun. */
  lemma {:induction false} FieldGrows(field: string, s: string, q: nat)
    requires q <= |s| && ',' !in s[..q]
    ensures FieldsFrom(field, s) == FieldsFrom(field + s[..q], s[q..])
    decreases q
  {
    if q == 0 {
      assert field + s[..0] == field && s[0..] == s;
    } else {
      assert s[0] in s[..q] && s[1..][..q - 1] == s[..q][1..] && s[1..][q - 1..] == s[q..];
      assert field + [s[0]] + s[1..][..q - 1] == field + s[..q];
      FieldGrows(field + [s[0]], s[1..], q - 1);
    }
  }

  /** One field and the comma behind it. */
  lemma FieldsStep(head: string, tail: string)
    requires ',' !in head
    ensures Fields(head + [','] + tail) == [head] + Fields(tail)
  {
    var body := head + [','] + tail;
    assert body[..|head|] == head && body[|head|..] == [','] + tail;
    FieldGrows("", body, |head|);
    assert "" + head == head && ([','] + tail)[1..] == tail;
  }

  lemma LastField(head: string)
    requires ',' !in head && head != ""
    ensures Fields(head) == [head]
  {
    FieldGrows("", head, |head|);
    assert head[..|head|] == head && head[|head|..] == "" && "" + head == head;
  }

  predicate EndsInComma(body: string) {
    body != "" && body[|body| - 1] == ','
  }

  /** The fields f spell the body, which does or does not end in a comma. */
  ghost predicate Spells(f: seq<string>, body: string, comma: bool) {
    && CommaFree(f) && (body == "" <==> f == [])
    && body == if comma then Joined(f) + [','] else Joined(f)
  }

  lemma SpellsMore(field: string, f: seq<string>, rest: string)
    requires ',' !in field && Spells(f, rest, EndsInComma(rest))
    ensures Spells([field] + f, field + [','] + rest, EndsInComma([','] + rest))
  {
    assert ([field] + f)[1..] == f;
    if f == [] {
      assert field + [','] + "" == field + [','];
    } else {
      assert Joined([field] + f) == field + [','] + Joined(f);
      assert field + [','] + (Joined(f) + [',']) == field + [','] + Joined(f) + [','];
    }
  }

  lemma SpellsLast(field: string)
    requires ',' !in field
    ensures Spells(FieldsFrom(field, ""), field, EndsInComma(""))
  {
  }

  lemma EndsAlike(s: string)
    requires s != "" && s[0] != ','
    ensures EndsInComma(s) == EndsInComma(s[1..])
  {
  }

  lemma {:induction false} JoinInvertsFrom(field: string, s: string)
    requires ',' !in field
    ensures Spells(FieldsFrom(field, s), field + s, EndsInComma(s))
    decreases s
  {
    hide Spells, EndsInComma;
    if s == "" {
      SpellsLast(field);
      assert field + s == field;
    } else if s[0] == ',' {
      JoinInvertsFrom("", s[1..]);
      assert "" + s[1..] == s[1..];
      SpellsMore(field, FieldsFrom("", s[1..]), s[1..]);
      assert field + s == field + [','] + s[1..] && s == [','] + s[1..];
    } else {
      JoinInvertsFrom(field + [s[0]], s[1..]);
      assert field + s == field + [s[0]] + s[1..];
      EndsAlike(s);
    }
  }

  /** Fields are comma-free, and joining them restores the body up to one trailing comma. */
  lemma JoinInvertsFields(body: string)
    ensures CommaFree(Fields(body))
    ensures body == if EndsInComma(body) then Joined(Fields(body)) + [','] else Joined(Fields(body))
  {
    JoinInvertsFrom("", body);
    assert "" + body == body;
  }

  lemma NoFields()
    ensures Fields("") == []
  {
  }

  /** The fields are the only comma-free way to read a body: printing any comma-free fields, with or
      without a trailing comma, and cutting the result gives them back (an empty last field needs
      the trailing comma). */
  lemma {:induction false} FieldsInvertJoin(fs: seq<string>)
    requires CommaFree(fs) && fs != []
    ensures Fields(Joined(fs) + [',']) == fs
    ensures fs[|fs| - 1] != "" ==> Fields(Joined(fs)) == fs
  {
    hide Fields;
    if |fs| == 1 {
      FieldsStep(fs[0], "");
      NoFields();
      assert fs == [fs[0]] && fs[0] + [','] + "" == fs[0] + [','];
      if fs[0] != "" {
        LastField(fs[0]);
      }
    } else {
      var j := Joined(fs[1..]);
      FieldsInvertJoin(fs[1..]);
      FieldsStep(fs[0], j);
      FieldsStep(fs[0], j + [',']);
      assert Joined(fs) + [','] == fs[0] + [','] + (j + [',']);
      assert fs == [fs[0]] + fs[1..];
    }
  }

  lemma NextField(s: string, q: nat)
    requires s != "" && q <= |s| && ',' !in s[..q] && (q < |s| ==> s[q] == ',')
    ensures Fields(s) == [s[..q]] + Fields(s[Min(q + 1, |s|)..])
  {
    if q < |s| {
      assert s == s[..q] + [','] + s[q + 1..];
      FieldsStep(s[..q], s[q + 1..]);
    } else {
      assert s[..q] == s && s[|s|..] == "";
      LastField(s);
    }
  }

  /** A stretch of the sentence buffer. */
  datatype Token = Token(p: nat, end: nat)

  /** The text of token k, empty when there is none. */
  function TextAt(f: seq<string>, k: nat): string {
    if k < |f| then f[k] else ""
  }

  /** The character a token points at: the comma behind an empty token, the terminator of an empty
      string when there is no such token. */
  function HeadAt(f: seq<string>, k: nat): char {
    if k >= |f| then '\0' else if f[k] == "" then ',' else f[k][0]
  }

  /** The first comma of the stretch p..end of a buffer, or its end (C's memchr). */
  function NextComma(b: string, p: nat, end: nat): (q: nat)
    requires p <= end <= |b|
    ensures p <= q <= end && (q < end ==> b[q] == ',')
    ensures forall k :: p <= k < q ==> b[k] != ','
    decreases end - p
  {
    if p < end && b[p] != ',' then NextComma(b, p + 1, end) else p
  }

  /** The stretches between the commas of p..end. */
  function Spans(b: string, p: nat, end: nat): seq<Token>
    requires end <= |b|
    decreases end - p
  {
    if p < end then
      var q := NextComma(b, p, end);
      [Token(p, q)] + Spans(b, Min(q + 1, end), end)
    else []
  }

  lemma NextSpan(b: string, done: seq<Token>, p: nat, end: nat)
    requires p < end <= |b|
    ensures var q := NextComma(b, p, end);
            done + Spans(b, p, end) == done + [Token(p, q)] + Spans(b, if q < end then q + 1 else q, end)
  {
  }

  lemma NoSpans(b: string, done: seq<Token>, p: nat, end: nat)
    requires p <= end <= |b|
    ensures p == end ==> Spans(b, p, end) == [] && done + Spans(b, p, end) == done
    ensures [] + Spans(b, p, end) == Spans(b, p, end)
  {
  }

  lemma NextToken(b: string, p: nat, end: nat)
    requires p < end <= |b|
    ensures var q := NextComma(b, p, end);
            IsToken(b, Token(p, q), b[p..q]) && Fields(b[p..end]) == [b[p..q]] + Fields(b[Min(q + 1, end)..end])
  {
    var q := NextComma(b, p, end);
    var s := b[p..end];
    assert s[..q - p] == b[p..q] && s[Min(q - p + 1, end - p)..] == b[Min(q + 1, end)..end];
    assert forall k :: 0 <= k < q - p ==> s[k] == b[p + k];
    NextField(s, q - p);
  }

  /** They hold the fields, in order and within bounds. */
  lemma {:induction false} SpansAreFields(b: string, p: nat, end: nat)
    requires p <= end <= |b|
    ensures var spans, f := Spans(b, p, end), Fields(b[p..end]);
            && |spans| == |f|
            && (forall k :: 0 <= k < |f| ==> IsToken(b, spans[k], f[k]) && p <= spans[k].p && spans[k].end <= end)
            && (forall k :: 0 <= k < |f| - 1 ==> spans[k].end < spans[k + 1].p)
    decreases end - p
  {
    if p < end {
      NextToken(b, p, end);
      SpansAreFields(b, Min(NextComma(b, p, end) + 1, end), end);
    } else {
      assert b[p..end] == "";
    }
  }

  // ---------- The tokenizer ----------

  /** The token covers the text t of buffer b; an empty one lies on a comma. */
  predicate IsToken(b: string, tok: Token, t: string) {
    tok.p <= tok.end <= |b| && tok.p < |b| && b[tok.p..tok.end] == t && (t == "" ==> b[tok.p] == ',')
  }

  class Tokenizer {
    const buf: array<char>
    const tokens: array<Token>
    var count: nat

    constructor (buf: array<char>)
      ensures this.buf == buf && fresh(tokens) && tokens.Length == MAX_NMEA_TOKENS
    {
      this.buf := buf;
      tokens := new Token[MAX_NMEA_TOKENS](_ => Token(0, 0));
      count := 0;
    }

    /** The tokens are those of the fields f. */
    ghost predicate Holds(f: seq<string>)
      reads this, buf, tokens
    {
      && tokens.Length == MAX_NMEA_TOKENS && count == |f| <= MAX_NMEA_TOKENS
      && forall k :: 0 <= k < count ==> IsToken(buf[..], tokens[k], f[k])
    }

    /** Where the body lies in the first n characters of the buffer. */
    method Bounds(n: nat) returns (p: nat, end: nat)
      requires n <= buf.Length
      ensures p == BodyStart(buf[..n]) && end == BodyEnd(buf[..n])
    {
      p, end := 0, n;
      if p < end && buf[p] == '$' {
        p := p + 1;
      }
      if end > p && buf[end - 1] == '\n' {
        end := end - 1;
        if end > p && buf[end - 1] == '\r' {
          end := end - 1;
        }
      }
      if end >= p + 3 && buf[end - 3] == '*' {
        end := end - 3;
      }
    }

    /** Cuts the first n characters of the buffer. */
    method Init(n: nat)
      requires tokens.Length == MAX_NMEA_TOKENS && n <= buf.Length
      modifies this, tokens
      ensures Holds(Tokens(buf[..n]))
      ensures forall k :: 0 <= k < count ==> BodyStart(buf[..n]) <= tokens[k].p && tokens[k].end <= BodyEnd(buf[..n])
      ensures forall k :: 0 <= k < count - 1 ==> tokens[k].end < tokens[k + 1].p
    {
      var p, end := Bounds(n);
      assert Body(buf[..n]) == buf[..][p..end];
      SpansAreFields(buf[..], p, end);
      Cut(p, end);
    }

    method Cut(p0: nat, end: nat)
      requires tokens.Length == MAX_NMEA_TOKENS && p0 <= end <= buf.Length
      modifies this, tokens
      ensures var spans := Spans(buf[..], p0, end);
              count == Min(|spans|, MAX_NMEA_TOKENS) && forall k :: 0 <= k < count ==> tokens[k] == spans[k]
    {
      hide Spans, NextComma;
      ghost var b, done := buf[..], [];
      var p := p0;
      count := 0;
      NoSpans(b, [], p, end);
      while p < end
        invariant p0 <= p <= end && buf[..] == b
        invariant Spans(b, p0, end) == done + Spans(b, p, end)
        invariant count == Min(|done|, MAX_NMEA_TOKENS) && forall k :: 0 <= k < count ==> tokens[k] == done[k]
      {
        NextSpan(b, done, p, end);
        var q := NextComma(buf[..], p, end);
        if count < MAX_NMEA_TOKENS {
          tokens[count] := Token(p, q);
          count := count + 1;
        }
        done := done + [Token(p, q)];
        if q < end {
          q := q + 1;
        }
        p := q;
      }
      NoSpans(b, done, p, end);
    }

    /** nmea_tokenizer_get, as text. */
    method Text(k: nat, ghost f: seq<string>) returns (t: string)
      requires Holds(f)
      ensures t == TextAt(f, k)
    {
      if k >= count {
        return "";
      }
      assert IsToken(buf[..], tokens[k], f[k]);
      t := buf[..][tokens[k].p..tokens[k].end];
    }

    /** nmea_tokenizer_get, dereferenced. */
    method Head(k: nat, ghost f: seq<string>) returns (c: char)
      requires Holds(f)
      ensures c == HeadAt(f, k)
    {
      if k >= count {
        return '\0';
      }
      assert IsToken(buf[..], tokens[k], f[k]);
      c := buf[tokens[k].p];
      assert f[k] != "" ==> buf[..][tokens[k].p..tokens[k].end][0] == c;
    }
  }

  // ---------- Numbers ----------

  predicate IsDigit(c: char) {
    '0' <= c <= '9'
  }

  function Digit(c: char): (d: nat)
    requires IsDigit(c)
    ensures d < 10
  {
    c as int - '0' as int
  }

  /** The number that digits add to acc, in 32-bit arithmetic; None for anything else. */
  function Digits(s: string, acc: int): Option<int>
    decreases s
  {
    if s == "" then Some(acc)
    else if IsDigit(s[0]) then Digits(s[1..], ToInt32(10 * acc + Digit(s[0])))
    else None
  }

  /** The number a field spells: an empty field is 0, a malformed one -1. */
  function IntOf(s: string): int {
    if s != "" && s[0] == '-' then
      var d := Digits(s[1..], 0);
      if d.Some? then ToInt32(-d.value) else -1
    else Digits(s, 0).GetOr(-1)
  }

  method Str2Int(s: string) returns (n: int)
    ensures n == IntOf(s)
  {
    var i, sign, result := 0, 1, 0;
    if s != "" && s[0] == '-' {
      i, sign := 1, -1;
    }
    ghost var start := i;
    while i < |s|
      invariant start <= i <= |s|
      invariant Digits(s[start..], 0) == Digits(s[i..], result)
    {
      assert s[i..][1..] == s[i + 1..];
      if !IsDigit(s[i]) {
        return -1;
      }
      result := ToInt32(10 * result + Digit(s[i]));
      i := i + 1;
    }
    assert result == ToInt32(result) by {
      DigitsInRange(s[start..], 0);
    }
    n := if sign == 1 then result else ToInt32(-result);
  }

  lemma {:induction false} DigitsInRange(s: string, acc: int)
    requires ToInt32(acc) == acc
    ensures Digits(s, acc).Some? ==> ToInt32(Digits(s, acc).value) == Digits(s, acc).value
    decreases s
  {
    if s != "" && IsDigit(s[0]) {
      DigitsInRange(s[1..], ToInt32(10 * acc + Digit(s[0])));
    }
  }

  /** Decimal notation. */
  function Decimal(n: nat): string {
    if n < 10 then [('0' as int + n) as char] else Decimal(n / 10) + [('0' as int + n % 10) as char]
  }

  lemma {:induction false} DigitsAppend(s: string, c: char, acc: int)
    requires IsDigit(c) && Digits(s, acc).Some?
    ensures Digits(s + [c], acc) == Some(ToInt32(10 * Digits(s, acc).value + Digit(c)))
    decreases s
  {
    if s == "" {
      assert (s + [c])[1..] == "";
    } else {
      assert (s + [c])[1..] == s[1..] + [c];
      DigitsAppend(s[1..], c, ToInt32(10 * acc + Digit(s[0])));
    }
  }

  lemma OneDigit(c: char)
    requires IsDigit(c)
    ensures Digits([c], 0) == Some(Digit(c))
  {
    assert [c][1..] == "" && Digits([c], 0) == Digits("", ToInt32(Digit(c)));
  }

  /** Its digits spell the number. */
  lemma {:induction false} DigitsOfDecimal(n: nat)
    requires n < 0x8000_0000
    ensures Digits(Decimal(n), 0) == Some(n) && Decimal(n) != "" && IsDigit(Decimal(n)[0])
  {
    hide Digits;
    var c := ('0' as int + n % 10) as char;
    if n < 10 {
      OneDigit(c);
    } else {
      DigitsOfDecimal(n / 10);
      DigitsAppend(Decimal(n / 10), c, 0);
      assert 10 * (n / 10) + Digit(c) == n;
    }
  }

  /** A number that fits 32 bits is read back from its decimal notation. */
  lemma IntOfDecimal(n: nat)
    requires n < 0x8000_0000
    ensures IntOf(Decimal(n)) == n
  {
    DigitsOfDecimal(n);
  }

  /** So is a negative one, behind its sign. */
  lemma IntOfNegative(n: nat)
    requires n < 0x8000_0000
    ensures IntOf(['-'] + Decimal(n)) + n == 0
  {
    DigitsOfDecimal(n);
    assert (['-'] + Decimal(n))[1..] == Decimal(n);
  }

  lemma {:induction false} DigitsIff(s: string, acc: int)
    ensures Digits(s, acc).Some? <==> forall k :: 0 <= k < |s| ==> '0' <= s[k] <= '9'
    decreases s
  {
    if s != "" && IsDigit(s[0]) {
      DigitsIff(s[1..], ToInt32(10 * acc + Digit(s[0])));
      assert forall k :: 0 < k < |s| ==> s[k] == s[1..][k - 1];
    }
  }

  /** An empty field is 0, and one with anything but digits behind an optional sign is -1. */
  lemma IntOfOther(s: string)
    ensures s == "" ==> IntOf(s) == 0
    ensures (exists k :: 0 <= k < |s| && !('0' <= s[k] <= '9') && !(k == 0 && s[k] == '-')) ==> IntOf(s) == -1
  {
    if s != "" && s[0] == '-' {
      DigitsIff(s[1..], 0);
      assert forall k :: 0 < k < |s| ==> s[k] == s[1..][k - 1];
    } else {
      DigitsIff(s, 0);
    }
  }
}
