/** The ttyreader service: frame decoder, voltage ring, and the properties it publishes. */
module TtyReader {
  import opened Common
  import opened McuLink

  const RING_SIZE: nat := 10

  /** A system property the service sets. A voltage is None when its mean divides by zero. */
  datatype Publication = Valid | Key | Voltage(mean: Option<int>) | Charge(on: bool)

  /** The voltage history and the slot the next reading goes to. */
  datatype Ring = Ring(slots: seq<int>, next: nat) {
    predicate WellFormed() { |slots| == RING_SIZE && next < RING_SIZE }
  }

  const EMPTY_RING := Ring(seq(RING_SIZE, _ => 0), 0)

  function Store(r: Ring, v: int): (r': Ring)
    requires r.WellFormed()
    ensures r'.WellFormed()
  {
    Ring(r.slots[r.next := v], if r.next == RING_SIZE - 1 then 0 else r.next + 1)
  }

  function NonZero(s: seq<int>): seq<int> {
    if s == [] then [] else (if s[0] != 0 then [s[0]] else []) + NonZero(s[1..])
  }

  /** The mean of the nonzero readings; C leaves it undefined when there are none. */
  function Mean(s: seq<int>): Option<int> {
    var vs := NonZero(s);
    if vs == [] then None else Some(CDiv(Sum(vs), |vs|))
  }

  /** What a validated frame does to the ring and which properties it sets. */
  function Handle(r: Ring, x: Delivery): (Ring, seq<Publication>)
    requires r.WellFormed()
  {
    if x.cmd == CMD_KEY then (r, [Valid, Key])
    else if x.cmd == CMD_VOLTAGE then
      var r' := Store(r, ToInt32(x.data));
      (r', [Valid, Voltage(Mean(r'.slots))])
    else if x.cmd == CMD_CHARGE then (r, [Valid, Charge(x.data == 0x04)])
    else (r, [Valid])
  }

  function HandleAll(r: Ring, xs: seq<Delivery>): (res: (Ring, seq<Publication>))
    requires r.WellFormed()
    ensures res.0.WellFormed()
    decreases xs
  {
    if xs == [] then (r, [])
    else
      var (r1, p1) := Handle(r, xs[0]);
      var (r2, p2) := HandleAll(r1, xs[1..]);
      (r2, p1 + p2)
  }

  lemma {:induction false} HandleAllAppend(r: Ring, a: seq<Delivery>, b: seq<Delivery>)
    requires r.WellFormed()
    ensures HandleAll(r, a + b)
            == (HandleAll(HandleAll(r, a).0, b).0, HandleAll(r, a).1 + HandleAll(HandleAll(r, a).0, b).1)
    decreases a
  {
    if a == [] {
      assert a + b == b;
      assert [] + HandleAll(r, b).1 == HandleAll(r, b).1;
    } else {
      assert (a + b)[1..] == a[1..] + b;
      var (r1, p1) := Handle(r, a[0]);
      HandleAllAppend(r1, a[1..], b);
      var (r2, p2) := HandleAll(r1, a[1..]);
      assert HandleAll(r, a) == (r2, p1 + p2);
      assert p1 + (p2 + HandleAll(r2, b).1) == p1 + p2 + HandleAll(r2, b).1;
    }
  }

  /** The service's variables. */
  class Service {
    var charpos: int
    var payloadLen: int
    var cmd: int
    var checksum: int
    var data: int
    var dataBytes: nat
    var validated: bool
    var history: array<int>
    var historyIndex: nat
    var published: seq<Publication>

    ghost predicate Consistent()
      reads this, history
    {
      history.Length == RING_SIZE && historyIndex < RING_SIZE
    }

    ghost function State(): Decoder
      reads this
    {
      Decoder(charpos, payloadLen, cmd, checksum, data, dataBytes)
    }

    ghost function History(): (r: Ring)
      requires Consistent()
      reads this, history
      ensures r.WellFormed()
    {
      Ring(history[..], historyIndex)
    }

    /** The two arguments are whatever the uninitialised variables happen to hold. */
    constructor (strayPos: int, strayLen: int)
      ensures Consistent() && fresh(history) && !validated && published == []
      ensures State() == Decoder(strayPos, strayLen, 0, 0, 0, 0) && History() == EMPTY_RING
    {
      charpos, payloadLen, cmd, checksum, data, dataBytes := strayPos, strayLen, 0, 0, 0, 0;
      validated, historyIndex, published := false, 0, [];
      history := new int[RING_SIZE](_ => 0);
    }

    /** The mean of the nonzero slots, by one pass over the array. */
    method MeanVoltage() returns (mean: Option<int>)
      requires Consistent()
      ensures mean == Mean(history[..])
    {
      var sum, values := 0, 0;
      for i := 0 to RING_SIZE
        invariant 0 <= values
        invariant Sum(NonZero(history[..])) == sum + Sum(NonZero(history[i..]))
        invariant |NonZero(history[..])| == values + |NonZero(history[i..])|
      {
        assert history[i..][1..] == history[i + 1..] && history[i..][0] == history[i];
        if history[i] != 0 {
          assert NonZero(history[i..]) == [history[i]] + NonZero(history[i + 1..]);
          SumAppend([history[i]], NonZero(history[i + 1..]));
          assert Sum([history[i]]) == history[i];
          sum, values := sum + history[i], values + 1;
        } else {
          assert NonZero(history[i..]) == NonZero(history[i + 1..]);
        }
      }
      assert NonZero(history[RING_SIZE..]) == [];
      mean := if values == 0 then None else Some(CDiv(sum, values));
    }

    /** A validated frame: the branch behind the checksum comparison. */
    method Accept()
      requires Consistent()
      modifies this, history
      ensures Consistent() && history == old(history) && validated && State() == old(State())
      ensures History() == Handle(old(History()), Delivery(old(cmd), old(data))).0
      ensures published == old(published) + Handle(old(History()), Delivery(old(cmd), old(data))).1
    {
      validated := true;
      published := published + [Valid];
      if cmd == CMD_KEY {
        published := published + [Key];
      }
      if cmd == CMD_VOLTAGE {
        history[historyIndex] := ToInt32(data);
        historyIndex := if historyIndex == RING_SIZE - 1 then 0 else historyIndex + 1;
        assert History() == Store(old(History()), ToInt32(data));
        var mean := MeanVoltage();
        published := published + [Voltage(mean)];
      }
      if cmd == CMD_CHARGE {
        published := published + [Charge(data == 0x04)];
      }
    }

    /** One octet read from the line. */
    method Receive(b: Byte)
      requires Consistent()
      modifies this, history
      ensures Consistent() && history == old(history)
      ensures State() == Step(old(State()), b)
      ensures History() == HandleAll(old(History()), Emit(old(State()), b)).0
      ensures published == old(published) + HandleAll(old(History()), Emit(old(State()), b)).1
      ensures validated == (old(validated) || Emit(old(State()), b) != [])
    {
      if b == SYNC0 {
        charpos, checksum := 1, b;
      } else if b == SYNC1 && charpos == 1 {
        charpos, checksum := 2, checksum + b;
      } else if charpos == 2 {
        cmd, checksum, charpos := b, checksum + b, 3;
      } else if charpos == 3 {
        payloadLen, checksum, charpos := b, checksum + b, 4;
      } else if charpos == 4 {
        payloadLen := 256 * b as int + payloadLen;
        data, dataBytes, checksum, charpos := 0, 0, checksum + b, 5;
      } else if charpos == 5 {
        checksum, payloadLen := checksum + b, payloadLen - 1;
        if cmd != CMD_NO_DATA {
          data := data + Shifted(b, dataBytes);
        }
        dataBytes := dataBytes + 1;
        if payloadLen == 0 {
          charpos := 6;
        }
      } else if charpos == 6 {
        if b == checksum % 256 {
          OneDelivery(History(), Delivery(cmd, data));
          Accept();
        }
        charpos, checksum, payloadLen := 0, 0, 0;
      }
    }

    /** A batch of octets, as many as the line had available. */
    method ReceiveAll(s: seq<Byte>)
      requires Consistent()
      modifies this, history
      ensures Consistent() && history == old(history)
      ensures State() == Run(old(State()), s)
      ensures History() == HandleAll(old(History()), Deliveries(old(State()), s)).0
      ensures published == old(published) + HandleAll(old(History()), Deliveries(old(State()), s)).1
      ensures validated == (old(validated) || Deliveries(old(State()), s) != [])
    {
      hide HandleAll, Handle, Run, Deliveries, Step, Emit;
      ghost var r0, d0, p0, v0 := History(), State(), published, validated;
      NothingReceived(d0);
      HandleNothing(r0);
      for i := 0 to |s|
        invariant Consistent() && history == old(history)
        invariant Progress(r0, d0, p0, v0, s[..i])
      {
        Receive(s[i]);
        OneMore(r0, d0, s[..i], s[i]);
        assert s[..i + 1] == s[..i] + [s[i]];
      }
      assert s[..|s|] == s;
    }

    /** The state reached from r0, d0, p0, v0 by the octets s. */
    ghost predicate Progress(r0: Ring, d0: Decoder, p0: seq<Publication>, v0: bool, s: seq<Byte>)
      requires Consistent() && r0.WellFormed()
      reads this, history
    {
      var xs := Deliveries(d0, s);
      && State() == Run(d0, s)
      && History() == HandleAll(r0, xs).0
      && published == p0 + HandleAll(r0, xs).1
      && validated == (v0 || xs != [])
    }
  }

  lemma NothingReceived(d: Decoder)
    ensures Run(d, []) == d && Deliveries(d, []) == []
  {
  }

  lemma HandleNothing(r: Ring)
    requires r.WellFormed()
    ensures HandleAll(r, []) == (r, [])
  {
  }

  lemma OneMore(r: Ring, d: Decoder, s: seq<Byte>, b: Byte)
    requires r.WellFormed()
    ensures Run(d, s + [b]) == Step(Run(d, s), b)
    ensures Deliveries(d, s + [b]) == Deliveries(d, s) + Emit(Run(d, s), b)
    ensures HandleAll(r, Deliveries(d, s + [b]))
            == (HandleAll(HandleAll(r, Deliveries(d, s)).0, Emit(Run(d, s), b)).0,
                HandleAll(r, Deliveries(d, s)).1
                + HandleAll(HandleAll(r, Deliveries(d, s)).0, Emit(Run(d, s), b)).1)
  {
    RunAppend(d, s, [b]);
    assert [b][1..] == [];
    assert Deliveries(Run(d, s), [b]) == Emit(Run(d, s), b);
    HandleAllAppend(r, Deliveries(d, s), Emit(Run(d, s), b));
  }

  // ---------- The voltage ring over whole runs ----------

  function StoreAll(r: Ring, vs: seq<int>): (r': Ring)
    requires r.WellFormed()
    ensures r'.WellFormed()
    decreases vs
  {
    if vs == [] then r else StoreAll(Store(r, vs[0]), vs[1..])
  }

  /** The slots from the oldest reading to the newest. */
  function Chronological(r: Ring): seq<int>
    requires r.WellFormed()
  {
    r.slots[r.next..] + r.slots[..r.next]
  }

  /** The mean, rounded down. */
  function FloorMean(s: seq<int>): int
    requires s != []
  {
    Sum(s) / |s|
  }

  function Last(s: seq<int>, n: nat): (r: seq<int>)
    ensures |r| == Min(|s|, n)
  {
    if |s| <= n then s else s[|s| - n..]
  }

  /** After any readings the ring holds, in order, exactly the last ten of what it held plus them. */
  lemma {:induction false} RingHoldsLastTen(r: Ring, vs: seq<int>)
    requires r.WellFormed()
    ensures Chronological(StoreAll(r, vs)) == Last(Chronological(r) + vs, 10)
    decreases vs
  {
    if vs == [] {
      assert Chronological(r) + vs == Chronological(r);
    } else {
      var r1 := Store(r, vs[0]);
      assert Chronological(r1) == Chronological(r)[1..] + [vs[0]];
      RingHoldsLastTen(r1, vs[1..]);
      assert Chronological(r1) + vs[1..] == (Chronological(r) + vs)[1..];
    }
  }

  lemma {:induction false} NonZeroAppend(a: seq<int>, b: seq<int>)
    ensures NonZero(a + b) == NonZero(a) + NonZero(b)
  {
    if a == [] {
      assert a + b == b;
    } else {
      assert (a + b)[1..] == a[1..] + b;
      NonZeroAppend(a[1..], b);
    }
  }

  /** The published mean does not depend on where the ring wraps. */
  lemma MeanIsChronological(r: Ring)
    requires r.WellFormed()
    ensures Mean(r.slots) == Mean(Chronological(r))
  {
    var a, b := r.slots[..r.next], r.slots[r.next..];
    assert r.slots == a + b;
    NonZeroAppend(a, b);
    NonZeroAppend(b, a);
    SumAppend(NonZero(a), NonZero(b));
    SumAppend(NonZero(b), NonZero(a));
  }

  lemma {:induction false} NonZeroOfPositive(s: seq<int>)
    requires forall v :: v in s ==> v > 0
    ensures NonZero(s) == s
  {
    if s != [] {
      assert s[0] in s && forall v :: v in s[1..] ==> v in s;
      NonZeroOfPositive(s[1..]);
    }
  }

  /** NonZero keeps exactly the nonzero readings, and none is left exactly when all are zero. */
  lemma {:induction false} NonZeroMembers(s: seq<int>)
    ensures forall v :: v in NonZero(s) <==> v in s && v != 0
    ensures NonZero(s) == [] <==> forall v :: v in s ==> v == 0
  {
    if s != [] {
      NonZeroMembers(s[1..]);
      assert s == [s[0]] + s[1..];
      if NonZero(s) != [] {
        assert NonZero(s)[0] in NonZero(s);
      }
    }
  }

  lemma {:induction false} SumNonNegative(s: seq<int>)
    requires forall v :: v in s ==> v >= 0
    ensures Sum(s) >= 0
  {
    if s != [] {
      assert s[0] in s && forall v :: v in s[1..] ==> v in s;
      SumNonNegative(s[1..]);
    }
  }

  /** The floor of the mean of the nonzero ones among the last ten readings; None when there are none. */
  function MeanOfLast(vs: seq<int>): Option<int> {
    var s := NonZero(Last(vs, 10));
    if s == [] then None else Some(FloorMean(s))
  }

  /** After any readings, none of them negative, the published value is the floor of the mean of the
      nonzero ones among the last min(n, 10) of them. There is none exactly when all of those are zero,
      and when all are positive they all count. */
  lemma MeanOfLastReadings(vs: seq<int>)
    requires forall v :: v in vs ==> v >= 0
    ensures Mean(StoreAll(EMPTY_RING, vs).slots) == MeanOfLast(vs)
    ensures MeanOfLast(vs) == None <==> forall v :: v in Last(vs, 10) ==> v == 0
    ensures vs != [] && (forall v :: v in Last(vs, 10) ==> v > 0) ==>
              MeanOfLast(vs) == Some(FloorMean(Last(vs, 10)))
  {
    var last := Last(vs, 10);
    assert forall v :: v in last ==> v in vs;
    MeanIsChronological(StoreAll(EMPTY_RING, vs));
    FreshRingHolds(vs);
    NonZeroMembers(last);
    MeanOfPadded(RING_SIZE - |last|, last);
    if forall v :: v in last ==> v > 0 {
      NonZeroOfPositive(last);
    }
  }

  lemma MeanOfPadded(n: nat, last: seq<int>)
    requires forall v :: v in last ==> v >= 0
    ensures Mean(Zeros(n) + last) == if NonZero(last) == [] then None else Some(FloorMean(NonZero(last)))
  {
    NonZeroAppend(Zeros(n), last);
    NonZeroMembers(Zeros(n));
    NonZeroMembers(last);
    SumNonNegative(NonZero(last));
    assert [] + NonZero(last) == NonZero(last);
  }

  /** A ring that started empty holds zeros followed by the last ten readings. */
  lemma FreshRingHolds(vs: seq<int>)
    ensures Chronological(StoreAll(EMPTY_RING, vs))
            == Zeros(RING_SIZE - |Last(vs, 10)|) + Last(vs, 10)
  {
    RingHoldsLastTen(EMPTY_RING, vs);
    assert Chronological(EMPTY_RING) == Zeros(RING_SIZE);
  }

  function Zeros(n: nat): seq<int> {
    seq(n, _ => 0)
  }

  lemma {:induction false} SumBounds(s: seq<int>, lo: int, hi: int)
    requires forall v :: v in s ==> lo <= v <= hi
    ensures lo * |s| <= Sum(s) <= hi * |s|
  {
    if s != [] {
      assert s[0] in s && forall v :: v in s[1..] ==> v in s;
      SumBounds(s[1..], lo, hi);
      Spread(lo, |s|);
      Spread(hi, |s|);
    }
  }

  lemma Spread(x: int, n: int)
    ensures x * n == x + x * (n - 1)
  {
  }

  /** The order of two multiples of n is the order of their factors. */
  lemma Product(a: int, b: int, n: int)
    requires n > 0
    ensures a * n < b * n <==> a < b
  {
  }

  lemma QuotientBounds(sum: int, n: int, lo: int, hi: int)
    requires n > 0 && lo * n <= sum <= hi * n
    ensures lo <= sum / n <= hi
  {
    assert lo <= sum / n by {
      Product(lo, sum / n + 1, n);
    }
    assert sum / n <= hi by {
      Product(sum / n, hi + 1, n);
    }
  }

  /** The published value lies between any bounds on the nonzero ones among the last ten readings. */
  lemma PublishedBetweenExtremes(vs: seq<int>, lo: int, hi: int)
    requires forall v :: v in vs ==> v >= 0
    requires forall v :: v in Last(vs, 10) && v != 0 ==> lo <= v <= hi
    ensures match Mean(StoreAll(EMPTY_RING, vs).slots)
            case None => forall v :: v in Last(vs, 10) ==> v == 0
            case Some(m) => lo <= m <= hi
  {
    var s := NonZero(Last(vs, 10));
    MeanOfLastReadings(vs);
    NonZeroMembers(Last(vs, 10));
    if s != [] {
      SumBounds(s, lo, hi);
      QuotientBounds(Sum(s), |s|, lo, hi);
    }
  }

  // ---------- From line octets to what is published ----------

  /** The readings that the voltage frames of a line carry. */
  function Readings(items: seq<Item>): seq<int> {
    if items == [] then []
    else
      var it := items[|items| - 1];
      Readings(items[..|items| - 1]) + if it.cmd == 2 then [LittleEndian(it.payload)] else []
  }

  /** Voltage frames and charge frames have at most three octets. */
  ghost predicate Readable(items: seq<Item>) {
    && ValidItems(items)
    && forall i :: 0 <= i < |items| ==> ReadableItem(items[i])
  }

  predicate ReadableItem(it: Item) {
    it.cmd == 2 || it.cmd == 3 ==> |it.payload| <= 3
  }

  /** What a frame publishes when vs are the readings before it: a voltage, the floor of the mean of the
      nonzero ones among the last ten readings, itself included. */
  function Published(vs: seq<int>, it: Item): seq<Publication> {
    if it.cmd == 1 then [Valid, Key]
    else if it.cmd == 2 then [Valid, Voltage(MeanOfLast(vs + [LittleEndian(it.payload)]))]
    else if it.cmd == 3 then [Valid, Charge(LittleEndian(it.payload) == 4)]
    else [Valid]
  }

  function LineLog(items: seq<Item>): seq<Publication> {
    if items == [] then []
    else
      var init := items[..|items| - 1];
      LineLog(init) + Published(Readings(init), items[|items| - 1])
  }

  lemma {:induction false} StoreAllAppend(r: Ring, a: seq<int>, v: int)
    requires r.WellFormed()
    ensures StoreAll(r, a + [v]) == Store(StoreAll(r, a), v)
    decreases a
  {
    if a == [] {
      assert a + [v] == [v] && [v][1..] == [];
    } else {
      assert (a + [v])[1..] == a[1..] + [v];
      StoreAllAppend(Store(r, a[0]), a[1..], v);
    }
  }

  lemma {:induction false} ReadingsAreNatural(items: seq<Item>)
    ensures forall v :: v in Readings(items) ==> v >= 0
  {
    if items != [] {
      ReadingsAreNatural(items[..|items| - 1]);
    }
  }

  lemma {:induction false} HandleLine(items: seq<Item>)
    requires Readable(items)
    ensures HandleAll(EMPTY_RING, Meanings(items)) == (StoreAll(EMPTY_RING, Readings(items)), LineLog(items))
  {
    hide HandleAll, Handle, Meaning, StoreAll, Published;
    if items == [] {
      HandleNothing(EMPTY_RING);
      StoreNothing();
    } else {
      var init, it := items[..|items| - 1], items[|items| - 1];
      HandleLine(init);
      ReadingsAreNatural(init);
      assert Meanings(items) == Meanings(init) + [Meaning(it.cmd, it.payload)];
      HandleAppendOne(EMPTY_RING, Meanings(init), Meaning(it.cmd, it.payload));
      HandleItem(Readings(init), it);
    }
  }

  lemma StoreNothing()
    ensures StoreAll(EMPTY_RING, []) == EMPTY_RING
  {
  }

  /** One frame more, behind the readings vs. */
  lemma HandleItem(vs: seq<int>, it: Item)
    requires ReadableItem(it) && forall v :: v in vs ==> v >= 0
    ensures var more := if it.cmd == CMD_VOLTAGE then [LittleEndian(it.payload)] else [];
            Handle(StoreAll(EMPTY_RING, vs), Meaning(it.cmd, it.payload))
            == (StoreAll(EMPTY_RING, vs + more), Published(vs, it))
  {
    hide StoreAll, MeanOfLast, Mean;
    if it.cmd == CMD_VOLTAGE {
      var v := LittleEndian(it.payload);
      SmallPayload(it.cmd, it.payload);
      HandleVoltage(StoreAll(EMPTY_RING, vs), v);
      StoreAllAppend(EMPTY_RING, vs, v);
      MeanOfLastReadings(vs + [v]);
    } else {
      assert vs + [] == vs;
      if it.cmd == CMD_CHARGE {
        SmallPayload(it.cmd, it.payload);
      }
    }
  }

  lemma HandleVoltage(r: Ring, v: int)
    requires r.WellFormed() && 0 <= v < 0x100_0000
    ensures Handle(r, Delivery(CMD_VOLTAGE, v)) == (Store(r, v), [Valid, Voltage(Mean(Store(r, v).slots))])
  {
    assert ToInt32(v) == v;
  }

  lemma HandleAppendOne(r: Ring, xs: seq<Delivery>, x: Delivery)
    requires r.WellFormed()
    ensures var (r1, p1) := HandleAll(r, xs);
            HandleAll(r, xs + [x]) == (Handle(r1, x).0, p1 + Handle(r1, x).1)
  {
    HandleAllAppend(r, xs, [x]);
    OneDelivery(HandleAll(r, xs).0, x);
  }

  lemma OneDelivery(r: Ring, x: Delivery)
    requires r.WellFormed()
    ensures HandleAll(r, [x]) == Handle(r, x)
  {
    var (r1, p1) := Handle(r, x);
    assert [x][1..] == [];
    assert HandleAll(r1, [x][1..]) == (r1, []);
    assert p1 + [] == p1;
  }

  /** MAIN RESULT. Fed a line of any frames, a service that has just started publishes after each frame
      that the link is valid, keys and the charging state as they come, and after each voltage frame the
      floor of the mean of the nonzero ones among the last min(n, 10) readings. */
  lemma VoltageLine(d: Decoder, items: seq<Item>)
    requires Readable(items) && (Outside(d) || (items != [] && items[0].gap == []))
    ensures HandleAll(EMPTY_RING, Deliveries(d, Line(items))).1 == LineLog(items)
  {
    StreamRoundTrip(d, items);
    HandleLine(items);
  }

  /** From every decoder state, a charge frame publishes that the battery is charging if and only if
      its payload spells 4. */
  lemma ChargeFrame(d: Decoder, r: Ring, payload: seq<Byte>)
    requires r.WellFormed() && Sendable(0x03, payload) && |payload| <= 3
    ensures HandleAll(r, Deliveries(d, Encode(0x03, payload))) == (r, [Valid, Charge(LittleEndian(payload) == 4)])
  {
    FrameAccepted(d, 0x03, payload);
    SmallPayload(0x03, payload);
    OneDelivery(r, Delivery(0x03, LittleEndian(payload)));
  }
}
