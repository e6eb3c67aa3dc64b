/** Snowflake ids: 42 bits of time, 5 of data centre, 5 of machine and 12 of sequence. Words of 64 bits are numbers
    below WORD, with shifts and the bitwise operators defined on them. */
module Snowflakes {
  const WORD := 0x1_0000_0000_0000_0000

  // ---------------------------------------------------------------- bits

  function Pow2(k: nat): (p: int)
    ensures p >= 1
  {
    if k == 0 then 1 else 2 * Pow2(k - 1)
  }

  function Or(x: nat, y: nat): nat
    decreases x + y
  {
    if x == 0 && y == 0 then 0 else (if x % 2 == 1 || y % 2 == 1 then 1 else 0) + 2 * Or(x / 2, y / 2)
  }

  function And(x: nat, y: nat): nat
    decreases x + y
  {
    if x == 0 && y == 0 then 0 else (if x % 2 == 1 && y % 2 == 1 then 1 else 0) + 2 * And(x / 2, y / 2)
  }

  function ShiftLeft(x: nat, k: nat): nat { (x * Pow2(k)) % WORD }

  function ShiftRight(x: nat, k: nat): nat
    decreases k
  {
    if k == 0 then x else ShiftRight(x / 2, k - 1)
  }

  /** Unsigned subtraction. */
  function Minus(x: nat, y: nat): nat { (x - y) % WORD }

  /** The difference in 64 bits: exact from `y` on, and wrapped around below it. */
  lemma MinusIs(x: nat, y: nat)
    requires x < WORD && y < WORD
    ensures Minus(x, y) < WORD && x == if x >= y then y + Minus(x, y) else y + Minus(x, y) - 0x1_0000_0000_0000_0000
  {
    var d := x - y;
    assert d == WORD * (d / WORD) + d % WORD;
  }

  lemma {:induction false} OrNothing(x: nat)
    ensures Or(x, 0) == x
  {
    if x > 0 {
      OrNothing(x / 2);
    }
  }

  /** Fields that do not overlap are added. */
  lemma {:induction false} OrDisjoint(a: nat, b: nat, k: nat)
    requires b < Pow2(k)
    ensures 0 <= a * Pow2(k) && Or(a * Pow2(k), b) == a * Pow2(k) + b
    decreases k
  {
    if k == 0 {
      OrNothing(a);
    } else {
      var p := Pow2(k - 1);
      assert Pow2(k) == 2 * p;
      OrDisjoint(a, b / 2, k - 1);
      hide Pow2;
      hide Or;
      assert a * (2 * p) == 2 * (a * p);
      OrEven(a * p, b);
    }
  }

  lemma OrEven(x: nat, b: nat)
    ensures Or(2 * x, b) == b % 2 + 2 * Or(x, b / 2)
  {
    assert 2 * x % 2 == 0 && 2 * x / 2 == x;
  }

  /** The low `k` bits. */
  lemma {:induction false} AndMask(x: nat, k: nat)
    ensures And(x, Pow2(k) - 1) == x % Pow2(k)
    decreases x + k
  {
    if k == 0 {
      AndNothing(x);
    } else {
      var p := Pow2(k - 1);
      AndMask(x / 2, k - 1);
      assert (2 * p - 1) % 2 == 1 && (2 * p - 1) / 2 == p - 1;
      LowBit(x, p);
    }
  }

  lemma {:induction false} AndNothing(x: nat)
    ensures And(x, 0) == 0
  {
    if x > 0 {
      AndNothing(x / 2);
    }
  }

  lemma LowBit(x: nat, p: int)
    requires p >= 1
    ensures x % (2 * p) == x % 2 + 2 * (x / 2 % p)
  {
    var q, r := x / 2 / p, x / 2 % p;
    assert x == 2 * (p * q + r) + x % 2;
    assert x == (2 * p) * q + (2 * r + x % 2);
    Remainder(x, 2 * p, q, 2 * r + x % 2);
  }

  lemma Remainder(x: int, m: int, q: int, r: int)
    requires m >= 1 && x == m * q + r && 0 <= r < m
    ensures x % m == r && x / m == q
  {
    var q', r' := x / m, x % m;
    var d := q - q';
    assert m * d == r' - r;
    if d >= 1 {
      Grows(m, d);
    } else if d <= -1 {
      Grows(m, -d);
    }
  }

  lemma {:induction false} ShiftRightIs(x: nat, k: nat)
    ensures ShiftRight(x, k) == x / Pow2(k)
    decreases k
  {
    if k > 0 {
      ShiftRightIs(x / 2, k - 1);
      HalfDivided(x, Pow2(k - 1));
    }
  }

  lemma HalfDivided(x: nat, p: int)
    requires p >= 1
    ensures x / 2 / p == x / (2 * p)
  {
    var q, r := x / 2 / p, x / 2 % p;
    Halved(x / 2, p);
    assert (2 * p) * q == 2 * (p * q);
    Remainder(x, 2 * p, q, 2 * r + x % 2);
  }

  lemma Halved(x: int, p: int)
    requires p >= 1
    ensures x == p * (x / p) + x % p && 0 <= x % p < p
  {}

  lemma Grows(m: int, d: int)
    requires m >= 1 && d >= 1
    ensures m * d >= m && m * -d <= -m
  {
    assert m * (d - 1) >= 0;
  }

  lemma Powers()
    ensures Pow2(5) == 32 && Pow2(10) == 1024 && Pow2(12) == 0x1000 && Pow2(17) == 0x2_0000 && Pow2(22) == 0x40_0000
  {
    assert Pow2(3) == 8;
    assert Pow2(5) == 32;
    assert Pow2(7) == 128;
    assert Pow2(10) == 1024;
    assert Pow2(12) == 0x1000;
    assert Pow2(14) == 0x4000;
    assert Pow2(17) == 0x2_0000;
    assert Pow2(19) == 0x8_0000;
    assert Pow2(22) == 0x40_0000;
  }

  // ---------------------------------------------------------------- one id

  const MAX_SEQUENCE_MASK := 0xFFF
  const MAX_MACHINE_ID := 31
  const MAX_DATACENTER_ID := 31
  const TIME_LIMIT := 0x400_0000_0000

  /** The id of sequence number `s` at `time`, which counts from the epoch. */
  function Compose(time: nat, dc: nat, m: nat, s: nat): nat {
    Or(Or(Or(ShiftLeft(time, 12 + 5 + 5), ShiftLeft(dc, 12 + 5)), ShiftLeft(m, 12)), s)
  }

  predicate InFields(dc: nat, m: nat, s: nat) {
    dc <= MAX_DATACENTER_ID && m <= MAX_MACHINE_ID && s <= MAX_SEQUENCE_MASK
  }

  /** The fields side by side, as a number. */
  function Packed(t: nat, dc: nat, m: nat, s: nat): nat { t * 0x40_0000 + dc * 0x2_0000 + m * 0x1000 + s }

  lemma ShiftTime(time: nat)
    ensures 0 <= time % TIME_LIMIT < TIME_LIMIT && ShiftLeft(time, 22) == time % TIME_LIMIT * 0x40_0000
  {
    Powers();
    hide Pow2;
    var q, t := time / TIME_LIMIT, time % TIME_LIMIT;
    assert time == TIME_LIMIT * q + t;
    assert time * 0x40_0000 == WORD * q + t * 0x40_0000;
    Remainder(time * 0x40_0000, WORD, q, t * 0x40_0000);
  }

  lemma ShiftSmall(x: nat, k: nat)
    requires x < 32 && (k == 12 || k == 17)
    ensures ShiftLeft(x, k) == x * (if k == 12 then 0x1000 else 0x2_0000)
  {
    Powers();
    hide Pow2;
    Remainder(x * Pow2(k), WORD, 0, x * Pow2(k));
  }

  lemma ComposeIs(time: nat, dc: nat, m: nat, s: nat)
    requires InFields(dc, m, s)
    ensures 0 <= time % TIME_LIMIT < TIME_LIMIT && Compose(time, dc, m, s) == Packed(time % TIME_LIMIT, dc, m, s)
  {
    Powers();
    hide Or;
    hide Pow2;
    ShiftTime(time);
    var t := time % TIME_LIMIT;
    ShiftSmall(dc, 17);
    ShiftSmall(m, 12);
    hide ShiftLeft;
    OrDisjoint(t, dc * 0x2_0000, 22);
    OrDisjoint(t * 32 + dc, m * 0x1000, 17);
    OrDisjoint(t * 1024 + dc * 32 + m, s, 12);
  }

  /** Cutting a packed number at the borders of the fields. */
  lemma Fields(t: nat, dc: nat, m: nat, s: nat)
    requires InFields(dc, m, s)
    ensures var id := Packed(t, dc, m, s);
            && id / 0x40_0000 == t && id / 0x2_0000 == t * 32 + dc && id / 0x1000 == t * 1024 + dc * 32 + m
            && id % 0x1000 == s
            && (t * 32 + dc) % 32 == dc && (t * 1024 + dc * 32 + m) % 32 == m
  {
    var id := Packed(t, dc, m, s);
    Remainder(id, 0x40_0000, t, dc * 0x2_0000 + m * 0x1000 + s);
    Remainder(id, 0x2_0000, t * 32 + dc, m * 0x1000 + s);
    Remainder(id, 0x1000, t * 1024 + dc * 32 + m, s);
    Remainder(t * 32 + dc, 32, t, dc);
    Remainder(t * 1024 + dc * 32 + m, 32, t * 32 + dc, m);
    hide Packed;
  }

  lemma TimeFits(time: nat)
    ensures time % TIME_LIMIT == time <==> time < TIME_LIMIT
  {
    if time < TIME_LIMIT {
      Remainder(time, TIME_LIMIT, 0, time);
    }
  }

  /** Every field can be read back, the time as far as 42 bits go. */
  lemma FieldsReadBack(time: nat, dc: nat, m: nat, s: nat)
    requires InFields(dc, m, s)
    ensures var id := Compose(time, dc, m, s);
            && And(id, MAX_SEQUENCE_MASK) == s && And(ShiftRight(id, 12), MAX_MACHINE_ID) == m
            && And(ShiftRight(id, 17), MAX_DATACENTER_ID) == dc
            && (ShiftRight(id, 22) == time <==> time < TIME_LIMIT) && ShiftRight(id, 22) == time % TIME_LIMIT
  {
    hide And;
    hide Or;
    hide Pow2;
    hide ShiftRight;
    hide Compose;
    hide Packed;
    hide InFields;
    var id := Compose(time, dc, m, s);
    ComposeIs(time, dc, m, s);
    Fields(time % TIME_LIMIT, dc, m, s);
    TimeFits(time);
    Powers();
    ShiftRightIs(id, 12);
    ShiftRightIs(id, 17);
    ShiftRightIs(id, 22);
    AndMask(id, 12);
    AndMask(ShiftRight(id, 12), 5);
    AndMask(ShiftRight(id, 17), 5);
  }

  /** Two ids are equal exactly when all fields are, and the times as far as 42 bits go. */
  lemma SameId(time: nat, dc: nat, m: nat, s: nat, time': nat, dc': nat, m': nat, s': nat)
    requires InFields(dc, m, s) && InFields(dc', m', s')
    ensures Compose(time, dc, m, s) == Compose(time', dc', m', s')
            <==> dc == dc' && m == m' && s == s' && time % TIME_LIMIT == time' % TIME_LIMIT
  {
    hide *;
    ComposeIs(time, dc, m, s);
    ComposeIs(time', dc', m', s');
    Fields(time % TIME_LIMIT, dc, m, s);
    Fields(time' % TIME_LIMIT, dc', m', s');
  }

  lemma PackedOrder(t: nat, dc: nat, m: nat, s: nat, t': nat, s': nat)
    requires InFields(dc, m, s) && InFields(dc, m, s')
    ensures Packed(t, dc, m, s) < Packed(t', dc, m, s') <==> t < t' || (t == t' && s < s')
  {}

  /** An earlier time, or an earlier number at the same time. */
  predicate Precedes(t: nat, s: nat, t': nat, s': nat) {
    t < t' || (t == t' && s < s')
  }

  /** Ids are ordered exactly like their times as far as 42 bits go, and then their numbers. */
  lemma LaterIsLarger(time: nat, dc: nat, m: nat, s: nat, time': nat, s': nat)
    requires InFields(dc, m, s) && InFields(dc, m, s')
    ensures 0 <= time % TIME_LIMIT && 0 <= time' % TIME_LIMIT
    ensures Compose(time, dc, m, s) < Compose(time', dc, m, s') <==>
            Precedes(time % TIME_LIMIT, s, time' % TIME_LIMIT, s')
  {
    hide And;
    hide Or;
    hide ShiftLeft;
    hide Compose;
    hide Packed;
    hide InFields;
    ComposeIs(time, dc, m, s);
    ComposeIs(time', dc, m, s');
    PackedOrder(time % TIME_LIMIT, dc, m, s, time' % TIME_LIMIT, s');
  }

  /** Of two moments in order, the later has the larger id if no multiple of the limit lies between them, and the
      smaller one if a multiple does and they are less than the limit apart. */
  lemma LimitPassed(time: nat, dc: nat, m: nat, s: nat, time': nat, s': nat)
    requires InFields(dc, m, s) && InFields(dc, m, s') && Precedes(time, s, time', s')
    ensures 0 <= time % TIME_LIMIT && 0 <= time' % TIME_LIMIT
    ensures time / TIME_LIMIT == time' / TIME_LIMIT ==> Compose(time, dc, m, s) < Compose(time', dc, m, s')
    ensures time' < time + TIME_LIMIT && time / TIME_LIMIT != time' / TIME_LIMIT ==>
              Compose(time', dc, m, s') < Compose(time, dc, m, s)
  {
    LaterIsLarger(time, dc, m, s, time', s');
    LaterIsLarger(time', dc, m, s', time, s);
    hide Compose;
    hide InFields;
    Quotients(time, time');
  }

  /** The first id at the limit is smaller than the last one before it. */
  lemma LimitReached(dc: nat, m: nat)
    requires InFields(dc, m, 0)
    ensures Compose(TIME_LIMIT, dc, m, 0) < Compose(TIME_LIMIT - 1, dc, m, 0)
  {
    hide Compose;
    LimitPassed(TIME_LIMIT - 1, dc, m, 0, TIME_LIMIT, 0);
    Remainder(TIME_LIMIT, TIME_LIMIT, 1, 0);
    Remainder(TIME_LIMIT - 1, TIME_LIMIT, 0, TIME_LIMIT - 1);
  }

  lemma Quotients(x: nat, y: nat)
    ensures x == TIME_LIMIT * (x / TIME_LIMIT) + x % TIME_LIMIT && 0 <= x % TIME_LIMIT < TIME_LIMIT
    ensures y == TIME_LIMIT * (y / TIME_LIMIT) + y % TIME_LIMIT && 0 <= y % TIME_LIMIT < TIME_LIMIT
  {}

  // ---------------------------------------------------------------- generators

  /** The machine and data centre that the constructor taking one id makes of it. */
  function Parts(uniqueID: nat): (nat, nat) { (And(uniqueID, 31), And(ShiftRight(uniqueID, 5), 31)) }

  lemma PartsAre(id: nat)
    ensures Parts(id) == (id % 32, id / 32 % 32) && id % 1024 == id / 32 % 32 * 32 + id % 32
  {
    Powers();
    ShiftRightIs(id, 5);
    AndMask(id, 5);
    AndMask(ShiftRight(id, 5), 5);
    hide And;
    hide ShiftRight;
    hide Pow2;
    var q, r := id / 32 / 32, id / 32 % 32;
    assert id == 32 * (32 * q + r) + id % 32;
    Remainder(id, 1024, q, r * 32 + id % 32);
  }

  /** Two such generators share their fields exactly when their ids agree modulo 1024. */
  lemma SameParts(a: nat, b: nat)
    ensures Parts(a) == Parts(b) <==> a % 1024 == b % 1024
  {
    hide Parts;
    PartsAre(a);
    PartsAre(b);
    Remainder(a % 1024, 32, a / 32 % 32, a % 32);
    Remainder(b % 1024, 32, b / 32 % 32, b % 32);
  }

  /** The readings of the clock, call after call: never decreasing. */
  ghost predicate IsClock(clock: nat -> nat) {
    forall i: nat, j: nat :: i <= j ==> clock(i) <= clock(j)
  }

  /** The moment an id was made at, by the clock, and its number. */
  datatype Stamp = Stamp(time: nat, number: nat)

  /** The ids are those of one generator, made at these moments, one after the other. */
  ghost predicate Stamped(ids: seq<nat>, stamps: seq<Stamp>, epoch: nat, dc: nat, m: nat) {
    && |ids| == |stamps|
    && (forall i :: 0 <= i < |ids| ==> InFields(dc, m, stamps[i].number) && ids[i] == IdOf(stamps[i], epoch, dc, m))
    && (forall i, j :: 0 <= i < j < |stamps| ==> Earlier(stamps[i], stamps[j]))
  }

  function IdOf(st: Stamp, epoch: nat, dc: nat, m: nat): nat { Compose(Minus(st.time, epoch), dc, m, st.number) }

  predicate Earlier(a: Stamp, b: Stamp) { Precedes(a.time, a.number, b.time, b.number) }

  /** The order that 42 bits of the time since the epoch leave of it; before the epoch that time wraps around. */
  predicate EarlierInFields(a: Stamp, b: Stamp, epoch: nat) {
    Precedes(Minus(a.time, epoch) % TIME_LIMIT, a.number, Minus(b.time, epoch) % TIME_LIMIT, b.number)
  }

  lemma StampedNext(ids: seq<nat>, stamps: seq<Stamp>, st: Stamp, epoch: nat, dc: nat, m: nat)
    requires Stamped(ids, stamps, epoch, dc, m) && InFields(dc, m, st.number)
    requires stamps != [] ==> Earlier(stamps[|stamps| - 1], st)
    ensures Stamped(ids + [IdOf(st, epoch, dc, m)], stamps + [st], epoch, dc, m)
  {
    hide IdOf;
    hide InFields;
  }

  /** Any two ids of a run grow exactly when their moments are in order as far as 42 bits go. */
  lemma RunGrows(ids: seq<nat>, stamps: seq<Stamp>, epoch: nat, dc: nat, m: nat, i: int, j: int)
    requires Stamped(ids, stamps, epoch, dc, m) && 0 <= i < |ids| && 0 <= j < |ids|
    ensures ids[i] < ids[j] <==> EarlierInFields(stamps[i], stamps[j], epoch)
  {
    var a, b := stamps[i], stamps[j];
    LaterIsLarger(Minus(a.time, epoch), dc, m, a.number, Minus(b.time, epoch), b.number);
    hide Compose;
    hide Minus;
    hide InFields;
  }

  /** From the epoch to the limit, a run grows strictly. */
  lemma RunWithinLimit(ids: seq<nat>, stamps: seq<Stamp>, epoch: nat, dc: nat, m: nat, i: int, j: int)
    requires Stamped(ids, stamps, epoch, dc, m) && 0 <= i < j < |ids|
    requires epoch <= stamps[i].time && stamps[j].time < epoch + TIME_LIMIT
    ensures ids[i] < ids[j]
  {
    RunGrows(ids, stamps, epoch, dc, m, i, j);
    var a, b := stamps[i], stamps[j];
    assert Earlier(a, b);
    SinceEpoch(a.time, epoch);
    SinceEpoch(b.time, epoch);
    TimeFits(a.time - epoch);
    TimeFits(b.time - epoch);
    hide Minus;
    hide Stamped;
  }

  /** Runs of generators for different machines or data centres share no id, whatever their clocks and epochs. */
  lemma RunsDisjoint(ids: seq<nat>, stamps: seq<Stamp>, epoch: nat, dc: nat, m: nat,
                     ids': seq<nat>, stamps': seq<Stamp>, epoch': nat, dc': nat, m': nat)
    requires Stamped(ids, stamps, epoch, dc, m) && Stamped(ids', stamps', epoch', dc', m') && (dc != dc' || m != m')
    ensures forall id :: id in ids ==> id !in ids'
  {
    forall i, j | 0 <= i < |ids| && 0 <= j < |ids'|
      ensures ids[i] != ids'[j]
    {
      var a, b := stamps[i], stamps'[j];
      SameId(Minus(a.time, epoch), dc, m, a.number, Minus(b.time, epoch'), dc', m', b.number);
      hide Compose;
      hide Minus;
    }
  }

  class Snowflake {
    const machineId: nat
    const dataCenterId: nat
    const epoch: nat
    var sequence: nat
    var lastTimePoint: nat

    constructor (machine: nat, dataCenter: nat, e: nat)
      requires machine <= MAX_MACHINE_ID && dataCenter <= MAX_DATACENTER_ID
      ensures Valid() && machineId == machine && dataCenterId == dataCenter && epoch == e && sequence == 0
              && lastTimePoint == 0
    {
      machineId, dataCenterId, epoch, sequence, lastTimePoint := machine, dataCenter, e, 0, 0;
    }

    constructor FromUniqueID(uniqueID: nat, e: nat)
      ensures Valid() && (machineId, dataCenterId) == Parts(uniqueID) && epoch == e && sequence == 0
              && lastTimePoint == 0
    {
      PartsAre(uniqueID);
      machineId, dataCenterId := And(uniqueID, 31), And(ShiftRight(uniqueID, 5), 31);
      epoch, sequence, lastTimePoint := e, 0, 0;
    }

    predicate Valid()
      reads this
    {
      InFields(dataCenterId, machineId, sequence)
    }

    /** `now` is the number of clock calls so far. With all 4096 numbers of a millisecond used, the clock is read until
        it moves on, as it does by its call `later`. */
    method Generate(clock: nat -> nat, now: nat, ghost later: nat) returns (id: nat, next: nat)
      requires Valid() && IsClock(clock) && clock(now) >= lastTimePoint && clock(later) > lastTimePoint
      modifies this
      ensures Valid() && now < next && clock(next) >= lastTimePoint
      ensures Precedes(old(lastTimePoint), old(sequence), lastTimePoint, sequence)
      ensures exists i :: now <= i < next && lastTimePoint == clock(i)
      // the first of a millisecond, the next of it, or, when all 4096 are used, the first of the next that comes
      ensures clock(now) > old(lastTimePoint) ==> sequence == 0 && next == now + 1
      ensures clock(now) == old(lastTimePoint) && old(sequence) < 4095 ==>
                sequence == old(sequence) + 1 && lastTimePoint == old(lastTimePoint) && next == now + 1
      ensures clock(now) == old(lastTimePoint) && old(sequence) == 4095 ==>
                && sequence == 0 && lastTimePoint == clock(next - 1) > old(lastTimePoint)
                && forall j: nat :: j < next - 1 ==> clock(j) <= old(lastTimePoint)
      ensures id == Compose(Minus(lastTimePoint, epoch), dataCenterId, machineId, sequence)
    {
      hide And;
      hide Or;
      hide ShiftLeft;
      hide Minus;
      next := now;
      var timePoint := clock(next);
      next := next + 1;
      if timePoint == lastTimePoint {
        NextNumber(sequence);
        sequence := And(sequence + 1, MAX_SEQUENCE_MASK);
        if sequence == 0 {
          timePoint := clock(next);
          next := next + 1;
          while timePoint <= lastTimePoint
            invariant now < next && timePoint == clock(next - 1)
            invariant forall j: nat :: j < next - 1 ==> clock(j) <= lastTimePoint
            decreases if later < next then 0 else later - next + 1
          {
            timePoint := clock(next);
            next := next + 1;
          }
        }
      } else {
        sequence := 0;
      }
      lastTimePoint := timePoint;
      id := Or(Or(Or(ShiftLeft(Minus(timePoint, epoch), 12 + 5 + 5), ShiftLeft(dataCenterId, 12 + 5)),
        ShiftLeft(machineId, 12)), sequence);
    }

    /** Any number of ids in a row, and the moments they were made at: they are this generator's own, and any two of
        them grow exactly when their moments are in order as far as 42 bits go. */
    method GenerateMany(clock: nat -> nat, now: nat, ghost later: nat -> nat, count: nat)
      returns (ids: seq<nat>, next: nat, ghost stamps: seq<Stamp>)
      requires Valid() && IsClock(clock) && clock(now) >= lastTimePoint
      requires forall i: nat :: clock(later(i)) > clock(i)
      modifies this
      ensures |ids| == count && Stamped(ids, stamps, epoch, dataCenterId, machineId)
      ensures forall i :: 0 <= i < |stamps| ==> Earlier(Stamp(old(lastTimePoint), old(sequence)), stamps[i])
      ensures forall i, j :: 0 <= i < |ids| && 0 <= j < |ids| ==>
                (ids[i] < ids[j] <==> EarlierInFields(stamps[i], stamps[j], epoch))
      ensures epoch <= clock(now) && lastTimePoint < epoch + TIME_LIMIT ==>
              forall i, j :: 0 <= i < j < |ids| ==> ids[i] < ids[j]
    {
      hide Compose;
      hide Minus;
      hide Stamped;
      ids, next, stamps := [], now, [];
      StampedNone(epoch, dataCenterId, machineId);
      ghost var wait := later(now);
      for n := 0 to count
        invariant Valid() && |ids| == |stamps| == n && clock(next) >= lastTimePoint && clock(wait) > lastTimePoint
                  && now <= next
        invariant Stamped(ids, stamps, epoch, dataCenterId, machineId)
        invariant forall i :: 0 <= i < n ==> Earlier(Stamp(old(lastTimePoint), old(sequence)), stamps[i])
        invariant forall i :: 0 <= i < n ==> clock(now) <= stamps[i].time <= lastTimePoint
        invariant if n > 0 then stamps[n - 1] == Stamp(lastTimePoint, sequence)
                  else lastTimePoint == old(lastTimePoint) && sequence == old(sequence)
      {
        ghost var from := next;
        var id;
        id, next := Generate(clock, next, wait);
        ghost var i :| from <= i < next && lastTimePoint == clock(i);
        wait := later(i);
        ghost var st := Stamp(lastTimePoint, sequence);
        StampedNext(ids, stamps, st, epoch, dataCenterId, machineId);
        ids, stamps := ids + [id], stamps + [st];
      }
      Ordered(ids, stamps, epoch, dataCenterId, machineId, clock(now), lastTimePoint);
    }
  }

  lemma StampedNone(epoch: nat, dc: nat, m: nat)
    ensures Stamped([], [], epoch, dc, m)
  {}

  lemma Ordered(ids: seq<nat>, stamps: seq<Stamp>, epoch: nat, dc: nat, m: nat, first: nat, last: nat)
    requires Stamped(ids, stamps, epoch, dc, m) && |ids| == |stamps|
    requires forall i :: 0 <= i < |stamps| ==> first <= stamps[i].time <= last
    ensures forall i, j :: 0 <= i < |ids| && 0 <= j < |ids| ==>
              (ids[i] < ids[j] <==> EarlierInFields(stamps[i], stamps[j], epoch))
    ensures epoch <= first && last < epoch + TIME_LIMIT ==> forall i, j :: 0 <= i < j < |ids| ==> ids[i] < ids[j]
  {
    hide Stamped;
    hide EarlierInFields;
    forall i, j | 0 <= i < |ids| && 0 <= j < |ids|
      ensures ids[i] < ids[j] <==> EarlierInFields(stamps[i], stamps[j], epoch)
      ensures i < j && epoch <= first && last < epoch + TIME_LIMIT ==> ids[i] < ids[j]
    {
      RunGrows(ids, stamps, epoch, dc, m, i, j);
      if i < j && epoch <= first && last < epoch + TIME_LIMIT {
        RunWithinLimit(ids, stamps, epoch, dc, m, i, j);
      }
    }
  }

  lemma SinceEpoch(t: nat, epoch: nat)
    requires epoch <= t < epoch + TIME_LIMIT
    ensures Minus(t, epoch) == t - epoch
  {
    Remainder(t - epoch, WORD, 0, t - epoch);
  }

  lemma NextNumber(s: nat)
    requires s <= MAX_SEQUENCE_MASK
    ensures And(s + 1, MAX_SEQUENCE_MASK) == if s == MAX_SEQUENCE_MASK then 0 else s + 1
  {
    hide And;
    hide Or;
    hide Pow2;
    hide ShiftRight;
    hide Compose;
    hide Packed;
    hide InFields;
    Powers();
    AndMask(s + 1, 12);
    if s == MAX_SEQUENCE_MASK {
      Remainder(s + 1, 0x1000, 1, 0);
    } else {
      Remainder(s + 1, 0x1000, 0, s + 1);
    }
  }

  /** Generators for different machines or data centres never make the same id, whatever their clocks and numbers. */
  lemma NeverCollide(a: Snowflake, b: Snowflake, time: nat, s: nat, time': nat, s': nat)
    requires a.Valid() && b.Valid() && s <= MAX_SEQUENCE_MASK && s' <= MAX_SEQUENCE_MASK
    requires a.machineId != b.machineId || a.dataCenterId != b.dataCenterId
    ensures Compose(time, a.dataCenterId, a.machineId, s) != Compose(time', b.dataCenterId, b.machineId, s')
  {
    SameId(time, a.dataCenterId, a.machineId, s, time', b.dataCenterId, b.machineId, s');
  }
}
