/** The id generator of src/main/java/SnowflakeIdGenerator.java, alone and as a fleet whose
    members never communicate.  Clock readings are inputs. */
module Snowflake {
  import opened Arithmetic

  const START_TIME: int := 1498608000000
  const MAX_WORKER_ID: int := 31
  const MAX_DATA_CENTER_ID: int := 31

  // ------------------------------------------------------ 64-bit word operations

  /** Bitwise or of natural numbers. */
  function OrNat(a: nat, b: nat): nat {
    if a == 0 then b else 2 * OrNat(a / 2, b / 2) + if a % 2 == 1 || b % 2 == 1 then 1 else 0
  }

  /** `a | b` on longs, through their two's complement words. */
  function Or(a: int, b: int): int {
    Wrap64(OrNat(a % TWO_64, b % TWO_64))
  }

  /** `a << k` on longs. */
  function ShiftLeft(a: int, k: nat): int {
    Wrap64(a * Pow(2, k))
  }

  /** Or of numbers without a common bit is their sum. */
  lemma {:induction false} OrDisjoint(a: nat, b: nat, k: nat)
    requires 0 < Pow(2, k) && b < Pow(2, k) && a % Pow(2, k) == 0
    ensures OrNat(a, b) == a + b
    decreases k
  {
    if a == 0 {
    } else if k == 0 {
      OrZero(a);
    } else {
      PowPositive(2, k - 1);
      var w := Pow(2, k - 1);
      var c := DivisibleWitness(a, 2 * w);
      assert a == 2 * (c * w);
      ModOfMultiple(c, w);
      OrDisjoint(a / 2, b / 2, k - 1);
    }
  }

  lemma {:induction false} OrZero(a: nat)
    ensures OrNat(a, 0) == a
    decreases a
  {
    if a != 0 {
      OrZero(a / 2);
    }
  }

  lemma OrIsSum(a: nat, b: nat, k: nat)
    requires 0 < Pow(2, k) && b < Pow(2, k) && a % Pow(2, k) == 0 && a + b < 0x8000_0000_0000_0000
    ensures Or(a, b) == a + b
  {
    OrDisjoint(a, b, k);
    DivModUnique(a, TWO_64, 0, a);
    DivModUnique(b, TWO_64, 0, b);
    NoWrap64(a + b);
  }

  // ------------------------------------------------------------- one generator

  datatype State = State(workerId: int, dataCenterId: int, sequence: int, lastTimestamp: int) {
    predicate Valid() {
      && 0 <= workerId <= MAX_WORKER_ID && 0 <= dataCenterId <= MAX_DATA_CENTER_ID
      && 0 <= sequence < 4096
      && (lastTimestamp == -1 || InRange(lastTimestamp))
    }
  }

  datatype Outcome = Id(id: int) | ClockMovedBackwards(millis: int)

  /** Clock readings whose offset from the start time fits 41 bits. */
  predicate InRange(timestamp: int) {
    START_TIME <= timestamp < START_TIME + 0x200_0000_0000
  }

  /** The id expression at lines 83-86. */
  function Compose(s: State): int {
    Or(Or(Or(ShiftLeft(s.lastTimestamp - START_TIME, 22), ShiftLeft(s.dataCenterId, 17)),
          ShiftLeft(s.workerId, 12)),
       s.sequence)
  }

  /** The same id as a number in mixed radix. */
  function Number(s: State): int {
    (s.lastTimestamp - START_TIME) * 0x40_0000 + s.dataCenterId * 0x2_0000 + s.workerId * 0x1000 + s.sequence
  }

  lemma PowersOfTwo()
    ensures Pow(2, 12) == 0x1000 && Pow(2, 17) == 0x2_0000 && Pow(2, 22) == 0x40_0000
  {
    assert Pow(2, 5) == 32;
    assert Pow(2, 6) == 64;
    PowAdd(2, 6, 6);
    PowAdd(2, 12, 5);
    PowAdd(2, 17, 5);
  }

  lemma ComposeIsNumber(s: State)
    requires s.Valid() && InRange(s.lastTimestamp)
    ensures Compose(s) == Number(s)
  {
    PowersOfTwo();
    var t, d, w := s.lastTimestamp - START_TIME, s.dataCenterId, s.workerId;
    NoWrap64(t * 0x40_0000);
    NoWrap64(d * 0x2_0000);
    NoWrap64(w * 0x1000);
    OrShifted(t, d * 0x2_0000, 22, 0x40_0000);
    assert t * 0x40_0000 + d * 0x2_0000 == (t * 32 + d) * 0x2_0000;
    OrShifted(t * 32 + d, w * 0x1000, 17, 0x2_0000);
    assert (t * 32 + d) * 0x2_0000 + w * 0x1000 == ((t * 32 + d) * 32 + w) * 0x1000;
    OrShifted((t * 32 + d) * 32 + w, s.sequence, 12, 0x1000);
  }

  /** A shifted number has room for a small one. */
  lemma OrShifted(h: nat, b: nat, k: nat, w: nat)
    requires 0 < w == Pow(2, k) && b < w && h * w + b < 0x8000_0000_0000_0000
    ensures Or(h * w, b) == h * w + b
  {
    ModOfMultiple(h, w);
    MulNonNegative(h, w);
    OrIsSum(h * w, b, k);
  }

  /** The call has to wait for the next millisecond: same reading, all 4096 numbers used. */
  predicate MustWait(s: State, now: int) {
    now == s.lastTimestamp && s.sequence == 4095
  }

  /** The readings a call sees: the first decides, the others are polled if it has to wait. */
  predicate Enough(s: State, readings: seq<int>) {
    && |readings| > 0
    && (MustWait(s, readings[0]) ==> Advances(s.lastTimestamp, readings[1..]))
  }

  /** Some polled reading lies after `last`. */
  predicate Advances(last: int, readings: seq<int>) {
    exists i :: 0 <= i < |readings| && readings[i] > last
  }

  /** The first polled reading after `last`. */
  function NextMillis(last: int, readings: seq<int>): (t: int)
    requires Advances(last, readings)
    ensures exists i :: FirstAfter(last, readings, i) && t == readings[i]
    decreases |readings|
  {
    if readings[0] > last then
      assert FirstAfter(last, readings, 0);
      readings[0]
    else
      AdvancesLater(last, readings);
      var t := NextMillis(last, readings[1..]);
      assert exists i :: FirstAfter(last, readings, i) && t == readings[i] by {
        var i :| FirstAfter(last, readings[1..], i) && t == readings[1..][i];
        assert FirstAfter(last, readings, i + 1);
      }
      t
  }

  /** Reading i lies after `last`, and none before it does. */
  predicate FirstAfter(last: int, readings: seq<int>, i: int) {
    0 <= i < |readings| && readings[i] > last && forall k :: 0 <= k < i ==> readings[k] <= last
  }

  lemma AdvancesLater(last: int, readings: seq<int>)
    requires Advances(last, readings) && readings[0] <= last
    ensures Advances(last, readings[1..])
  {
    var i :| 0 <= i < |readings| && readings[i] > last;
    assert readings[1..][i - 1] == readings[i];
  }

  /** The state after a call that is not refused. */
  function NextState(s: State, readings: seq<int>): State
    requires Enough(s, readings)
  {
    if MustWait(s, readings[0]) then
      s.(sequence := 0, lastTimestamp := NextMillis(s.lastTimestamp, readings[1..]))
    else if readings[0] == s.lastTimestamp then s.(sequence := (s.sequence + 1) % 4096)
    else s.(sequence := 0, lastTimestamp := readings[0])
  }

  function Step(s: State, readings: seq<int>): (State, Outcome)
    requires Enough(s, readings)
  {
    if readings[0] < s.lastTimestamp then (s, ClockMovedBackwards(s.lastTimestamp - readings[0]))
    else (NextState(s, readings), Id(Compose(NextState(s, readings))))
  }

  predicate AllInRange(readings: seq<int>) {
    forall i :: 0 <= i < |readings| ==> InRange(readings[i])
  }

  /** A call that is not refused moves (timestamp, sequence) up lexicographically. */
  lemma NextStateGrows(s: State, readings: seq<int>)
    requires s.Valid() && Enough(s, readings) && AllInRange(readings) && readings[0] >= s.lastTimestamp
    ensures var s' := NextState(s, readings);
            && s'.Valid() && s'.workerId == s.workerId && s'.dataCenterId == s.dataCenterId
            && InRange(s'.lastTimestamp) && Number(s') > Number(s)
  {
    if MustWait(s, readings[0]) {
      var t := NextMillis(s.lastTimestamp, readings[1..]);
      var i :| FirstAfter(s.lastTimestamp, readings[1..], i) && t == readings[1..][i];
      assert InRange(readings[i + 1]);
    }
  }

  /** Every returned id is larger than anything the generator's state stood for before, and
      a refused call changes nothing. */
  lemma StepIncreases(s: State, readings: seq<int>)
    requires s.Valid() && Enough(s, readings) && AllInRange(readings)
    ensures var (s', out) := Step(s, readings);
            && s'.Valid() && s'.workerId == s.workerId && s'.dataCenterId == s.dataCenterId
            && (out.ClockMovedBackwards? <==> readings[0] < s.lastTimestamp)
            && (out.ClockMovedBackwards? ==> s' == s && readings[0] + out.millis == s.lastTimestamp)
            && (out.Id? ==> InRange(s'.lastTimestamp) && out.id == Number(s') && Number(s') > Number(s))
  {
    if readings[0] >= s.lastTimestamp {
      NextStateGrows(s, readings);
      ComposeIsNumber(NextState(s, readings));
    }
  }

  /** The clock reading that an id carries, and its number within that millisecond. */
  function TimeOf(id: int): int {
    id / 0x40_0000 + START_TIME
  }

  function SequenceOf(id: int): int {
    id % 0x1000
  }

  lemma FieldsOfNumber(s: State)
    requires s.Valid()
    ensures TimeOf(Number(s)) == s.lastTimestamp && SequenceOf(Number(s)) == s.sequence
  {
    var t := s.lastTimestamp - START_TIME;
    DivModUnique(Number(s), 0x40_0000, t, Owner(s) * 0x1000 + s.sequence);
    DivModUnique(Number(s), 0x1000, t * 0x400 + Owner(s), s.sequence);
  }

  /** An id carries the reading that the call saw first; or, if it had to wait, the first polled
      one after the last timestamp.  Within a millisecond the ids are numbered from 0. */
  lemma IdShowsReading(s: State, readings: seq<int>)
    requires s.Valid() && Enough(s, readings) && AllInRange(readings) && readings[0] >= s.lastTimestamp
    ensures var out := Step(s, readings).1;
            && out.Id? && OwnerOf(out.id) == Owner(s)
            && (if MustWait(s, readings[0])
                then exists i :: FirstAfter(s.lastTimestamp, readings[1..], i) && TimeOf(out.id) == readings[1..][i]
                else TimeOf(out.id) == readings[0])
            && SequenceOf(out.id) == (if TimeOf(out.id) == s.lastTimestamp then s.sequence + 1 else 0)
  {
    StepIncreases(s, readings);
    FieldsOfNumber(Step(s, readings).0);
    OwnerIsReadable(Step(s, readings).0);
  }

  class Generator {
    var workerId: int
    var dataCenterId: int
    var sequence: int
    var lastTimestamp: int

    function Snapshot(): State
      reads this
    {
      State.State(workerId, dataCenterId, sequence, lastTimestamp)
    }

    constructor (workerId: int, dataCenterId: int)
      requires 0 <= workerId <= MAX_WORKER_ID && 0 <= dataCenterId <= MAX_DATA_CENTER_ID
      ensures Snapshot() == State.State(workerId, dataCenterId, 0, -1) && Snapshot().Valid()
    {
      this.workerId, this.dataCenterId := workerId, dataCenterId;
      sequence, lastTimestamp := 0, -1;
    }

    /** blockTillNextMillis */
    method BlockTillNextMillis(last: int, readings: seq<int>) returns (timestamp: int)
      requires Advances(last, readings)
      ensures timestamp == NextMillis(last, readings)
    {
      var i := 0;
      timestamp := readings[0];
      assert readings[0..] == readings;
      while timestamp <= last
        invariant 0 <= i < |readings| && timestamp == readings[i]
        invariant Advances(last, readings[i..])
        invariant NextMillis(last, readings[i..]) == NextMillis(last, readings)
        decreases |readings| - i
      {
        AdvancesLater(last, readings[i..]);
        assert readings[i..][1..] == readings[i + 1..];
        i := i + 1;
        timestamp := readings[i];
      }
    }

    method NextId(readings: seq<int>) returns (out: Outcome)
      requires Snapshot().Valid() && Enough(Snapshot(), readings)
      modifies this
      ensures (Snapshot(), out) == Step(old(Snapshot()), readings)
    {
      var timestamp := readings[0];
      if timestamp < lastTimestamp {
        return ClockMovedBackwards(lastTimestamp - timestamp);
      }
      if lastTimestamp == timestamp {
        sequence := (sequence + 1) % 4096;
        if sequence == 0 {
          timestamp := BlockTillNextMillis(lastTimestamp, readings[1..]);
        }
      } else {
        sequence := 0;
      }
      lastTimestamp := timestamp;
      out := Id(Compose(Snapshot()));
    }
  }

  /** The constructor's argument check. */
  datatype Creation = Created(generator: Generator) | IllegalWorkerId | IllegalDataCenterId

  method Create(workerId: int, dataCenterId: int) returns (c: Creation)
    ensures c.Created? <==> 0 <= workerId <= MAX_WORKER_ID && 0 <= dataCenterId <= MAX_DATA_CENTER_ID
    ensures c.IllegalWorkerId? <==> workerId < 0 || workerId > MAX_WORKER_ID
    ensures c.Created? ==> c.generator.Snapshot() == State.State(workerId, dataCenterId, 0, -1)
  {
    if workerId > MAX_WORKER_ID || workerId < 0 {
      return IllegalWorkerId;
    }
    if dataCenterId > MAX_DATA_CENTER_ID || dataCenterId < 0 {
      return IllegalDataCenterId;
    }
    var g := new Generator(workerId, dataCenterId);
    return Created(g);
  }

  // ------------------------------------------------------------------ the fleet

  /** One call on generator g, and the id log entries it leaves. */
  datatype Call = Call(g: nat, readings: seq<int>)
  datatype Entry = Entry(g: nat, id: int)
  datatype Fleet = Fleet(gens: seq<State>, log: seq<Entry>)

  function Perform(f: Fleet, c: Call): Fleet
    requires c.g < |f.gens| && Enough(f.gens[c.g], c.readings)
  {
    match Step(f.gens[c.g], c.readings)
    case (s', Id(id)) => Fleet(f.gens[c.g := s'], f.log + [Entry(c.g, id)])
    case (s', ClockMovedBackwards(_)) => Fleet(f.gens[c.g := s'], f.log)
  }

  /** A fleet that a sequence of calls, in any interleaving, leads to from fresh generators. */
  ghost predicate Reaches(start: Fleet, calls: seq<Call>, end: Fleet)
    decreases |calls|
  {
    if |calls| == 0 then end == start
    else
      var n := |calls| - 1;
      exists f :: Reaches(start, calls[..n], f)
        && calls[n].g < |f.gens| && AllInRange(calls[n].readings) && Enough(f.gens[calls[n].g], calls[n].readings)
        && end == Perform(f, calls[n])
  }

  /** Fresh generators with pairwise distinct (dataCenterId, workerId). */
  predicate Fresh(f: Fleet) {
    && f.log == []
    && (forall g :: 0 <= g < |f.gens| ==> f.gens[g].Valid() && f.gens[g].lastTimestamp == -1)
    && DistinctOwners(f.gens)
  }

  predicate DistinctOwners(gens: seq<State>) {
    forall g, h :: 0 <= g < h < |gens| ==> Owner(gens[g]) != Owner(gens[h])
  }

  function Owner(s: State): int {
    s.dataCenterId * 32 + s.workerId
  }

  function OwnerOf(id: int): int {
    (id / 0x1000) % 0x400
  }

  lemma OwnerIsReadable(s: State)
    requires s.Valid()
    ensures OwnerOf(Number(s)) == Owner(s)
  {
    var t := s.lastTimestamp - START_TIME;
    var n := t * 0x400 + Owner(s);
    DivModUnique(Number(s), 0x1000, n, s.sequence);
    DivModUnique(n, 0x400, t, Owner(s));
  }

  /** What every call keeps. */
  ghost predicate Safe(f: Fleet) {
    && (forall g :: 0 <= g < |f.gens| ==> f.gens[g].Valid())
    && DistinctOwners(f.gens)
    && (forall i :: 0 <= i < |f.log| ==>
          && f.log[i].g < |f.gens|
          && f.log[i].id <= Number(f.gens[f.log[i].g])
          && OwnerOf(f.log[i].id) == Owner(f.gens[f.log[i].g]))
    && (forall i, j :: 0 <= i < j < |f.log| ==>
          && f.log[i].id != f.log[j].id
          && (f.log[i].g == f.log[j].g ==> f.log[i].id < f.log[j].id))
  }

  lemma PerformKeepsSafe(f: Fleet, c: Call)
    requires Safe(f) && c.g < |f.gens| && AllInRange(c.readings) && Enough(f.gens[c.g], c.readings)
    ensures Safe(Perform(f, c))
  {
    var s := f.gens[c.g];
    StepIncreases(s, c.readings);
    var (s', out) := Step(s, c.readings);
    OwnerIsReadable(s');
    var f' := Perform(f, c);
    assert forall g :: 0 <= g < |f.gens| ==> Owner(f'.gens[g]) == Owner(f.gens[g]);
    forall i | 0 <= i < |f.log|
      ensures out.Id? ==> f.log[i].id != out.id && (f.log[i].g == c.g ==> f.log[i].id < out.id)
      ensures f.log[i].id <= Number(f'.gens[f.log[i].g])
    {
      if f.log[i].g != c.g {
        var g, h := if f.log[i].g < c.g then f.log[i].g else c.g, if f.log[i].g < c.g then c.g else f.log[i].g;
        assert Owner(f.gens[g]) != Owner(f.gens[h]);
      }
    }
  }

  lemma {:induction false} RunKeepsSafe(start: Fleet, calls: seq<Call>, end: Fleet)
    requires Fresh(start) && Reaches(start, calls, end)
    ensures Safe(end)
    decreases |calls|
  {
    if |calls| > 0 {
      var n := |calls| - 1;
      var f :| Reaches(start, calls[..n], f)
        && calls[n].g < |f.gens| && AllInRange(calls[n].readings) && Enough(f.gens[calls[n].g], calls[n].readings)
        && end == Perform(f, calls[n]);
      RunKeepsSafe(start, calls[..n], f);
      PerformKeepsSafe(f, calls[n]);
    }
  }

  /** Fleet safety: in every run, no id is returned twice by anyone, and each generator's ids
      strictly increase. */
  lemma NoDuplicateIds(start: Fleet, calls: seq<Call>, end: Fleet, i: nat, j: nat)
    requires Fresh(start) && Reaches(start, calls, end) && i < j < |end.log|
    ensures end.log[i].id != end.log[j].id
    ensures end.log[i].g == end.log[j].g ==> end.log[i].id < end.log[j].id
  {
    RunKeepsSafe(start, calls, end);
  }

  // ------------------------------------------------- numbering within a millisecond

  /** How many of the first n log entries come from generator g and carry reading t. */
  function SameMillis(log: seq<Entry>, n: nat, g: nat, t: int): nat
    requires n <= |log|
  {
    if n == 0 then 0
    else SameMillis(log, n - 1, g, t) + if log[n - 1].g == g && TimeOf(log[n - 1].id) == t then 1 else 0
  }

  lemma {:induction false} SameMillisFrame(log: seq<Entry>, e: Entry, n: nat, g: nat, t: int)
    requires n <= |log|
    ensures SameMillis(log + [e], n, g, t) == SameMillis(log, n, g, t)
    decreases n
  {
    if n > 0 {
      SameMillisFrame(log, e, n - 1, g, t);
    }
  }

  lemma {:induction false} NothingYet(log: seq<Entry>, n: nat, g: nat, t: int)
    requires n <= |log| && forall i :: 0 <= i < n && log[i].g == g ==> TimeOf(log[i].id) < t
    ensures SameMillis(log, n, g, t) == 0
    decreases n
  {
    if n > 0 {
      NothingYet(log, n - 1, g, t);
    }
  }

  /** Entry i is numbered by the earlier entries of its generator and millisecond. */
  predicate Numbered(log: seq<Entry>, i: nat)
    requires i < |log|
  {
    SequenceOf(log[i].id) == SameMillis(log, i, log[i].g, TimeOf(log[i].id))
  }

  /** What every call keeps, besides safety: the log is numbered, and each generator's sequence
      counts its entries of the last millisecond. */
  ghost predicate Counted(f: Fleet) {
    && (forall i :: 0 <= i < |f.log| ==> Numbered(f.log, i))
    && (forall i :: 0 <= i < |f.log| ==>
          f.log[i].g < |f.gens| && START_TIME <= TimeOf(f.log[i].id) <= f.gens[f.log[i].g].lastTimestamp)
    && (forall g :: 0 <= g < |f.gens| && f.gens[g].lastTimestamp != -1 ==>
          SameMillis(f.log, |f.log|, g, f.gens[g].lastTimestamp) == f.gens[g].sequence + 1)
  }

  lemma PerformKeepsCounted(f: Fleet, c: Call)
    requires Safe(f) && Counted(f) && c.g < |f.gens| && AllInRange(c.readings) && Enough(f.gens[c.g], c.readings)
    ensures Counted(Perform(f, c))
  {
    var s := f.gens[c.g];
    StepIncreases(s, c.readings);
    if c.readings[0] >= s.lastTimestamp {
      IdShowsReading(s, c.readings);
      FieldsOfNumber(Step(s, c.readings).0);
      AppendKeepsCounted(f, c.g, Step(s, c.readings).0, Step(s, c.readings).1.id);
    } else {
      assert Perform(f, c).gens == f.gens;
    }
  }

  lemma AppendKeepsCounted(f: Fleet, g: nat, s': State, id: int)
    requires Counted(f) && g < |f.gens| && InRange(s'.lastTimestamp) && f.gens[g].lastTimestamp <= s'.lastTimestamp
    requires f.gens[g].lastTimestamp == -1 || InRange(f.gens[g].lastTimestamp)
    requires TimeOf(id) == s'.lastTimestamp && SequenceOf(id) == s'.sequence
    requires s'.sequence == if s'.lastTimestamp == f.gens[g].lastTimestamp then f.gens[g].sequence + 1 else 0
    ensures Counted(Fleet(f.gens[g := s'], f.log + [Entry(g, id)]))
  {
    var e, n := Entry(g, id), |f.log|;
    var log, t := f.log + [e], s'.lastTimestamp;
    if t != f.gens[g].lastTimestamp {
      NothingYet(f.log, n, g, t);
    }
    forall i | 0 <= i <= n
      ensures Numbered(log, i)
    {
      SameMillisFrame(f.log, e, i, log[i].g, TimeOf(log[i].id));
      if i < n {
        assert Numbered(f.log, i);
      }
    }
    var gens := f.gens[g := s'];
    forall h | 0 <= h < |gens| && gens[h].lastTimestamp != -1
      ensures SameMillis(log, n + 1, h, gens[h].lastTimestamp) == gens[h].sequence + 1
    {
      SameMillisFrame(f.log, e, n, h, gens[h].lastTimestamp);
    }
  }

  lemma {:induction false} RunKeepsCounted(start: Fleet, calls: seq<Call>, end: Fleet)
    requires Fresh(start) && Reaches(start, calls, end)
    ensures Safe(end) && Counted(end)
    decreases |calls|
  {
    RunKeepsSafe(start, calls, end);
    if |calls| > 0 {
      var n := |calls| - 1;
      var f :| Reaches(start, calls[..n], f)
        && calls[n].g < |f.gens| && AllInRange(calls[n].readings) && Enough(f.gens[calls[n].g], calls[n].readings)
        && end == Perform(f, calls[n]);
      RunKeepsCounted(start, calls[..n], f);
      PerformKeepsCounted(f, calls[n]);
    }
  }

  /** In every run, the low 12 bits of an id are the number of earlier ids that its generator
      returned for the same millisecond. */
  lemma SequenceCounts(start: Fleet, calls: seq<Call>, end: Fleet, i: nat)
    requires Fresh(start) && Reaches(start, calls, end) && i < |end.log|
    ensures SequenceOf(end.log[i].id) == SameMillis(end.log, i, end.log[i].g, TimeOf(end.log[i].id))
  {
    RunKeepsCounted(start, calls, end);
    assert Numbered(end.log, i);
  }
}
