/**
  The per-thread profiler log: 64-bit entries that pack a type, a timer and a 48-bit tick,
  the wrapping tick difference, and the ring buffer that carries entries to the frame flip.
 */
module ProfileLog {
  import opened Common

  const WORD: int := 0x1_0000_0000_0000_0000
  const TICKS: int := 0x1_0000_0000_0000
  const TIMERS: int := 0x4000
  const TYPE_UNIT: int := 0x4000_0000_0000_0000
  const SHIFT: int := 0x1_0000

  const LEAVE: int := 0
  const ENTER: int := 1
  const META: int := 2
  const GPU_EXTRA: int := 3

  /** An entry is an unsigned 64-bit word; a mask keeps a remainder and a shift is a product or
      a quotient, so the three fields add up. */
  type Entry = e: int | 0 <= e < WORD

  function Type(e: Entry): int { e / TYPE_UNIT % 4 }

  function Timer(e: Entry): int { e / TICKS % TIMERS }

  function Tick(e: Entry): int { e % TICKS }

  function Pack(begin: int, token: int, tick: int): (e: Entry)
    requires 0 <= begin && 0 <= token
  {
    FieldsFit(begin, token, tick);
    begin * TYPE_UNIT % WORD + token % TIMERS * TICKS + tick % TICKS
  }

  lemma FieldsFit(begin: int, token: int, tick: int)
    requires 0 <= begin && 0 <= token
    ensures begin * TYPE_UNIT % WORD == begin % 4 * TYPE_UNIT
    ensures 0 <= begin % 4 * TYPE_UNIT + token % TIMERS * TICKS + tick % TICKS < WORD
  {
    var q, r := begin / 4, begin % 4;
    assert begin * TYPE_UNIT == q * WORD + r * TYPE_UNIT;
    DivMod(WORD, q, r * TYPE_UNIT);
  }

  function SetTick(e: Entry, tick: int): (r: Entry) { tick % TICKS + (e - e % TICKS) }

  /** A 64-bit word read as a signed number. */
  function Signed(x: int): int { if x < WORD / 2 then x else x - WORD }

  function ShiftLeft(x: int): int { x * SHIFT % WORD }

  /** Both words are shifted so that the tick fields fill them, subtracted modulo 2^64, and
      the signed result is shifted back. */
  function TickDifference(start: Entry, end: Entry): int {
    Signed((ShiftLeft(end) - ShiftLeft(start)) % WORD) / SHIFT
  }

  /** Packing and reading back: the type, the 14-bit timer and the tick modulo 2^48. */
  lemma PackRoundTrip(begin: int, token: int, tick: int)
    requires 0 <= begin < 4 && 0 <= token
    ensures var e := Pack(begin, token, tick);
      Type(e) == begin && Timer(e) == token % TIMERS && Tick(e) == tick % TICKS
  {
    FieldsFit(begin, token, tick);
  }

  /** The layout of the word: two bits of type, fourteen of timer and 48 of tick. */
  lemma EntryLayout(timer: int, tick: int)
    requires 0 <= timer < 0x4000 && 0 <= tick < 0x1_0000_0000_0000
    ensures Pack(LEAVE, timer, tick) == timer * 0x1_0000_0000_0000 + tick
    ensures Pack(ENTER, timer, tick) == 0x4000_0000_0000_0000 + timer * 0x1_0000_0000_0000 + tick
    ensures Pack(META, timer, tick) == 0x8000_0000_0000_0000 + timer * 0x1_0000_0000_0000 + tick
    ensures Pack(GPU_EXTRA, timer, tick) == 0xC000_0000_0000_0000 + timer * 0x1_0000_0000_0000 + tick
  {
    FieldsFit(LEAVE, timer, tick);
    FieldsFit(ENTER, timer, tick);
    FieldsFit(META, timer, tick);
    FieldsFit(GPU_EXTRA, timer, tick);
  }

  /** Setting the tick of an entry keeps its type and its timer. */
  lemma SetTickKeeps(e: Entry, tick: int)
    ensures var r := SetTick(e, tick); Tick(r) == tick % TICKS && Timer(r) == Timer(e) && Type(r) == Type(e)
  {
  }

  /** Shifting left drops the type and the timer. */
  lemma ShiftDropsFields(e: Entry)
    ensures ShiftLeft(e) == Tick(e) * SHIFT
  {
    var q, r := e / TICKS, e % TICKS;
    assert e * SHIFT == q * WORD + r * SHIFT;
    DivMod(WORD, q, r * SHIFT);
  }

  /** For all true times with the end from 2^47 before the start up to, but not including, 2^47
      after it, whatever the types and timers, the difference of the packed entries is the true
      difference, across any number of 48-bit wraparounds. */
  lemma DifferenceIsTrue(start: Entry, end: Entry, a: int, b: int)
    requires Tick(start) == a % TICKS && Tick(end) == b % TICKS
    requires -TICKS / 2 <= b - a < TICKS / 2
    ensures TickDifference(start, end) == b - a
  {
    ShiftDropsFields(start);
    ShiftDropsFields(end);
    var d := b - a;
    var k := a / TICKS - b / TICKS;
    assert Tick(end) - Tick(start) == d + k * TICKS;
    var x := (Tick(end) - Tick(start)) * SHIFT;
    assert x == d * SHIFT + k * WORD;
    if d >= 0 {
      DivMod(WORD, k, d * SHIFT);
    } else {
      assert x == (d * SHIFT + WORD) + (k - 1) * WORD;
      DivMod(WORD, k - 1, d * SHIFT + WORD);
    }
    DivMod(SHIFT, d, 0);
  }

  /** The bound is exact: outside it the difference is off by a multiple of 2^48. */
  lemma DifferenceExactlyWhen(start: Entry, end: Entry, a: int, b: int)
    requires Tick(start) == a % TICKS && Tick(end) == b % TICKS
    ensures TickDifference(start, end) == b - a <==> -TICKS / 2 <= b - a < TICKS / 2
  {
    if -TICKS / 2 <= b - a < TICKS / 2 {
      DifferenceIsTrue(start, end, a, b);
    } else {
      assert -TICKS / 2 <= TickDifference(start, end) < TICKS / 2;
    }
  }

  /** Exactly 2^47 ticks later: the difference comes out negative. */
  lemma HalfwayCounterexample()
    ensures TickDifference(Pack(ENTER, 0, 0), Pack(LEAVE, 0, TICKS / 2)) == -(TICKS / 2)
  {
    PackRoundTrip(ENTER, 0, 0);
    PackRoundTrip(LEAVE, 0, TICKS / 2);
    DifferenceIsTrue(Pack(ENTER, 0, 0), Pack(LEAVE, 0, TICKS / 2), TICKS, TICKS / 2);
  }

  // ---- The ring --------------------------------------------------------------------------

  /** The entries of a ring from `get` up to `put`, in the order they were written. */
  function Cyclic<T>(ring: seq<T>, get: int, put: int): (r: seq<T>)
    requires 0 <= get < |ring| && 0 <= put < |ring|
  {
    if put >= get then ring[get..put] else ring[get..] + ring[..put]
  }

  /** Writing at `put` extends the ring by one entry, unless that would make it look empty. */
  lemma CyclicPut<T>(ring: seq<T>, get: int, put: int, e: T)
    requires 0 <= get < |ring| && 0 <= put < |ring|
    ensures var next := if put + 1 == |ring| then 0 else put + 1;
      && (next == get <==> |Cyclic(ring, get, put)| == |ring| - 1)
      && (next != get ==> Cyclic(ring[put := e], get, next) == Cyclic(ring, get, put) + [e])
  {
    var next := if put + 1 == |ring| then 0 else put + 1;
    var r := ring[put := e];
    if put >= get {
      assert next != get && next > 0 ==> r[get..next] == ring[get..put] + [e];
      assert next == 0 ==> r[get..] == ring[get..put] + [e] && r[..0] == [];
    } else {
      assert r[..next] == ring[..put] + [e] && r[get..] == ring[get..];
    }
  }

  class ThreadLog {
    const log: array<Entry>
    var put: int
    var get: int
    var overflow: int

    constructor (size: nat)
      requires size > 0
      ensures Valid() && Pending() == [] && log.Length == size && fresh(log)
    {
      log := new Entry[size](i => 0);
      put, get, overflow := 0, 0, 0;
    }

    ghost predicate Valid()
      reads this
    {
      0 <= put < log.Length && 0 <= get < log.Length
    }

    /** What has been written and not yet collected. */
    ghost function Pending(): seq<Entry>
      requires Valid()
      reads this, log
    {
      Cyclic(log[..], get, put)
    }

    static method NextPos(pos: int, size: int) returns (next: int)
      requires 0 <= pos < size
      ensures next == if pos + 1 == size then 0 else pos + 1
    {
      next := (pos + 1) % size;
    }

    /** Appends an entry, or drops it when only the one reserved slot is left. */
    method Put(token: int, tick: int, begin: int)
      requires Valid() && 0 <= begin && 0 <= token
      modifies this`put, this`overflow, log
      ensures Valid()
      ensures Pending() == if |old(Pending())| == log.Length - 1 then old(Pending())
                           else old(Pending()) + [Pack(begin, token, tick)]
      ensures overflow == if |old(Pending())| == log.Length - 1 then 100 else old(overflow)
      ensures log[..] == if |old(Pending())| == log.Length - 1 then old(log[..])
                         else old(log[..])[old(put) := Pack(begin, token, tick)]
    {
      var next := NextPos(put, log.Length);
      var entry := Pack(begin, token, tick);
      CyclicPut(log[..], get, put, entry);
      if next == get {
        overflow := 100;
      } else {
        log[put] := entry;
        put := next;
        assert log[..] == old(log[..])[old(put) := entry];
      }
    }

    /** The flip releases everything written so far: the writer may overwrite it from now on. */
    method Flip() returns (start: int)
      requires Valid()
      modifies this`get
      ensures Valid() && Pending() == [] && start == put
    {
      start := put;
      get := put;
    }

    /** The two stretches of the buffer that hold the entries from `get` up to `put`. */
    static method GetRange(size: int, put: int, get: int) returns (s0: int, e0: int, s1: int, e1: int)
      requires 0 <= get < size && 0 <= put < size
      ensures 0 <= s0 <= e0 <= size && 0 <= s1 <= e1 <= size
      ensures forall ring: seq<Entry> :: |ring| == size ==> ring[s0..e0] + ring[s1..e1] == Cyclic(ring, get, put)
    {
      s0, e0, s1, e1 := 0, 0, 0, 0;
      if put > get {
        s0, e0 := get, put;
      } else if put != get {
        var countEnd := size - get;
        s0, e0 := get, get + countEnd;
        e1 := put;
      }
    }
  }
}
