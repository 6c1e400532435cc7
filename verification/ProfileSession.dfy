/**
  The profiler over many frames: a thread writes entries, each flip hands everything written so
  far back to the writer, and a frame is replayed some flips later from whatever its part of the
  ring holds by then.
 */
module ProfileSession {
  import opened ProfileLog
  import opened ReplaySpec
  import opened ProfileReplay

  /** Flips between the end of a frame and its replay. */
  const FRAME_DELAY: int := 3

  datatype PutCall = PutCall(token: int, tick: int, begin: int)

  predicate Registered(groupOf: seq<int>, c: PutCall) {
    0 <= c.begin < 4 && 0 <= c.token && c.token % TIMERS < |groupOf|
  }

  predicate AllRegistered(groupOf: seq<int>, calls: seq<PutCall>) {
    forall i :: 0 <= i < |calls| ==> Registered(groupOf, calls[i])
  }

  /** Every slot names a timer, whatever its type and however old it is. */
  ghost predicate Slots(groupOf: seq<int>, log: seq<Entry>) {
    forall k :: 0 <= k < |log| ==> Timer(log[k]) < |groupOf|
  }

  lemma SlotsKept(groupOf: seq<int>, log: seq<Entry>, k: int, c: PutCall)
    requires Slots(groupOf, log) && 0 <= k < |log| && Registered(groupOf, c)
    ensures Slots(groupOf, log[k := Pack(c.begin, c.token, c.tick)])
  {
    PackRoundTrip(c.begin, c.token, c.tick);
  }

  /** A frame is replayed when all its entries can be, and otherwise nothing happens. */
  ghost function Replayed(groupOf: seq<int>, s: State, frame: seq<Entry>): State
    requires Consistent(s)
  {
    if Replayable(groupOf, |s.stack|, frame) then Replay(groupOf, s, frame) else s
  }

  lemma {:induction false} SumsAdd(a: seq<int>, b: seq<int>, c: seq<int>, n: nat)
    requires n <= |a| && n <= |b| && n <= |c| && forall i :: 0 <= i < n ==> c[i] == a[i] + b[i]
    ensures SumTo(c, n) == SumTo(a, n) + SumTo(b, n)
  {
    if n > 0 { SumsAdd(a, b, c, n - 1); }
  }

  class Profiler {
    const log: ThreadLog
    const replay: Replayer
    /** Where the frames begin, the oldest first. */
    var starts: seq<int>
    /** Exclusive time of each timer over all frames. */
    var accum: seq<int>

    constructor (log: ThreadLog, replay: Replayer)
      requires log.Valid() && replay.Valid(log.log[..]) && Slots(replay.groupOf, log.log[..])
      requires {log.log as object} !! {replay.stack, replay.childTicks}
      ensures Valid() && this.log == log && this.replay == replay
    {
      this.log, this.replay := log, replay;
      starts, accum := seq(FRAME_DELAY + 1, i => 0), seq(|replay.groupOf|, i => 0);
    }

    ghost predicate Valid()
      reads this, log, log.log, replay, replay.stack
    {
      && {log.log as object} !! {replay.stack, replay.childTicks}
      && log.Valid() && replay.Valid(log.log[..]) && Slots(replay.groupOf, log.log[..])
      && |accum| == |replay.groupOf|
      && |starts| > FRAME_DELAY && forall i :: 0 <= i < |starts| ==> 0 <= starts[i] < log.log.Length
    }

    /** Exclusive time of all timers in the frame. */
    ghost function Spent(): int
      requires |replay.totals.exclusive| >= |replay.groupOf|
      reads this, replay
    {
      SumTo(replay.totals.exclusive, |replay.groupOf|)
    }

    /** Exclusive time of all timers in all frames. */
    ghost function Collected(): int
      reads this
    {
      SumTo(accum, |accum|)
    }

    /** Time of the closed scopes that the open ones still have to account for. */
    ghost function Held(): int
      requires 0 <= replay.stackPos < replay.childTicks.Length
      reads this, replay, replay.childTicks
    {
      Sum(replay.childTicks[..replay.stackPos + 1])
    }

    /** Entries written between two flips. */
    method Record(calls: seq<PutCall>)
      requires Valid() && AllRegistered(replay.groupOf, calls)
      modifies log, log.log
      ensures Valid()
    {
      for i := 0 to |calls|
        invariant Valid()
      {
        ghost var was, put := log.log[..], log.put;
        SlotsKept(replay.groupOf, was, put, calls[i]);
        log.Put(calls[i].token, calls[i].tick, calls[i].begin);
      }
    }

    /** Adds the exclusive times of the frame to those of the frames before. */
    method Accumulate()
      requires Valid()
      modifies this`accum
      ensures Valid() && Collected() == old(Collected()) + Spent()
      ensures forall i :: 0 <= i < |accum| ==> accum[i] == old(accum)[i] + replay.totals.exclusive[i]
    {
      ghost var was := accum;
      for n := 0 to |accum|
        invariant |accum| == |was|
        invariant forall i :: 0 <= i < n ==> accum[i] == was[i] + replay.totals.exclusive[i]
        invariant forall i :: n <= i < |accum| ==> accum[i] == was[i]
      {
        accum := accum[n := accum[n] + replay.totals.exclusive[n]];
      }
      SumsAdd(was, replay.totals.exclusive, accum, |accum|);
    }

    /** A flip: the frame that ended `FRAME_DELAY` flips ago, from `get` up to `next`, is replayed from
        what the ring holds now.  Nothing is replayed when an entry there cannot be. */
    method Flip() returns (ok: bool, get: int, next: int)
      requires Valid()
      modifies this`starts, this`accum, log`get, replay, replay.stack, replay.childTicks
      ensures Valid() && starts == old(starts) + [log.put]
      ensures get == starts[|starts| - FRAME_DELAY - 2] && next == starts[|starts| - FRAME_DELAY - 1]
      ensures ok == Replayable(replay.groupOf, old(replay.stackPos), Cyclic(log.log[..], get, next))
      ensures replay.View(log.log[..])
        == Replayed(replay.groupOf, old(replay.View(log.log[..])).(credits := []), Cyclic(log.log[..], get, next))
      ensures Spent() == Held() - old(Held()) && Collected() == old(Collected()) + Spent()
    {
      ghost var ring := log.log[..];
      get, next := NextFrame();
      assert log.log[..] == ring;
      ok := CountFrame(get, next, ring);
    }

    /** Replays a frame and adds up its times. */
    method CountFrame(get: int, put: int, ghost ring: seq<Entry>) returns (ok: bool)
      requires Valid() && ring == log.log[..] && 0 <= get < |ring| && 0 <= put < |ring|
      modifies this`accum, replay, replay.stack, replay.childTicks
      ensures Valid() && log.log[..] == ring
      ensures ok == Replayable(replay.groupOf, old(replay.stackPos), Cyclic(ring, get, put))
      ensures replay.View(ring)
        == Replayed(replay.groupOf, old(replay.View(ring)).(credits := []), Cyclic(ring, get, put))
      ensures Spent() == Held() - old(Held()) && Collected() == old(Collected()) + Spent()
    {
      ok := ReplayStretch(get, put, ring);
      Accumulate();
    }

    /** Starts a new frame, and says where the one to replay begins and ends. */
    method NextFrame() returns (get: int, next: int)
      requires Valid()
      modifies this`starts, log`get
      ensures Valid() && starts == old(starts) + [log.put]
      ensures get == starts[|starts| - FRAME_DELAY - 2] && next == starts[|starts| - FRAME_DELAY - 1]
      ensures 0 <= get < log.log.Length && 0 <= next < log.log.Length
    {
      var put := log.Flip();
      starts := starts + [put];
      var current := |starts| - FRAME_DELAY - 2;
      get, next := starts[current], starts[current + 1];
    }

    /** The frame between two places of the ring, with totals of its own. */
    method ReplayStretch(get: int, put: int, ghost ring: seq<Entry>) returns (ok: bool)
      requires Valid() && ring == log.log[..] && 0 <= get < |ring| && 0 <= put < |ring|
      modifies replay, replay.stack, replay.childTicks
      ensures Valid() && log.log[..] == ring
      ensures ok == Replayable(replay.groupOf, old(replay.stackPos), Cyclic(ring, get, put))
      ensures replay.View(ring)
        == Replayed(replay.groupOf, old(replay.View(ring)).(credits := []), Cyclic(ring, get, put))
      ensures Spent() == Held() - old(Held())
    {
      replay.ClearFrame(ring);
      ok := Replayable(replay.groupOf, replay.stackPos, Cyclic(log.log[..], get, put));
      if ok {
        replay.ReplayFrame(log.log[..], put, get);
      }
    }
  }

  /** Any frames, whatever the ring has lost meanwhile: all exclusive time collected is the growth of
      the time that open scopes hold. */
  method Run(p: Profiler, frames: seq<seq<PutCall>>) returns (ok: bool)
    requires p.Valid() && forall i :: 0 <= i < |frames| ==> AllRegistered(p.replay.groupOf, frames[i])
    modifies p, p.log, p.log.log, p.replay, p.replay.stack, p.replay.childTicks
    ensures p.Valid()
    ensures p.Collected() - old(p.Collected()) == p.Held() - old(p.Held())
  {
    ok := true;
    var n := 0;
    while ok && n < |frames|
      invariant 0 <= n <= |frames| && p.Valid()
      invariant p.Collected() - old(p.Collected()) == p.Held() - old(p.Held())
    {
      p.Record(frames[n]);
      var get, next;
      ok, get, next := p.Flip();
      n := n + 1;
    }
  }
}
