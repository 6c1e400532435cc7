/**
  The buffer queue of an audio stream and the renderer that keeps it fed.  Buffers are queued,
  played one at a time, released by a timing event and handed back by tag; the renderer mixes
  into every buffer it gets back and queues it again.
 */
module AudioStream {
  import opened Common

  type Tag = nat

  const MAX_BUFFERS: int := 32
  const RENDERER_BUFFERS: seq<Tag> := [0, 1, 2, 3]

  /** `scheduled` counts the release events that the timing core holds for this stream.
      `pushed` and `returned` are the history: every tag accepted and every tag handed back. */
  class Stream {
    var playing: bool
    var active: Option<Tag>
    var queued: seq<Tag>
    var released: seq<Tag>
    var scheduled: nat
    ghost var pushed: seq<Tag>
    ghost var returned: seq<Tag>

    ghost function Playing(): seq<Tag>
      reads this
    {
      if active.Some? then [active.value] else []
    }

    /** Buffers pass through the stream in the order they were queued; an event is pending exactly
        when a buffer is active; a playing stream with queued buffers has an active one. */
    ghost predicate Valid()
      reads this
    {
      && pushed == returned + released + Playing() + queued
      && scheduled == |Playing()|
      && (playing && queued != [] ==> active.Some?)
      && |queued| <= MAX_BUFFERS
    }

    constructor ()
      ensures Valid() && !playing && pushed == returned == released == []
    {
      playing, active, queued, released, scheduled := false, None, [], [], 0;
      pushed, returned := [], [];
    }

    method Play()
      requires Valid()
      modifies this
      ensures Valid() && playing
      ensures pushed == old(pushed) && returned == old(returned) && released == old(released)
    {
      playing := true;
      PlayNextBuffer();
    }

    method Stop()
      requires Valid()
      modifies this`playing
      ensures Valid() && !playing
    {
      playing := false;
    }

    /** Starts the next buffer when the stream is idle; restores what `Valid` says of a playing one. */
    method PlayNextBuffer()
      requires pushed == returned + released + Playing() + queued && scheduled == |Playing()|
      requires |queued| <= MAX_BUFFERS
      modifies this`active, this`queued, this`scheduled
      ensures Valid()
      ensures !playing || old(active).Some? ==> active == old(active) && queued == old(queued)
    {
      if !playing {
        return;
      }
      if active.Some? {
        return;
      }
      if queued == [] {
        return;
      }
      active := Some(queued[0]);
      queued := queued[1..];
      scheduled := scheduled + 1;
    }

    /** The release event: the timing core calls this once for each time it was scheduled. */
    method ReleaseActiveBuffer()
      requires Valid() && scheduled > 0
      modifies this
      ensures Valid() && playing == old(playing)
      ensures old(active).Some? && released == old(released) + [old(active).value]
      ensures pushed == old(pushed) && returned == old(returned)
    {
      scheduled := scheduled - 1;
      released := released + [active.value];
      active := None;
      PlayNextBuffer();
    }

    method QueueBuffer(tag: Tag) returns (ok: bool)
      requires Valid()
      modifies this
      ensures Valid() && playing == old(playing) && ok == (|old(queued)| < 32)
      ensures pushed == if ok then old(pushed) + [tag] else old(pushed)
      ensures returned == old(returned) && released == old(released)
    {
      if |queued| < MAX_BUFFERS {
        queued := queued + [tag];
        pushed := pushed + [tag];
        PlayNextBuffer();
        return true;
      }
      return false;
    }

    /** Hands back the oldest released buffers, at most `maxCount`. */
    method GetTagsAndReleaseBuffers(maxCount: nat) returns (tags: seq<Tag>)
      requires Valid()
      modifies this`released, this`returned
      ensures Valid()
      ensures |tags| == (if |old(released)| < maxCount then |old(released)| else maxCount)
      ensures tags + released == old(released) && returned == old(returned) + tags
    {
      tags := [];
      var count := 0;
      while count < maxCount && released != []
        invariant 0 <= count == |tags| <= maxCount && Valid()
        invariant tags + released == old(released) && returned == old(returned) + tags
        decreases |released|
      {
        MoveFirst(tags, released);
        MoveFirst(returned, released);
        tags := tags + [released[0]];
        returned := returned + [released[0]];
        released := released[1..];
        count := count + 1;
      }
    }
  }

  lemma MoveFirst(a: seq<Tag>, b: seq<Tag>)
    requires b != []
    ensures a + [b[0]] + b[1..] == a + b
  {
  }

  // ---- The renderer ----------------------------------------------------------------------

  /** The tags that the renderer has been told to queue so far: the four it starts with, then
      every tag handed back. */
  ghost function Due(returned: seq<Tag>): seq<Tag> { RENDERER_BUFFERS + returned }

  /** What a stream holds when the renderer is its only client. */
  ghost predicate Fed(pushed: seq<Tag>, returned: seq<Tag>, inStream: seq<Tag>, hand: seq<Tag>) {
    && pushed == returned + inStream
    && pushed + hand == Due(returned)
  }

  /** Round robin: the i-th buffer queued has tag i mod 4, for ever. */
  lemma {:induction false} RoundRobin(pushed: seq<Tag>, returned: seq<Tag>, inStream: seq<Tag>, hand: seq<Tag>, i: nat)
    requires Fed(pushed, returned, inStream, hand) && i < |pushed|
    ensures pushed[i] == i % 4
    decreases i
  {
    assert pushed[i] == (pushed + hand)[i] == Due(returned)[i];
    if i >= 4 {
      assert Due(returned)[i] == returned[i - 4] == pushed[i - 4];
      RoundRobin(pushed, returned, inStream, hand, i - 4);
    }
  }

  lemma InHandRobin(pushed: seq<Tag>, returned: seq<Tag>, inStream: seq<Tag>, hand: seq<Tag>, i: nat)
    requires Fed(pushed, returned, inStream, hand) && i < |pushed| + |hand|
    ensures (pushed + hand)[i] == i % 4
  {
    if i < |pushed| {
      RoundRobin(pushed, returned, inStream, hand, i);
    } else if i >= 4 {
      assert (pushed + hand)[i] == Due(returned)[i] == returned[i - 4] == pushed[i - 4];
      RoundRobin(pushed, returned, inStream, hand, i - 4);
    } else {
      assert (pushed + hand)[i] == Due(returned)[i];
    }
  }

  /** Every tag is in exactly one place: released, active, queued, or in the renderer's hands. */
  lemma EachTagOnce(pushed: seq<Tag>, returned: seq<Tag>, inStream: seq<Tag>, hand: seq<Tag>)
    requires Fed(pushed, returned, inStream, hand)
    ensures multiset(inStream + hand) == multiset{0, 1, 2, 3}
  {
    var all, n := inStream + hand, |returned|;
    assert returned + all == pushed + hand;
    assert |all| == 4;
    forall k | 0 <= k < 4
      ensures all[k] == (n + k) % 4
    {
      assert all[k] == (pushed + hand)[n + k];
      InHandRobin(pushed, returned, inStream, hand, n + k);
    }
    FourInARow(all, n);
  }

  lemma FourInARow(all: seq<Tag>, n: nat)
    requires |all| == 4 && forall k :: 0 <= k < 4 ==> all[k] == (n + k) % 4
    ensures multiset(all) == multiset{0, 1, 2, 3}
  {
    var r := n % 4;
    forall k | 0 <= k < 4
      ensures all[k] == if r + k < 4 then r + k else r + k - 4
    {
      Wraps(n, k);
    }
    Rotation(all, r);
  }

  lemma Wraps(n: nat, k: nat)
    requires k < 4
    ensures (n + k) % 4 == if n % 4 + k < 4 then n % 4 + k else n % 4 + k - 4
  {
  }

  lemma Rotation(all: seq<Tag>, r: nat)
    requires r < 4 && |all| == 4 && forall k :: 0 <= k < 4 ==> all[k] == if r + k < 4 then r + k else r + k - 4
    ensures multiset(all) == multiset{0, 1, 2, 3}
  {
    if r == 0 {
      assert all == [0, 1, 2, 3];
    } else if r == 1 {
      assert all == [1, 2, 3, 0];
    } else if r == 2 {
      assert all == [2, 3, 0, 1];
    } else {
      assert all == [3, 0, 1, 2];
    }
  }

  class Renderer {
    const stream: Stream
    var hand: seq<Tag>
    var elapsedFrameCount: nat

    ghost predicate Valid()
      reads this, stream
    {
      && stream.Valid() && stream.playing
      && Fed(stream.pushed, stream.returned, stream.released + stream.Playing() + stream.queued, hand)
      && elapsedFrameCount == |stream.pushed|
    }

    /** Starts the stream; the four buffers are still to be queued. */
    constructor (s: Stream)
      requires s.Valid() && s.pushed == s.returned == []
      modifies s
      ensures Valid() && stream == s && hand == RENDERER_BUFFERS
    {
      stream, hand, elapsedFrameCount := s, RENDERER_BUFFERS, 0;
      new;
      s.Play();
      assert s.pushed == s.released + s.Playing() + s.queued;
      assert [] + RENDERER_BUFFERS == Due([]);
    }

    /** Mixes the next buffer in hand and queues it.  The stream never rejects it. */
    method QueueMixedBuffer() returns (ok: bool)
      requires Valid() && hand != []
      modifies this, stream
      ensures Valid() && ok && hand == old(hand)[1..]
      ensures stream.pushed == old(stream.pushed) + [old(hand)[0]]
      ensures stream.returned == old(stream.returned) && stream.released == old(stream.released)
    {
      assert |stream.released + stream.Playing() + stream.queued| <= 4;
      ok := stream.QueueBuffer(hand[0]);
      hand := hand[1..];
      elapsedFrameCount := elapsedFrameCount + 1;
      assert stream.pushed + hand == old(stream.pushed) + old(hand);
      assert stream.pushed == stream.returned + (stream.released + stream.Playing() + stream.queued);
    }

    /** Takes back at most two buffers. */
    method TakeReleased()
      requires Valid() && hand == []
      modifies this`hand, stream`released, stream`returned
      ensures Valid() && hand + stream.released == old(stream.released)
      ensures |hand| == if |old(stream.released)| < 2 then |old(stream.released)| else 2
      ensures stream.pushed == old(stream.pushed) && stream.returned == old(stream.returned) + hand
    {
      hand := stream.GetTagsAndReleaseBuffers(2);
      assert Due(stream.returned) == Due(old(stream.returned)) + hand;
      assert stream.pushed == stream.returned + (stream.released + stream.Playing() + stream.queued);
    }

    /** One update without interruption: as many buffers are queued as were taken back. */
    method ReleaseAndQueueBuffers()
      requires Valid() && hand == []
      modifies this, stream
      ensures Valid() && hand == []
      ensures var n := if |old(stream.released)| < 2 then |old(stream.released)| else 2;
        && stream.released == old(stream.released)[n..]
        && stream.pushed == old(stream.pushed) + old(stream.released)[..n]
        && elapsedFrameCount == old(elapsedFrameCount) + n
    {
      ghost var all := stream.pushed;
      TakeReleased();
      ghost var tags := hand;
      assert tags == old(stream.released)[..|tags|] && stream.released == old(stream.released)[|tags|..];
      while hand != []
        invariant Valid() && stream.pushed + hand == all + tags
        invariant stream.released == old(stream.released)[|tags|..] && |hand| <= |tags|
        decreases |hand|
      {
        ghost var before, rest := stream.pushed, hand;
        var ok := QueueMixedBuffer();
        assert before + [rest[0]] + rest[1..] == before + rest;
      }
    }

    method Release()
      requires Valid() && stream.scheduled > 0
      modifies stream
      ensures Valid() && stream.released != []
      ensures stream.pushed == old(stream.pushed) && stream.returned == old(stream.returned)
    {
      stream.ReleaseActiveBuffer();
      assert stream.pushed == stream.returned + (stream.released + stream.Playing() + stream.queued);
    }
  }

  /** What may happen next: an update begins, the buffer in hand is queued, or an event fires. */
  datatype Step = Update | QueueNext | Event

  /** Every interleaving, with events also between the buffers of one update: no buffer is ever
      rejected or lost, every tag stays in exactly one place, and buffers go round for ever. */
  method Run(r: Renderer, steps: seq<Step>)
    requires r.Valid()
    modifies r, r.stream
    ensures r.Valid()
    ensures var s := r.stream;
      && multiset(s.released + s.Playing() + s.queued + r.hand) == multiset{0, 1, 2, 3}
      && (forall i :: 0 <= i < |s.pushed| ==> s.pushed[i] == i % 4)
      && (s.scheduled == 1 <==> s.active.Some?) && s.scheduled <= 1
      && (s.queued != [] ==> s.active.Some?)
      && old(s.pushed) <= s.pushed && old(s.returned) <= s.returned
  {
    for n := 0 to |steps|
      invariant r.Valid() && old(r.stream.pushed) <= r.stream.pushed && old(r.stream.returned) <= r.stream.returned
    {
      match steps[n]
      case Update => if r.hand == [] { r.TakeReleased(); }
      case QueueNext => if r.hand != [] { var ok := r.QueueMixedBuffer(); }
      case Event => if r.stream.scheduled > 0 { r.Release(); }
    }
    ghost var s := r.stream;
    ghost var inStream := s.released + s.Playing() + s.queued;
    EachTagOnce(s.pushed, s.returned, inStream, r.hand);
    forall i | 0 <= i < |s.pushed|
      ensures s.pushed[i] == i % 4
    {
      RoundRobin(s.pushed, s.returned, inStream, r.hand, i);
    }
  }

  /** With nothing in hand there is always something left to happen: a buffer is playing and its
      event is pending, or at least one buffer waits to be taken back. */
  method NeverIdle(r: Renderer) returns (next: Step)
    requires r.Valid()
    ensures match next
      case QueueNext => r.hand != []
      case Event => r.stream.scheduled > 0
      case Update => r.hand == [] && r.stream.released != []
  {
    ghost var s := r.stream;
    if r.hand != [] {
      return QueueNext;
    }
    if r.stream.scheduled > 0 {
      return Event;
    }
    EachTagOnce(s.pushed, s.returned, s.released + s.Playing() + s.queued, r.hand);
    assert s.queued == [] && s.Playing() == [];
    assert |multiset(s.released + s.Playing() + s.queued + r.hand)| == 4;
    return Update;
  }
}
