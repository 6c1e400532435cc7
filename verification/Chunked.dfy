/**
  Chunked transfer coding, section 4.1 of RFC 7230: the writer that frames what a content
  provider hands it, and the reader over a stream that delivers its bytes in arbitrary
  fragments, with its line reader that spills from a fixed buffer into a growable one.
 */
module Chunked {
  import opened Common
  import opened HttpText

  // ---- Streams ---------------------------------------------------------------------------

  /** A byte stream: each read returns some of what is left, at least one byte.  When nothing is
      left it reports the end, or an error if the connection is `broken`. */
  class Stream {
    var left: string
    const broken: bool

    constructor (input: string, broken: bool)
      ensures left == input && this.broken == broken
    {
      left, this.broken := input, broken;
    }

    method Read(max: nat) returns (n: int, got: string)
      requires max > 0
      modifies this
      ensures got + left == old(left) && |got| <= max
      ensures n == if old(left) != [] then |got| else if broken then -1 else 0
      ensures got == [] <==> old(left) == []
    {
      if left == [] {
        return if broken then -1 else 0, [];
      }
      var k: nat :| 0 < k <= max && k <= |left| by {
        assert 0 < 1 <= max && 1 <= |left|;
      }
      n, got := k, left[..k];
      left := left[k..];
    }
  }

  /** Who gets the content.  It may refuse any piece, and the reader then gives up. */
  class Receiver {
    var got: string
    var refused: bool

    constructor ()
      ensures got == [] && !refused
    {
      got, refused := [], false;
    }

    method Accept(piece: string) returns (ok: bool)
      modifies this
      ensures got == old(got) + piece && refused == (old(refused) || !ok)
    {
      ok := *;
      got, refused := got + piece, refused || !ok;
    }
  }

  /** Who is told how much of the content has come.  It may cancel at any report. */
  class Progress {
    var current: nat
    var cancelled: bool

    constructor ()
      ensures current == 0 && !cancelled
    {
      current, cancelled := 0, false;
    }

    method Report(r: nat) returns (ok: bool)
      modifies this
      ensures current == r && cancelled == (old(cancelled) || !ok)
    {
      ok := *;
      current, cancelled := r, cancelled || !ok;
    }
  }

  /** The other end of a connection.  Any write may fail; what was sent before stays sent. */
  class OutStream {
    var sent: string
    var failed: bool

    constructor ()
      ensures sent == [] && !failed
    {
      sent, failed := [], false;
    }

    method Write(text: string) returns (n: int)
      modifies this
      ensures n < 0 || n == |text|
      ensures sent == (if n < 0 then old(sent) else old(sent) + text) && failed == (old(failed) || n < 0)
    {
      var ok := *;
      if ok {
        n, sent := |text|, sent + text;
      } else {
        n, failed := -1, true;
      }
    }
  }

  // ---- The line reader -----------------------------------------------------------------------

  class LineReader {
    const fixed: array<char>
    var used: nat
    var growable: string

    constructor (buffer: array<char>)
      requires buffer.Length >= 2
      ensures Valid() && Content() == [] && fixed == buffer
    {
      fixed, used, growable := buffer, 0, [];
    }

    ghost predicate Valid()
      reads this, fixed
    {
      && fixed.Length >= 2 && used < fixed.Length
      && (used > 0 ==> fixed[used] == '\0')
      && (growable != [] ==> used == fixed.Length - 1)
    }

    /** What `ptr` and `size` show of the line so far. */
    function Content(): string
      reads this, fixed
      requires used <= fixed.Length
    {
      if growable == [] then fixed[..used] else growable
    }

    /** One more character, in whichever buffer it fits. */
    method Append(c: char)
      requires Valid()
      modifies this, fixed
      ensures Valid() && Content() == old(Content()) + [c]
    {
      if used < fixed.Length - 1 {
        fixed[used] := c;
        used := used + 1;
        fixed[used] := '\0';
      } else {
        if growable == [] {
          assert fixed[used] == '\0';
          growable := fixed[..used];
        }
        growable := growable + [c];
      }
    }

    /** Reads up to and including a line feed.  What it delivers does not depend on the size of
        the fixed buffer; it fails at the end of the stream, and in the middle of a line when the
        connection breaks there. */
    method GetLine(strm: Stream) returns (ok: bool)
      requires Valid()
      modifies this, fixed, strm
      ensures Valid() && ok == HasLine(old(strm.left), strm.broken)
      ensures Content() == Line(old(strm.left)) && strm.left == AfterLine(old(strm.left))
    {
      used, growable := 0, [];
      ghost var all := strm.left;
      var more := true;
      while more
        invariant Valid() && Reading(all, Content(), strm.left, more) && (more || HasLine(all, strm.broken))
        decreases more, |strm.left|
      {
        ghost var before, text := strm.left, Content();
        var n, got := strm.Read(1);
        if n <= 0 {
          ReadingEnds(all, text);
          if n < 0 || Content() == [] {
            return false;
          }
          more := false;
        } else {
          Append(got[0]);
          assert before == [got[0]] + strm.left && Content() == text + [got[0]];
          ReadingNext(all, text, got[0], strm.left);
          if got[0] == '\n' {
            more := false;
          }
        }
      }
      return true;
    }
  }

  /** A line can be read from here: there is something left and, when the connection is broken
      behind it, a line feed. */
  predicate HasLine(s: string, broken: bool) { s != [] && (broken ==> '\n' in s) }

  /** Without a line feed the rest is one line. */
  lemma {:induction false} NoFeed(s: string)
    requires '\n' !in s
    ensures Line(s) == s && AfterLine(s) == []
  {
    if s != [] { NoFeed(s[1..]); }
  }

  /** In the middle of a line: `text` has been read of `all`, `left` is still to come. */
  ghost predicate Reading(all: string, text: string, left: string, more: bool) {
    if more then all == text + left && '\n' !in text
    else text == Line(all) && left == AfterLine(all)
  }

  lemma ReadingNext(all: string, text: string, c: char, left: string)
    requires Reading(all, text, [c] + left, true)
    ensures Reading(all, text + [c], left, c != '\n') && (c == '\n' ==> HasLine(all, true))
  {
    Regroup(text, [c], left);
    if c == '\n' {
      LineOf(text, left);
      assert all[|text|] == '\n';
    }
  }

  lemma ReadingEnds(all: string, text: string)
    requires Reading(all, text, [], true)
    ensures Reading(all, text, [], false) && (text == [] <==> all == []) && !HasLine(all, true)
  {
    assert all == text;
    NoFeed(all);
  }

  // ---- Reading -----------------------------------------------------------------------------------

  /** How a read of a chunked body ends: with the result of the source, or with the exception of
      the number conversion; `body` has been delivered and `rest` is left in the stream. */
  datatype Reply = Returns(ok: bool, body: string, rest: string) | Throws(body: string, rest: string)

  function Prefixed(data: string, r: Reply): Reply {
    match r
    case Returns(ok, body, rest) => Returns(ok, data + body, rest)
    case Throws(body, rest) => Throws(data + body, rest)
  }

  /** The meaning of a stream, from the line with a chunk size. */
  function Decode(s: string, broken: bool): (r: Reply)
    decreases |s|, 1
  {
    if !HasLine(s, broken) then Returns(false, [], AfterLine(s))
    else
      var size := SizeOf(s);
      if size.None? then Throws([], AfterLine(s)) else DecodeChunk(size.value, AfterLine(s), broken)
  }

  /** The number that the first line of a text gives, if it gives one. */
  function SizeOf(s: string): Option<int> { StoiHex(CStr(Line(s))) }

  /** From the data of a chunk of the given size.  After the data anything but an empty line
      ends the body as if it were complete, and so does a negative size. */
  function DecodeChunk(size: int, s: string, broken: bool): (r: Reply)
    decreases |s|, 0
  {
    if size > 0 then
      if |s| < size then Returns(false, s, [])
      else
        var data, t := s[..size], s[size..];
        if !HasLine(t, broken) then Returns(false, data, AfterLine(t))
        else if CStr(Line(t)) != "\r\n" then Returns(true, data, AfterLine(t))
        else Prefixed(data, Decode(AfterLine(t), broken))
    else if size == 0 then Returns(HasLine(s, broken) && CStr(Line(s)) == "\r\n", [], AfterLine(s))
    else Returns(true, [], s)
  }

  const RECV_BUFSIZ: int := 4096

  /** The first `len` bytes of a text, or all of it. */
  function Front(s: string, len: nat): string { if |s| < len then s else s[..len] }

  /** Whether whoever is told of the progress has cancelled. */
  ghost predicate Cancelled(progress: Progress?)
    reads progress
  {
    progress != null && progress.cancelled
  }

  /** Delivers `len` bytes, however the stream fragments them, or everything there is, unless the
      receiver refuses or the read is cancelled first.  The progress told is what was delivered. */
  method ReadContentWithLength(strm: Stream, len: nat, progress: Progress?, out: Receiver) returns (ok: bool)
    requires !out.refused && (progress != null ==> progress.current == 0 && !progress.cancelled)
    modifies strm, progress, out
    ensures ok == (!out.refused && !Cancelled(progress) && |old(strm.left)| >= len)
    ensures !out.refused && !Cancelled(progress) ==>
      var front := Front(old(strm.left), len);
      out.got == old(out.got) + front && strm.left == old(strm.left)[|front|..]
    ensures old(out.got) <= out.got <= old(out.got) + Front(old(strm.left), len)
    ensures out.got + strm.left == old(out.got) + old(strm.left)
    ensures progress != null && !out.refused ==> |out.got| == |old(out.got)| + progress.current
  {
    var r := 0;
    ghost var all, sink := strm.left, out.got;
    while r < len
      invariant 0 <= r <= len && r <= |all| && strm.left == all[r..] && out.got == sink + all[..r] && !out.refused
      invariant progress != null ==> progress.current == r && !progress.cancelled
      decreases len - r
    {
      var readLen := len - r;
      var n, got := strm.Read(if readLen < RECV_BUFSIZ then readLen else RECV_BUFSIZ);
      if n <= 0 {
        assert all[..r] == all;
        return false;
      }
      assert all[r..] == got + strm.left;
      assert all[..r] + got == all[..r + n] <= Front(all, len);
      Regroup(sink, all[..r], got);
      var accepted := out.Accept(got);
      if !accepted {
        return false;
      }
      r := r + n;
      if progress != null {
        var going := progress.Report(r);
        if !going {
          return false;
        }
      }
    }
    ok := true;
  }

  method ReadSize(reader: LineReader, strm: Stream) returns (more: bool, size: Option<int>)
    requires reader.Valid()
    modifies reader, reader.fixed, strm
    ensures reader.Valid() && more == HasLine(old(strm.left), strm.broken)
    ensures strm.left == AfterLine(old(strm.left)) && size == SizeOf(old(strm.left))
  {
    more := reader.GetLine(strm);
    size := StoiHex(CStr(reader.Content()));
  }

  method ReadEmptyLine(reader: LineReader, strm: Stream) returns (more: bool, empty: bool)
    requires reader.Valid()
    modifies reader, reader.fixed, strm
    ensures reader.Valid() && more == HasLine(old(strm.left), strm.broken)
    ensures strm.left == AfterLine(old(strm.left)) && empty == (CStr(Line(old(strm.left))) == "\r\n")
  {
    more := reader.GetLine(strm);
    empty := CStr(reader.Content()) == "\r\n";
  }

  /** The line with a chunk size.  Stops with a reply, or goes on with the size. */
  method NextSize(reader: LineReader, strm: Stream, ghost got: string, out: Receiver)
      returns (stop: Option<Reply>, size: int)
    requires reader.Valid() && out.got == got
    modifies reader, reader.fixed, strm
    ensures reader.Valid()
    ensures var r := Prefixed(got, Decode(old(strm.left), strm.broken));
      if stop.Some? then stop.value == r && strm.left == r.rest && out.got == r.body
      else r == Prefixed(got, DecodeChunk(size, strm.left, strm.broken)) && |strm.left| < |old(strm.left)|
  {
    var more, number := ReadSize(reader, strm);
    assert got + [] == got;
    if !more {
      return Some(Returns(false, out.got, strm.left)), 0;
    }
    if number.None? {
      return Some(Throws(out.got, strm.left)), 0;
    }
    return None, number.value;
  }

  /** Where a step of the reader stands when `r` is what the stream means: stopped with it, stopped
      by the receiver in the middle of it, or still going. */
  ghost predicate Stopped(r: Reply, stop: Reply, got: string, refused: bool, left: string) {
    if refused then stop == Returns(false, got, left) && got <= r.body
    else stop == r && left == r.rest && got == r.body
  }

  /** The data of a chunk and the empty line after it. */
  method ChunkData(reader: LineReader, strm: Stream, chunkLen: int, out: Receiver) returns (stop: Option<Reply>)
    requires reader.Valid() && chunkLen > 0 && !out.refused
    modifies reader, reader.fixed, strm, out
    ensures reader.Valid() && (stop.None? ==> !out.refused)
    ensures var r := Prefixed(old(out.got), DecodeChunk(chunkLen, old(strm.left), strm.broken));
      if stop.Some? then Stopped(r, stop.value, out.got, out.refused, strm.left)
      else r == Prefixed(out.got, Decode(strm.left, strm.broken)) && |strm.left| < |old(strm.left)|
  {
    ghost var s, sink := strm.left, out.got;
    var ok := ReadContentWithLength(strm, chunkLen, null, out);
    FrontDelivered(sink, chunkLen, s, strm.broken);
    if !ok {
      return Some(Returns(false, out.got, strm.left));
    }
    var more, empty := ReadEmptyLine(reader, strm);
    if !more {
      return Some(Returns(false, out.got, strm.left));
    }
    if !empty {
      return Some(Returns(true, out.got, strm.left));
    }
    PrefixedTwice(sink, s[..chunkLen], Decode(strm.left, strm.broken));
    return None;
  }

  /** Whatever follows, the data of a chunk is delivered first. */
  lemma FrontDelivered(sink: string, size: nat, s: string, broken: bool)
    requires size > 0
    ensures sink + Front(s, size) <= Prefixed(sink, DecodeChunk(size, s, broken)).body
  {
    var data, t := Front(s, size), s[|Front(s, size)|..];
    if HasLine(t, broken) && CStr(Line(t)) == "\r\n" && |s| >= size {
      Regroup(sink, data, Decode(AfterLine(t), broken).body);
    }
  }

  /** Stopped, or in front of the data of a chunk. */
  ghost predicate At(all: Reply, stop: Option<Reply>, size: int, got: string, refused: bool, left: string,
                     broken: bool) {
    if stop.Some? then Stopped(all, stop.value, got, refused, left)
    else all == Prefixed(got, DecodeChunk(size, left, broken)) && !refused
  }

  /** The reader, on every stream and for every fragmentation, does what the stream means, up to
      the point where the receiver refuses. */
  method ReadContentChunked(strm: Stream, out: Receiver) returns (reply: Reply)
    requires out.got == [] && !out.refused
    modifies strm, out
    ensures Stopped(Decode(old(strm.left), strm.broken), reply, out.got, out.refused, strm.left)
  {
    var buffer := new char[16](i => '\0');
    var reader := new LineReader(buffer);
    ghost var all := Decode(strm.left, strm.broken);
    assert all == Prefixed([], all);
    var stop, chunkLen := NextSize(reader, strm, [], out);
    while stop.None? && chunkLen > 0
      invariant reader.Valid() && fresh(reader) && fresh(reader.fixed)
      invariant At(all, stop, chunkLen, out.got, out.refused, strm.left, strm.broken)
      decreases stop.None?, |strm.left|
    {
      stop := ChunkData(reader, strm, chunkLen, out);
      if stop.None? {
        stop, chunkLen := NextSize(reader, strm, out.got, out);
      }
    }
    if stop.Some? {
      return stop.value;
    }
    if chunkLen == 0 {
      var more, empty := ReadEmptyLine(reader, strm);
      return Returns(more && empty, out.got, strm.left);
    }
    return Returns(true, out.got, strm.left);
  }

  lemma PrefixedTwice(a: string, b: string, r: Reply)
    ensures Prefixed(a, Prefixed(b, r)) == Prefixed(a + b, r)
  {
    assert a + (b + r.body) == a + b + r.body;
  }

  // ---- Writing -----------------------------------------------------------------------------------

  /** What a content provider does with its sink during one call. */
  datatype Act = Write(data: string) | Done

  function Chunk(data: string): string { Hex(|data|) + "\r\n" + data + "\r\n" }

  const TERMINATOR: string := "0\r\n\r\n"

  function TextOf(act: Act): string { match act case Write(data) => Chunk(data) case Done => TERMINATOR }

  /** The texts of some acts, one after the other. */
  function Joined(text: Act -> string, acts: seq<Act>): string {
    if acts == [] then [] else Joined(text, acts[..|acts| - 1]) + text(acts[|acts| - 1])
  }

  function Emitted(acts: seq<Act>): string { Joined(TextOf, acts) }

  lemma JoinedPush(text: Act -> string, front: seq<Act>, act: Act, acts: seq<Act>)
    requires acts == front + [act]
    ensures Joined(text, acts) == Joined(text, front) + text(act)
  {
    assert acts[..|acts| - 1] == front;
  }

  lemma {:induction false} JoinedConcat(text: Act -> string, a: seq<Act>, b: seq<Act>)
    ensures Joined(text, a + b) == Joined(text, a) + Joined(text, b)
    decreases |b|
  {
    if b == [] {
      assert a + b == a;
    } else {
      var front, last := b[..|b| - 1], b[|b| - 1];
      JoinedConcat(text, a, front);
      JoinedPush(text, a + front, last, a + b);
      JoinedPush(text, front, last, b);
      Regroup(Joined(text, a), Joined(text, front), text(last));
    }
  }

  /** Data is still to come after these acts: the last one wrote something. */
  predicate Available(acts: seq<Act>) {
    acts == [] || (acts[|acts| - 1].Write? && acts[|acts| - 1].data != [])
  }

  /** What the writer emits for a provider that is called until no data is available. */
  function Written(calls: seq<seq<Act>>): string {
    if calls == [] then [] else Emitted(calls[0]) + if Available(calls[0]) then Written(calls[1..]) else []
  }

  /** The calls made until the server shuts down: it is asked before each one. */
  function Polled<T>(calls: seq<T>, polls: nat): seq<T> { if polls < |calls| then calls[..polls] else calls }

  /** The length that a call is counted with: that of its last write alone. */
  function LastLength(acts: seq<Act>): nat { if acts == [] then 0 else |TextOf(acts[|acts| - 1])| }

  function Total(calls: seq<seq<Act>>): nat {
    if calls == [] then 0 else LastLength(calls[0]) + if Available(calls[0]) then Total(calls[1..]) else 0
  }

  // What is sent when writes may fail: `fates` says of each write whether it went through.

  function Kept(acts: seq<Act>, fates: seq<bool>): string
    requires |acts| == |fates|
  {
    if acts == [] then [] else
      var n := |acts| - 1;
      Kept(acts[..n], fates[..n]) + if fates[n] then TextOf(acts[n]) else []
  }

  /** The last write failed: the only failure that the writer notices. */
  predicate Fails(fates: seq<bool>) { fates != [] && !fates[|fates| - 1] }

  /** One list of fates for each call made. */
  predicate Matches(run: seq<seq<Act>>, fates: seq<seq<bool>>) {
    |fates| <= |run| && forall k :: 0 <= k < |fates| ==> |fates[k]| == |run[k]|
  }

  /** Every call but the last went on, and the last one was the last to make. */
  predicate Ran(run: seq<seq<Act>>, fates: seq<seq<bool>>)
    requires Matches(run, fates)
  {
    && (forall k :: 0 <= k < |fates| - 1 ==> Available(run[k]) && !Fails(fates[k]))
    && (|fates| == |run| ||
        (fates != [] && (Fails(fates[|fates| - 1]) || !Available(run[|fates| - 1]))))
  }

  function KeptAll(run: seq<seq<Act>>, fates: seq<seq<bool>>): string
    requires Matches(run, fates)
  {
    if fates == [] then [] else
      var n := |fates| - 1;
      KeptAll(run, fates[..n]) + Kept(run[n], fates[n])
  }

  function Lengths(run: seq<seq<Act>>, n: nat): nat
    requires n <= |run|
  {
    if n == 0 then 0 else Lengths(run, n - 1) + LastLength(run[n - 1])
  }

  lemma KeptPush(front: seq<Act>, fates: seq<bool>, act: Act, ok: bool, acts: seq<Act>, all: seq<bool>)
    requires |front| == |fates| && acts == front + [act] && all == fates + [ok]
    ensures Kept(acts, all) == Kept(front, fates) + if ok then TextOf(act) else []
  {
    assert acts[..|front|] == front && all[..|front|] == fates;
  }

  lemma KeptAllPush(run: seq<seq<Act>>, fates: seq<seq<bool>>, f: seq<bool>, all: seq<seq<bool>>)
    requires Matches(run, fates) && |fates| < |run| && |f| == |run[|fates|]| && all == fates + [f]
    ensures Matches(run, all) && KeptAll(run, all) == KeptAll(run, fates) + Kept(run[|fates|], f)
  {
    assert all[..|fates|] == fates;
  }

  /** After some acts of a call: whether data is available, and what the last write returned. */
  ghost predicate Calling(acts: seq<Act>, fates: seq<bool>, available: bool, written: int) {
    && |fates| == |acts| && available == Available(acts)
    && if Fails(fates) then written < 0 else written == LastLength(acts)
  }

  lemma CallingNext(front: seq<Act>, fates: seq<bool>, act: Act, written: int, acts: seq<Act>, all: seq<bool>,
                    sink: string)
    requires |front| == |fates| && acts == front + [act] && all == fates + [written >= 0]
    requires written < 0 || written == |TextOf(act)|
    ensures Calling(acts, all, act.Write? && act.data != [], written)
    ensures sink + Kept(acts, all) == sink + Kept(front, fates) + if written >= 0 then TextOf(act) else []
    ensures false in all <==> false in fates || written < 0
  {
    KeptPush(front, fates, act, written >= 0, acts, all);
    Regroup(sink, Kept(front, fates), if written >= 0 then TextOf(act) else []);
    assert all[|front|] == (written >= 0);
  }

  method Perform(act: Act, strm: OutStream) returns (available: bool, written: int)
    modifies strm
    ensures available == (act.Write? && act.data != []) && (written < 0 || written == |TextOf(act)|)
    ensures strm.sent == old(strm.sent) + if written >= 0 then TextOf(act) else []
    ensures strm.failed == (old(strm.failed) || written < 0)
  {
    match act
    case Write(data) =>
      available := |data| > 0;
      var size := FromIToHex(|data|);
      written := strm.Write(size + "\r\n" + data + "\r\n");
    case Done =>
      available := false;
      written := strm.Write(TERMINATOR);
  }

  /** One call of the provider. */
  method RunCall(acts: seq<Act>, strm: OutStream) returns (available: bool, written: int, ghost fates: seq<bool>)
    modifies strm
    ensures Calling(acts, fates, available, written) && strm.failed == (old(strm.failed) || false in fates)
    ensures strm.sent == old(strm.sent) + Kept(acts, fates)
  {
    available, written, fates := true, 0, [];
    ghost var sink := strm.sent;
    for k := 0 to |acts|
      invariant Calling(acts[..k], fates, available, written)
      invariant strm.failed == (old(strm.failed) || false in fates) && strm.sent == sink + Kept(acts[..k], fates)
    {
      ghost var before := fates;
      available, written := Perform(acts[k], strm);
      fates := fates + [written >= 0];
      assert acts[..k + 1] == acts[..k] + [acts[k]];
      CallingNext(acts[..k], before, acts[k], written, acts[..k + 1], fates, sink);
    }
    assert acts[..|acts|] == acts;
  }

  /** Everything that the provider does until no data is available, or until the server shuts down,
      or until the last write of a call fails, is sent as far as its writes go through.  The
      result is negative exactly after such a failure, and otherwise the lengths of the last writes. */
  method WriteContentChunked(calls: seq<seq<Act>>, polls: nat, strm: OutStream)
      returns (total: int, ghost fates: seq<seq<bool>>)
    modifies strm
    ensures var run := Polled(calls, polls);
      && Matches(run, fates) && Ran(run, fates) && strm.sent == old(strm.sent) + KeptAll(run, fates)
      && strm.failed == (old(strm.failed) || SomeFailed(fates))
      && if fates != [] && Fails(fates[|fates| - 1]) then total < 0 else total == Lengths(run, |fates|)
  {
    ghost var run, sink := Polled(calls, polls), strm.sent;
    var available, n := true, 0;
    total, fates := 0, [];
    while available && n < |calls| && n < polls
      invariant |fates| == n && Running(run, fates, total, available)
      invariant strm.sent == sink + KeptAll(run, fates) && strm.failed == (old(strm.failed) || SomeFailed(fates))
    {
      var written;
      ghost var f, before := [], fates;
      available, written, f := RunCall(calls[n], strm);
      fates := fates + [f];
      RunningNext(run, before, f, fates, total, sink);
      if written < 0 {
        return written, fates;
      }
      total := total + written;
      n := n + 1;
    }
  }

  predicate SomeFailed(fates: seq<seq<bool>>) { exists k :: 0 <= k < |fates| && false in fates[k] }

  /** The calls so far all went on, except that the last one may have left no data available. */
  ghost predicate Running(run: seq<seq<Act>>, fates: seq<seq<bool>>, total: int, available: bool) {
    && Matches(run, fates) && total == Lengths(run, |fates|)
    && (forall k :: 0 <= k < |fates| ==> !Fails(fates[k]))
    && (forall k :: 0 <= k < |fates| - 1 ==> Available(run[k]))
    && available == (fates == [] || Available(run[|fates| - 1]))
  }

  lemma RunningNext(run: seq<seq<Act>>, fates: seq<seq<bool>>, f: seq<bool>, all: seq<seq<bool>>, total: int,
                    sink: string)
    requires Running(run, fates, total, true) && |fates| < |run| && |f| == |run[|fates|]| && all == fates + [f]
    ensures Matches(run, all) && sink + KeptAll(run, all) == sink + KeptAll(run, fates) + Kept(run[|fates|], f)
    ensures SomeFailed(all) == (SomeFailed(fates) || false in f)
    ensures Fails(f) ==> Ran(run, all)
    ensures !Fails(f) ==> Running(run, all, total + LastLength(run[|fates|]), Available(run[|fates|]))
  {
    KeptAllPush(run, fates, f, all);
    Regroup(sink, KeptAll(run, fates), Kept(run[|fates|], f));
    RunsOn(run, fates, f, all, total);
    SomeFailedPush(fates, f, all);
  }

  lemma SomeFailedPush(fates: seq<seq<bool>>, f: seq<bool>, all: seq<seq<bool>>)
    requires all == fates + [f]
    ensures SomeFailed(all) == (SomeFailed(fates) || false in f)
  {
    assert all[|fates|] == f && forall k :: 0 <= k < |fates| ==> all[k] == fates[k];
  }

  lemma RunsOn(run: seq<seq<Act>>, fates: seq<seq<bool>>, f: seq<bool>, all: seq<seq<bool>>, total: int)
    requires Running(run, fates, total, true) && Matches(run, all) && all == fates + [f]
    ensures Fails(f) ==> Ran(run, all)
    ensures !Fails(f) ==> Running(run, all, total + LastLength(run[|fates|]), Available(run[|fates|]))
  {
    assert all[|fates|] == f && forall k :: 0 <= k < |fates| ==> all[k] == fates[k];
  }

  /** When every write goes through, that is all of it. */
  lemma AllKept(run: seq<seq<Act>>, fates: seq<seq<bool>>)
    requires Matches(run, fates) && Ran(run, fates) && !SomeFailed(fates)
    ensures KeptAll(run, fates) == Written(run) && Lengths(run, |fates|) == Total(run)
  {
    var n := |fates|;
    AllKeptIs(run, fates);
    AllSent(run, n, EmittedTo(run, n), Lengths(run, n));
    assert n > 0 ==> !Fails(fates[n - 1]);
    SendingEnds(run, n, [], EmittedTo(run, n), Lengths(run, n), n == 0 || Available(run[n - 1]));
  }

  /** What the first `n` calls emit. */
  function EmittedTo(run: seq<seq<Act>>, n: nat): string
    requires n <= |run|
  {
    if n == 0 then [] else EmittedTo(run, n - 1) + Emitted(run[n - 1])
  }

  lemma {:induction false} AllKeptIs(run: seq<seq<Act>>, fates: seq<seq<bool>>)
    requires Matches(run, fates) && !SomeFailed(fates)
    ensures KeptAll(run, fates) == EmittedTo(run, |fates|)
    decreases |fates|
  {
    if fates != [] {
      var n, front := |fates| - 1, fates[..|fates| - 1];
      assert !SomeFailed(front) by { assert forall k :: 0 <= k < n ==> front[k] == fates[k]; }
      AllKeptIs(run, front);
      KeptIsEmitted(run[n], fates[n]);
    }
  }

  lemma {:induction false} AllSent(run: seq<seq<Act>>, n: nat, text: string, total: nat)
    requires n <= |run| && forall k :: 0 <= k < n - 1 ==> Available(run[k])
    requires text == EmittedTo(run, n) && total == Lengths(run, n)
    ensures Sending(run, n, [], text, total, n == 0 || Available(run[n - 1]))
    decreases n
  {
    if n == 0 {
      SendingStarts(run, []);
    } else {
      var front, count := EmittedTo(run, n - 1), Lengths(run, n - 1);
      AllSent(run, n - 1, front, count);
      assert n == 1 || Available(run[n - 2]);
      SendingNext(run, n - 1, [], front, count);
    }
  }

  lemma {:induction false} KeptIsEmitted(acts: seq<Act>, fates: seq<bool>)
    requires |acts| == |fates| && false !in fates
    ensures Kept(acts, fates) == Emitted(acts)
    decreases |acts|
  {
    if acts != [] {
      KeptIsEmitted(acts[..|acts| - 1], fates[..|acts| - 1]);
    }
  }

  /** After `n` calls: what is sent and counted, with what is still to come, makes up the whole. */
  ghost predicate Sending(run: seq<seq<Act>>, n: nat, sink: string, sent: string, total: int, available: bool) {
    && n <= |run|
    && sink + Written(run) == sent + (if available then Written(run[n..]) else [])
    && Total(run) == total + if available then Total(run[n..]) else 0
  }

  lemma SendingStarts(run: seq<seq<Act>>, sink: string)
    ensures Sending(run, 0, sink, sink, 0, true)
  {
    assert run[0..] == run;
  }

  lemma SendingNext(run: seq<seq<Act>>, n: nat, sink: string, sent: string, total: int)
    requires Sending(run, n, sink, sent, total, true) && n < |run|
    ensures Sending(run, n + 1, sink, sent + Emitted(run[n]), total + LastLength(run[n]), Available(run[n]))
  {
    assert run[n..][0] == run[n] && run[n..][1..] == run[n + 1..];
    Regroup(sent, Emitted(run[n]), if Available(run[n]) then Written(run[n + 1..]) else []);
  }

  lemma SendingEnds(run: seq<seq<Act>>, n: nat, sink: string, sent: string, total: int, available: bool)
    requires Sending(run, n, sink, sent, total, available) && (!available || n == |run|)
    ensures sent == sink + Written(run) && total == Total(run)
  {
    assert sent + [] == sent && run[|run|..] == [];
  }

  /** No call that is made writes more than once. */
  predicate OnceEach(calls: seq<seq<Act>>) {
    calls == [] || (|calls[0]| <= 1 && (Available(calls[0]) ==> OnceEach(calls[1..])))
  }

  /** The count is the number of bytes sent if and only if no call writes more than once; otherwise
      it is too small. */
  lemma {:induction false} CountExactlyWhen(calls: seq<seq<Act>>)
    ensures Total(calls) <= |Written(calls)|
    ensures Total(calls) == |Written(calls)| <==> OnceEach(calls)
  {
    if calls != [] {
      CountExactlyWhen(calls[1..]);
      LastIsLess(calls[0]);
    }
  }

  /** A call that writes one byte and is done: only the terminator is counted. */
  lemma CountCounterexample()
    ensures var calls := [[Write("a"), Done]]; Total(calls) < |Written(calls)|
  {
    var calls := [[Write("a"), Done]];
    CountExactlyWhen(calls);
    assert !OnceEach(calls);
  }

  function WithoutIdle(calls: seq<seq<Act>>): seq<seq<Act>> {
    if calls == [] then [] else (if calls[0] == [] then [] else [calls[0]]) + WithoutIdle(calls[1..])
  }

  /** A call in which the provider does nothing is followed by the next one: such calls can be left
      out without changing what is sent or counted. */
  lemma {:induction false} IdleCallsDropped(calls: seq<seq<Act>>)
    ensures Written(calls) == Written(WithoutIdle(calls)) && Total(calls) == Total(WithoutIdle(calls))
  {
    if calls != [] {
      IdleCallsDropped(calls[1..]);
      var rest := WithoutIdle(calls[1..]);
      if calls[0] == [] {
        assert WithoutIdle(calls) == rest;
      } else {
        assert ([calls[0]] + rest)[1..] == rest;
      }
    }
  }

  /** The run is possible, and a write of it failed without the writer noticing. */
  predicate Unnoticed(calls: seq<seq<Act>>, fates: seq<seq<bool>>) {
    && Matches(calls, fates) && Ran(calls, fates) && SomeFailed(fates) && !Fails(fates[|fates| - 1])
  }

  /** The writer notices every failed write if and only if no call writes more than once. */
  lemma NoticedExactlyWhen(calls: seq<seq<Act>>)
    ensures (forall fates :: !Unnoticed(calls, fates)) <==> OnceEach(calls)
  {
    if OnceEach(calls) {
      forall fates | Unnoticed(calls, fates) ensures false {
        OnceNoticed(calls, fates);
      }
    } else {
      var fates := FailFirst(calls);
    }
  }

  lemma {:induction false} OnceNoticed(calls: seq<seq<Act>>, fates: seq<seq<bool>>)
    requires OnceEach(calls) && Matches(calls, fates) && Ran(calls, fates) && SomeFailed(fates)
    ensures Fails(fates[|fates| - 1])
    decreases |fates|
  {
    if |fates| > 1 {
      var rest := fates[1..];
      assert forall k :: 0 <= k < |rest| ==> rest[k] == fates[k + 1] && calls[1..][k] == calls[k + 1];
      assert Available(calls[0]) && !Fails(fates[0]) && false !in fates[0];
      var k :| 0 <= k < |fates| && false in fates[k];
      assert rest[k - 1] == fates[k];
      OnceNoticed(calls[1..], rest);
    }
  }

  /** One more call in front, which goes on. */
  lemma RanCons(calls: seq<seq<Act>>, f: seq<bool>, rest: seq<seq<bool>>, fates: seq<seq<bool>>)
    requires calls != [] && |f| == |calls[0]| && !Fails(f) && fates == [f] + rest
    requires if Available(calls[0]) then Matches(calls[1..], rest) && Ran(calls[1..], rest) else rest == []
    ensures Matches(calls, fates) && Ran(calls, fates)
    ensures SomeFailed(fates) <==> false in f || SomeFailed(rest)
  {
    assert forall k :: 0 <= k < |rest| ==> fates[k + 1] == rest[k] && calls[1..][k] == calls[k + 1];
    assert fates[0] == f;
  }

  lemma {:induction false} FailNone(calls: seq<seq<Act>>) returns (fates: seq<seq<bool>>)
    ensures Matches(calls, fates) && Ran(calls, fates) && !SomeFailed(fates)
  {
    fates := [];
    if calls != [] {
      var f := seq(|calls[0]|, i => true);
      var rest := [];
      if Available(calls[0]) { rest := FailNone(calls[1..]); }
      fates := [f] + rest;
      RanCons(calls, f, rest, fates);
    }
  }

  /** The first of several writes in a call fails, and nothing else does. */
  lemma {:induction false} FailFirst(calls: seq<seq<Act>>) returns (fates: seq<seq<bool>>)
    requires !OnceEach(calls)
    ensures Unnoticed(calls, fates)
  {
    var n := |calls[0]|;
    var f, rest := seq(n, i => n == 1 || i > 0), [];
    if n > 1 {
      if Available(calls[0]) { rest := FailNone(calls[1..]); }
      assert !f[0];
    } else {
      rest := FailFirst(calls[1..]);
    }
    fates := [f] + rest;
    RanCons(calls, f, rest, fates);
    LastNoticed(f, rest, fates);
  }

  lemma LastNoticed(f: seq<bool>, rest: seq<seq<bool>>, fates: seq<seq<bool>>)
    requires fates == [f] + rest && !Fails(f) && (rest != [] ==> !Fails(rest[|rest| - 1]))
    ensures !Fails(fates[|fates| - 1])
  {
  }

  /** A chunk whose write fails before the terminator goes through: the result is not negative. */
  lemma UnnoticedCounterexample()
    ensures var calls, fates := [[Write("a"), Done]], [[false, true]];
      Unnoticed(calls, fates) && KeptAll(calls, fates) == TERMINATOR
  {
    var calls, fates := [[Write("a"), Done]], [[false, true]];
    RanCons(calls, fates[0], [], fates);
    KeptAllPush(calls, [], fates[0], fates);
    KeptPush([], [], Write("a"), false, [Write("a")], [false]);
    KeptPush([Write("a")], [false], Done, true, calls[0], fates[0]);
  }

  lemma LastIsLess(acts: seq<Act>)
    ensures LastLength(acts) <= |Emitted(acts)|
    ensures LastLength(acts) == |Emitted(acts)| <==> |acts| <= 1
  {
    if acts != [] {
      var front := acts[..|acts| - 1];
      JoinedPush(TextOf, front, acts[|acts| - 1], acts);
      if front != [] {
        JoinedPush(TextOf, front[..|front| - 1], front[|front| - 1], front);
      }
    }
  }

  /** The acts that a run of the writer lets the provider perform, over all calls. */
  function Performed(calls: seq<seq<Act>>): seq<Act> {
    if calls == [] then [] else calls[0] + if Available(calls[0]) then Performed(calls[1..]) else []
  }

  function Writes(chunks: seq<string>): (r: seq<Act>)
    ensures |r| == |chunks|
  {
    seq(|chunks|, i requires 0 <= i < |chunks| => Write(chunks[i]))
  }

  /** However it spreads them over its calls, the provider writes these chunks and then is done. */
  ghost predicate Provides(calls: seq<seq<Act>>, chunks: seq<string>) {
    Performed(calls) == Writes(chunks) + [Done] && forall i :: 0 <= i < |chunks| ==> chunks[i] != []
  }

  function Concat(chunks: seq<string>): string { if chunks == [] then [] else chunks[0] + Concat(chunks[1..]) }

  // ---- The round trip -----------------------------------------------------------------------------

  lemma EmptyLineIs(rest: string)
    ensures Line("\r\n" + rest) == "\r\n" && AfterLine("\r\n" + rest) == rest && CStr("\r\n") == "\r\n"
  {
    LineOf("\r", rest);
    assert "\r" + "\n" + rest == "\r\n" + rest && "\r" + "\n" == "\r\n";
  }

  lemma SizeLineIs(n: nat, rest: string)
    ensures Line(Hex(n) + "\r\n" + rest) == Hex(n) + "\r\n" && AfterLine(Hex(n) + "\r\n" + rest) == rest
    ensures StoiHex(CStr(Hex(n) + "\r\n")) == if n < INT_LIMIT then Some(n) else None
  {
    var h := Hex(n);
    assert forall i :: 0 <= i < |h| ==> IsHex(h[i]);
    LineOf(h + "\r", rest);
    assert h + "\r" + "\n" == h + "\r\n" && h + "\r" + "\n" + rest == h + "\r\n" + rest;
    assert '\0' !in h + "\r\n";
    StoiOfHex(n, "\r\n");
  }

  /** The data of a chunk and the line end after it. */
  lemma ChunkBody(data: string, rest: string, broken: bool)
    requires data != []
    ensures DecodeChunk(|data|, data + "\r\n" + rest, broken) == Prefixed(data, Decode(rest, broken))
  {
    var t := data + "\r\n" + rest;
    assert t[..|data|] == data && t[|data|..] == "\r\n" + rest;
    EmptyLineIs(rest);
  }

  /** One framed chunk in front of a stream. */
  lemma DecodeOfChunk(s: string, data: string, rest: string, broken: bool)
    requires data != [] && s == Chunk(data) + rest
    ensures Decode(s, broken)
         == if |data| < INT_LIMIT then Prefixed(data, Decode(rest, broken)) else Throws([], data + "\r\n" + rest)
  {
    var t := data + "\r\n" + rest;
    assert s == Hex(|data|) + "\r\n" + t;
    SizeLineIs(|data|, t);
    ChunkBody(data, rest, broken);
  }

  lemma DecodeOfTerminator(rest: string, broken: bool)
    ensures Decode(TERMINATOR + rest, broken) == Returns(true, [], rest)
  {
    assert Hex(0) == "0";
    assert TERMINATOR + rest == Hex(0) + "\r\n" + ("\r\n" + rest);
    SizeLineIs(0, "\r\n" + rest);
    EmptyLineIs(rest);
  }

  /** Chunks and the terminator. */
  function Framed(chunks: seq<string>): string {
    if chunks == [] then TERMINATOR else Chunk(chunks[0]) + Framed(chunks[1..])
  }

  /** Where one call ends and the next begins leaves no trace in the output. */
  lemma {:induction false} WrittenIsEmitted(calls: seq<seq<Act>>)
    ensures Written(calls) == Emitted(Performed(calls))
  {
    if calls != [] {
      WrittenIsEmitted(calls[1..]);
      JoinedConcat(TextOf, calls[0], if Available(calls[0]) then Performed(calls[1..]) else []);
    }
  }

  lemma EmittedOne(act: Act)
    ensures Emitted([act]) == TextOf(act)
  {
    JoinedPush(TextOf, [], act, [act]);
  }

  lemma {:induction false} EmittedIsFramed(chunks: seq<string>)
    ensures Emitted(Writes(chunks) + [Done]) == Framed(chunks)
  {
    if chunks == [] {
      assert Writes(chunks) + [Done] == [Done];
      EmittedOne(Done);
    } else {
      var rest := Writes(chunks[1..]) + [Done];
      assert Writes(chunks) + [Done] == [Write(chunks[0])] + rest;
      JoinedConcat(TextOf, [Write(chunks[0])], rest);
      EmittedOne(Write(chunks[0]));
      EmittedIsFramed(chunks[1..]);
    }
  }

  lemma FirstChunk(s: string, data: string, more: string, body: string, rest: string, broken: bool)
    requires data != [] && s == Chunk(data) + more
    ensures Decode(s, broken) == Returns(true, data + body, rest)
        <==> |data| < INT_LIMIT && Decode(more, broken) == Returns(true, body, rest)
  {
    DecodeOfChunk(s, data, more, broken);
    SamePrefix(data, Decode(more, broken), Returns(true, body, rest));
  }

  predicate AllShort(chunks: seq<string>) { forall i :: 0 <= i < |chunks| ==> |chunks[i]| < INT_LIMIT }

  lemma AllShortFirst(chunks: seq<string>)
    requires chunks != []
    ensures AllShort(chunks) <==> |chunks[0]| < INT_LIMIT && AllShort(chunks[1..])
  {
    assert chunks == [chunks[0]] + chunks[1..];
  }

  lemma {:induction false} FramedExactlyWhen(chunks: seq<string>, rest: string, broken: bool)
    requires forall i :: 0 <= i < |chunks| ==> chunks[i] != []
    ensures Decode(Framed(chunks) + rest, broken) == Returns(true, Concat(chunks), rest) <==> AllShort(chunks)
  {
    if chunks == [] {
      DecodeOfTerminator(rest, broken);
    } else {
      var more := Framed(chunks[1..]) + rest;
      FramedExactlyWhen(chunks[1..], rest, broken);
      assert Framed(chunks) + rest == Chunk(chunks[0]) + more;
      FirstChunk(Framed(chunks) + rest, chunks[0], more, Concat(chunks[1..]), rest, broken);
      AllShortFirst(chunks);
    }
  }

  /** For every provider of non-empty chunks, however it spreads them over its calls, and whatever
      follows in the stream: reading what was written returns true, delivers exactly the
      concatenation and stops right after the terminator, if and only if every chunk is below
      2^31.  A larger chunk makes the reader throw. */
  lemma RoundTripExactlyWhen(calls: seq<seq<Act>>, chunks: seq<string>, rest: string, broken: bool)
    requires Provides(calls, chunks)
    ensures Decode(Written(calls) + rest, broken) == Returns(true, Concat(chunks), rest) <==> AllShort(chunks)
  {
    WrittenIsEmitted(calls);
    EmittedIsFramed(chunks);
    FramedExactlyWhen(chunks, rest, broken);
  }

  /** A provider that hands over one chunk per call. */
  function Provider(chunks: seq<string>): seq<seq<Act>> {
    if chunks == [] then [[Done]] else [[Write(chunks[0])]] + Provider(chunks[1..])
  }

  lemma {:induction false} ProviderProvides(chunks: seq<string>)
    requires forall i :: 0 <= i < |chunks| ==> chunks[i] != []
    ensures Provides(Provider(chunks), chunks)
  {
    if chunks != [] {
      ProviderProvides(chunks[1..]);
      assert Performed(Provider(chunks)) == [Write(chunks[0])] + Performed(Provider(chunks)[1..]);
      assert Provider(chunks)[1..] == Provider(chunks[1..]);
    }
  }

  /** Writer and reader together, over any fragmentation of the stream between them: unless a
      write fails, the server stops or the receiver refuses. */
  method SendAndReceive(calls: seq<seq<Act>>, ghost chunks: seq<string>, broken: bool)
      returns (failed: bool, refused: bool, reply: Reply)
    requires Provides(calls, chunks)
    ensures !failed && !refused ==> (reply == Returns(true, Concat(chunks), []) <==> AllShort(chunks))
  {
    var wire := new OutStream();
    var total;
    ghost var fates;
    total, fates := WriteContentChunked(calls, |calls|, wire);
    failed := wire.failed;
    if !failed { AllKept(calls, fates); }
    RoundTripExactlyWhen(calls, chunks, [], broken);
    assert Written(calls) + [] == Written(calls) == [] + Written(calls);
    var strm := new Stream(wire.sent, broken);
    var out := new Receiver();
    reply := ReadContentChunked(strm, out);
    refused := out.refused;
  }

  /** One chunk of 2^31 bytes: the reader throws although every byte was written. */
  lemma LongChunkThrows()
    ensures var data := seq(INT_LIMIT, i => 'a');
      Decode(Written(Provider([data])), false).Throws?
  {
    var data := seq(INT_LIMIT, i => 'a');
    ProviderProvides([data]);
    WrittenIsEmitted(Provider([data]));
    EmittedIsFramed([data]);
    DecodeOfChunk(Framed([data]), data, Framed([]), false);
  }

  lemma SamePrefix(data: string, r: Reply, q: Reply)
    ensures Prefixed(data, r) == Prefixed(data, q) <==> r == q
  {
    assert (data + r.body)[|data|..] == r.body && (data + q.body)[|data|..] == q.body;
  }
}
