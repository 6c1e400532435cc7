/**
  When the chunked reader returns true, and when that means a complete body.  A complete body is
  given by its text alone: sized chunks, each followed by the empty line, then a size of zero and
  the empty line.  The reader also returns true in two other cases, which are texts as well.
 */
module ChunkedFormat {
  import opened Common
  import opened HttpText
  import opened Chunked

  // ---- The format ------------------------------------------------------------------------

  /** A size line and the data that follows it. */
  datatype Part = Part(line: string, data: string)

  predicate IsLine(l: string) { l != [] && l[|l| - 1] == '\n' && '\n' !in l[..|l| - 1] }

  /** The line gives the size of the data. */
  predicate Sized(p: Part) { IsLine(p.line) && p.data != [] && StoiHex(CStr(p.line)) == Some(|p.data|) }

  predicate AllSized(parts: seq<Part>) { forall i :: 0 <= i < |parts| ==> Sized(parts[i]) }

  /** Chunks, each with the empty line after its data. */
  function Text(parts: seq<Part>): string {
    if parts == [] then [] else parts[0].line + (parts[0].data + ("\r\n" + Text(parts[1..])))
  }

  function Datas(parts: seq<Part>): string { if parts == [] then [] else parts[0].data + Datas(parts[1..]) }

  /** Chunks, a size of zero and the empty line. */
  ghost predicate Body(s: string, parts: seq<Part>, end: string, rest: string) {
    && AllSized(parts) && IsLine(end) && StoiHex(CStr(end)) == Some(0)
    && s == Text(parts) + (end + ("\r\n" + rest))
  }

  ghost predicate Complete(s: string) { exists parts, end, rest :: Body(s, parts, end, rest) }

  /** After some chunks, the data of a chunk is followed by something other than the empty line. */
  ghost predicate CutAt(s: string, parts: seq<Part>, last: Part, other: string) {
    && AllSized(parts) && Sized(last) && other != [] && !("\r\n" <= other)
    && s == Text(parts) + (last.line + (last.data + other))
  }

  ghost predicate Cut(s: string) { exists parts, last, other :: CutAt(s, parts, last, other) }

  /** After some chunks, a line gives a negative size. */
  ghost predicate NegativeAt(s: string, parts: seq<Part>, t: string) {
    && AllSized(parts) && s == Text(parts) + t && t != []
    && SizeOf(t).Some? && SizeOf(t).value < 0
  }

  ghost predicate Negative(s: string) { exists parts, t :: NegativeAt(s, parts, t) }

  // ---- Reading off the chunks -------------------------------------------------------------

  lemma LineFirst(l: string, rest: string)
    requires IsLine(l)
    ensures Line(l + rest) == l && AfterLine(l + rest) == rest && SizeOf(l + rest) == StoiHex(CStr(l))
    ensures forall broken :: HasLine(l + rest, broken)
  {
    var a := l[..|l| - 1];
    assert l == a + "\n";
    LineOf(a, rest);
    assert (l + rest)[|a|] == '\n';
  }

  /** A text whose first line has a line feed. */
  lemma {:induction false} FeedEndsLine(s: string)
    requires '\n' in s
    ensures IsLine(Line(s))
  {
    if s[0] != '\n' {
      FeedEndsLine(s[1..]);
      var r := Line(s[1..]);
      assert Line(s) == [s[0]] + r && Line(s)[..|r|] == [s[0]] + r[..|r| - 1];
    }
  }

  lemma {:induction false} LineIsLine(s: string)
    requires AfterLine(s) != []
    ensures IsLine(Line(s))
  {
    if '\n' in s { FeedEndsLine(s); } else { NoFeed(s); }
  }

  /** The comparison with the empty line looks at two characters only. */
  lemma EmptyLineStarts(t: string)
    ensures CStr(Line(t)) == "\r\n" <==> "\r\n" <= t
    ensures "\r\n" <= t ==> AfterLine(t) == t[2..] && forall broken :: HasLine(t, broken)
  {
    if "\r\n" <= t {
      EmptyLineIs(t[2..]);
      assert t == "\r\n" + t[2..] && t[1] == '\n';
    } else {
      assert CStr(Line(t)) <= Line(t) <= t;
    }
  }

  /** `s` begins with a sized chunk and the empty line after it. */
  predicate HasChunk(s: string) {
    var size, t := SizeOf(s), AfterLine(s);
    size.Some? && 0 < size.value <= |t| && "\r\n" <= t[size.value..]
  }

  /** What follows that chunk. */
  function Next(s: string): (t: string)
    requires HasChunk(s)
    ensures |t| < |s|
  {
    AfterLine(s)[SizeOf(s).value + 2..]
  }

  /** What follows all chunks at the beginning. */
  function Tail(s: string): (t: string)
    ensures !HasChunk(t)
    decreases |s|
  {
    if HasChunk(s) then Tail(Next(s)) else s
  }

  /** A part in front is such a chunk. */
  lemma PartFirst(p: Part, s: string, rest: string)
    requires Sized(p) && s == p.line + (p.data + ("\r\n" + rest))
    ensures HasChunk(s) && Next(s) == rest
  {
    var t := p.data + ("\r\n" + rest);
    LineFirst(p.line, t);
    assert t[|p.data|..] == "\r\n" + rest && t[|p.data| + 2..] == rest;
  }

  lemma PartDecodes(p: Part, s: string, rest: string, broken: bool)
    requires Sized(p) && s == p.line + (p.data + ("\r\n" + rest))
    ensures Decode(s, broken) == Prefixed(p.data, Decode(rest, broken))
  {
    LineFirst(p.line, p.data + ("\r\n" + rest));
    ChunkBody(p.data, rest, broken);
    assert p.data + ("\r\n" + rest) == p.data + "\r\n" + rest;
  }

  /** And such a chunk is a part. */
  lemma ChunkIsPart(s: string) returns (p: Part)
    requires HasChunk(s)
    ensures Sized(p) && s == p.line + (p.data + ("\r\n" + Next(s)))
  {
    var n, t := SizeOf(s).value, AfterLine(s);
    LineIsLine(s);
    p := Part(Line(s), t[..n]);
    assert t == t[..n] + ("\r\n" + t[n + 2..]);
  }

  lemma TextFirst(parts: seq<Part>, t: string)
    requires parts != []
    ensures Text(parts) + t == parts[0].line + (parts[0].data + ("\r\n" + (Text(parts[1..]) + t)))
  {
    var a, b, c := parts[0].line, parts[0].data, Text(parts[1..]);
    Regroup("\r\n", c, t);
    Regroup(b, "\r\n" + c, t);
    Regroup(a, b + ("\r\n" + c), t);
  }

  lemma {:induction false} ChunksFirst(parts: seq<Part>, t: string, s: string)
    requires AllSized(parts) && s == Text(parts) + t
    ensures Tail(s) == Tail(t)
    decreases |parts|
  {
    if parts == [] {
      assert s == t;
    } else {
      var more := Text(parts[1..]) + t;
      ChunksFirst(parts[1..], t, more);
      TextFirst(parts, t);
      PartFirst(parts[0], s, more);
    }
  }

  /** Chunks in front are delivered, and the rest decides how the read ends. */
  lemma {:induction false} ChunksDecode(parts: seq<Part>, t: string, s: string, broken: bool, r: Reply)
    requires AllSized(parts) && s == Text(parts) + t && r == Decode(t, broken)
    ensures Decode(s, broken) == Prefixed(Datas(parts), r)
    decreases |parts|
  {
    if parts == [] {
      assert s == t;
    } else {
      var more := Text(parts[1..]) + t;
      ChunksDecode(parts[1..], t, more, broken, r);
      TextFirst(parts, t);
      PartDecodes(parts[0], s, more, broken);
      PrefixedTwice(parts[0].data, Datas(parts[1..]), r);
    }
  }

  /** Every text is some chunks and a tail. */
  lemma {:induction false} ReadOff(s: string) returns (parts: seq<Part>)
    ensures AllSized(parts) && s == Text(parts) + Tail(s)
    decreases |s|
  {
    if !HasChunk(s) {
      return [];
    }
    var p := ChunkIsPart(s);
    var more := ReadOff(Next(s));
    parts := [p] + more;
    TextCons(p, more, Tail(s));
  }

  lemma TextCons(p: Part, more: seq<Part>, t: string)
    ensures Text([p] + more) + t == p.line + (p.data + ("\r\n" + (Text(more) + t)))
  {
    assert ([p] + more)[1..] == more;
    TextFirst([p] + more, t);
  }

  // ---- How a read ends -----------------------------------------------------------------------

  predicate EndsBody(t: string) { SizeOf(t) == Some(0) && "\r\n" <= AfterLine(t) }

  predicate EndsCut(t: string) {
    var size, more := SizeOf(t), AfterLine(t);
    size.Some? && 0 < size.value < |more| && !("\r\n" <= more[size.value..])
  }

  predicate EndsNegative(t: string) { t != [] && SizeOf(t).Some? && SizeOf(t).value < 0 }

  lemma BodyText(t: string, end: string, rest: string)
    requires IsLine(end) && StoiHex(CStr(end)) == Some(0) && t == end + ("\r\n" + rest)
    ensures EndsBody(t) && AfterLine(t)[2..] == rest && Tail(t) == t
  {
    LineFirst(end, "\r\n" + rest);
  }

  lemma CutText(t: string, last: Part, other: string)
    requires Sized(last) && other != [] && !("\r\n" <= other) && t == last.line + (last.data + other)
    ensures EndsCut(t) && AfterLine(t) == last.data + other && Tail(t) == t
    ensures SizeOf(t) == Some(|last.data|) && AfterLine(t)[..|last.data|] == last.data
      && AfterLine(t)[|last.data|..] == other
  {
    LineFirst(last.line, last.data + other);
    assert (last.data + other)[|last.data|..] == other;
  }

  lemma CompleteIs(s: string)
    ensures Complete(s) <==> EndsBody(Tail(s))
  {
    if Complete(s) {
      var parts, end, rest :| Body(s, parts, end, rest);
      ChunksFirst(parts, end + ("\r\n" + rest), s);
      BodyText(end + ("\r\n" + rest), end, rest);
    }
    if EndsBody(Tail(s)) {
      TailIsBody(s, Tail(s));
    }
  }

  lemma TailIsBody(s: string, t: string)
    requires t == Tail(s) && EndsBody(t)
    ensures Complete(s)
  {
    var parts := ReadOff(s);
    LineIsLine(t);
    BodyThere(s, parts, t, Line(t), AfterLine(t));
  }

  lemma BodyThere(s: string, parts: seq<Part>, t: string, end: string, more: string)
    requires AllSized(parts) && s == Text(parts) + t && t == end + more && "\r\n" <= more
    requires IsLine(end) && StoiHex(CStr(end)) == Some(0)
    ensures Complete(s)
  {
    var rest := more[2..];
    assert more == "\r\n" + rest;
    assert Body(s, parts, end, rest);
  }

  lemma CutIs(s: string)
    ensures Cut(s) <==> EndsCut(Tail(s))
  {
    if Cut(s) {
      var parts, last, other :| CutAt(s, parts, last, other);
      ChunksFirst(parts, last.line + (last.data + other), s);
      CutText(last.line + (last.data + other), last, other);
    }
    if EndsCut(Tail(s)) {
      TailIsCut(s, Tail(s));
    }
  }

  lemma TailIsCut(s: string, t: string)
    requires t == Tail(s) && EndsCut(t)
    ensures Cut(s)
  {
    var parts := ReadOff(s);
    LineIsLine(t);
    CutThere(s, parts, t, Line(t), AfterLine(t), SizeOf(t).value);
  }

  lemma CutThere(s: string, parts: seq<Part>, t: string, line: string, more: string, n: int)
    requires AllSized(parts) && s == Text(parts) + t && t == line + more && 0 < n < |more| && !("\r\n" <= more[n..])
    requires IsLine(line) && StoiHex(CStr(line)) == Some(n)
    ensures Cut(s)
  {
    var data, other := more[..n], more[n..];
    assert more == data + other;
    assert CutAt(s, parts, Part(line, data), other) by { assert t == line + (data + other); }
  }

  lemma NegativeIs(s: string)
    ensures Negative(s) <==> EndsNegative(Tail(s))
  {
    if EndsNegative(Tail(s)) {
      var parts := ReadOff(s);
      assert NegativeAt(s, parts, Tail(s));
    }
    if Negative(s) {
      var parts, t :| NegativeAt(s, parts, t);
      ChunksFirst(parts, t, s);
    }
  }

  /** A read that returned true. */
  predicate Succeeds(r: Reply) { r.Returns? && r.ok }

  lemma TailSucceeds(t: string, broken: bool)
    requires !HasChunk(t)
    ensures Succeeds(Decode(t, broken)) ==> EndsBody(t) || EndsCut(t) || EndsNegative(t)
  {
    var size, more := SizeOf(t), AfterLine(t);
    EmptyLineStarts(more);
    if size.Some? && HasLine(t, broken) {
      var r := DecodeChunk(size.value, more, broken);
      assert Decode(t, broken) == r;
      if 0 < size.value <= |more| {
        EmptyLineStarts(more[size.value..]);
      }
    }
  }

  lemma BodySucceeds(t: string, broken: bool)
    requires EndsBody(t)
    ensures Decode(t, broken) == Returns(true, [], AfterLine(t)[2..])
  {
    LineIsLine(t);
    LineFirst(Line(t), AfterLine(t));
    EmptyLineStarts(AfterLine(t));
  }

  lemma CutSucceeds(t: string)
    requires EndsCut(t)
    ensures var n, more := SizeOf(t).value, AfterLine(t);
      Decode(t, false) == Returns(true, more[..n], AfterLine(more[n..]))
  {
    EmptyLineStarts(AfterLine(t)[SizeOf(t).value..]);
  }

  /** Whatever stream returns true holds a complete body, or data followed by another line, or a
      negative size; and never two of these. */
  lemma TrueMeans(s: string, broken: bool)
    requires Succeeds(Decode(s, broken))
    ensures Complete(s) || Cut(s) || Negative(s)
    ensures !(Complete(s) && Cut(s)) && !(Complete(s) && Negative(s)) && !(Cut(s) && Negative(s))
  {
    var parts := ReadOff(s);
    ChunksDecode(parts, Tail(s), s, broken, Decode(Tail(s), broken));
    TailSucceeds(Tail(s), broken);
    CompleteIs(s);
    CutIs(s);
    NegativeIs(s);
  }

  /** For every stream that the reader accepts: the body was complete if and only if no data was
      followed by another line and no size was negative. */
  lemma CompleteExactlyWhen(s: string, broken: bool)
    requires Succeeds(Decode(s, broken))
    ensures Complete(s) <==> !Cut(s) && !Negative(s)
  {
    TrueMeans(s, broken);
  }

  /** On a stream that ends without an error, the reader returns true exactly for these three. */
  lemma TrueExactlyWhen(s: string)
    ensures Succeeds(Decode(s, false)) <==> Complete(s) || Cut(s) || Negative(s)
  {
    if Succeeds(Decode(s, false)) {
      TrueMeans(s, false);
    }
    if Complete(s) {
      var parts, end, rest :| Body(s, parts, end, rest);
      BodyIsDelivered(s, parts, end, rest, false);
    }
    if Cut(s) {
      var parts, last, other :| CutAt(s, parts, last, other);
      CutIsDelivered(s, parts, last, other);
    }
    if Negative(s) {
      var parts, t :| NegativeAt(s, parts, t);
      NegativeIsDelivered(s, parts, t);
    }
  }

  /** A complete body is delivered in full, and reading stops right behind it. */
  lemma BodyIsDelivered(s: string, parts: seq<Part>, end: string, rest: string, broken: bool)
    requires Body(s, parts, end, rest)
    ensures Decode(s, broken) == Returns(true, Datas(parts), rest)
  {
    var t := end + ("\r\n" + rest);
    BodyText(t, end, rest);
    BodySucceeds(t, broken);
    ChunksDecode(parts, t, s, broken, Returns(true, [], rest));
    assert Datas(parts) + [] == Datas(parts);
  }

  /** The data before another line is delivered as if the body ended there. */
  lemma CutIsDelivered(s: string, parts: seq<Part>, last: Part, other: string)
    requires CutAt(s, parts, last, other)
    ensures Decode(s, false) == Returns(true, Datas(parts) + last.data, AfterLine(other))
  {
    var t := last.line + (last.data + other);
    CutText(t, last, other);
    CutSucceeds(t);
    ChunksDecode(parts, t, s, false, Returns(true, last.data, AfterLine(other)));
  }

  /** The chunks before a negative size are delivered as if the body ended there. */
  lemma NegativeIsDelivered(s: string, parts: seq<Part>, t: string)
    requires NegativeAt(s, parts, t)
    ensures Decode(s, false) == Returns(true, Datas(parts), AfterLine(t))
  {
    NegativeSucceeds(t);
    var r := Returns(true, [], AfterLine(t));
    ChunksDecode(parts, t, s, false, r);
    assert Datas(parts) + [] == Datas(parts) && Prefixed(Datas(parts), r) == Returns(true, Datas(parts), AfterLine(t));
  }

  lemma NegativeSucceeds(t: string)
    requires EndsNegative(t)
    ensures Decode(t, false) == Returns(true, [], AfterLine(t)) && Tail(t) == t
  {
    var n, more := SizeOf(t).value, AfterLine(t);
    assert DecodeChunk(n, more, false) == Returns(true, [], more);
  }

  // ---- Instances --------------------------------------------------------------------------------

  lemma LineWith(a: string)
    requires '\n' !in a
    ensures IsLine(a + "\n")
  {
    assert (a + "\n")[..|a|] == a;
  }

  lemma SmallLine(n: nat)
    requires n < INT_LIMIT
    ensures IsLine(Hex(n) + "\r\n") && StoiHex(CStr(Hex(n) + "\r\n")) == Some(n)
  {
    var h := Hex(n);
    assert forall i :: 0 <= i < |h| ==> IsHex(h[i]);
    LineWith(h + "\r");
    assert h + "\r" + "\n" == h + "\r\n";
    SizeLineIs(n, []);
  }

  lemma CutByItself(p: Part, other: string, s: string)
    requires Sized(p) && other != [] && !("\r\n" <= other) && s == p.line + (p.data + other)
    ensures Decode(s, false) == Returns(true, p.data, AfterLine(other)) && !Complete(s)
  {
    CutText(s, p, other);
    CutSucceeds(s);
    CompleteIs(s);
  }

  /** One chunk and a line that is not empty: accepted without a terminator. */
  lemma CutAccepted()
    ensures var s := "1\r\n" + ("a" + "X\n"); Decode(s, false) == Returns(true, "a", []) && !Complete(s)
  {
    SmallLine(1);
    assert Hex(1) == "1" && "1" + "\r\n" == "1\r\n";
    CutByItself(Part("1\r\n", "a"), "X\n", "1\r\n" + ("a" + "X\n"));
    LineOf("X", []);
    assert "X" + "\n" + [] == "X\n";
  }

  lemma MinusOne(s: string)
    requires s == "-1\r\n"
    ensures SizeOf(s) == Some(-1) && AfterLine(s) == []
  {
    LineOf("-1\r", []);
    assert "-1\r" + "\n" + [] == s && CStr(s) == s;
    assert SkipSpace(s) == s && s[1..] == "1" + "\r\n";
    HexRunOf("1", "\r\n");
    assert Hex(1) == "1";
    HexRoundTrip(1);
  }

  /** A single line with a negative number: accepted as an empty body. */
  lemma NegativeAccepted()
    ensures Decode("-1\r\n", false) == Returns(true, [], []) && !Complete("-1\r\n")
  {
    var s := "-1\r\n";
    MinusOne(s);
    NegativeSucceeds(s);
    CompleteIs(s);
  }

  // ---- What the writer produces ---------------------------------------------------------------------

  /** The size of the data in digits without leading zeros, a line end, the data and a line end. */
  predicate ChunkThen(s: string, size: string, data: string, rest: string) {
    && size != "" && AllHex(size) && HexValue(size) == |data| && (size[0] != '0' || |size| == 1)
    && s == size + ("\r\n" + (data + ("\r\n" + rest)))
  }

  /** A chunked body by the grammar of section 4.1 of RFC 7230, with nothing optional in it: the
      chunks, then a zero and two line ends. */
  ghost predicate Grammatical(s: string, chunks: seq<string>)
    decreases |chunks|
  {
    if chunks == [] then s == "0\r\n\r\n"
    else exists size, rest :: ChunkThen(s, size, chunks[0], rest) && Grammatical(rest, chunks[1..])
  }

  lemma FramedFirst(data: string, rest: string)
    requires data != []
    ensures ChunkThen(Chunk(data) + rest, Hex(|data|), data, rest)
  {
    HexRoundTrip(|data|);
    FiveParts(Hex(|data|), "\r\n", data, rest);
  }

  lemma FiveParts(size: string, end: string, data: string, rest: string)
    ensures size + end + data + end + rest == size + (end + (data + (end + rest)))
  {
  }

  lemma {:induction false} FramedIsGrammatical(chunks: seq<string>, s: string)
    requires (forall i :: 0 <= i < |chunks| ==> chunks[i] != []) && s == Framed(chunks)
    ensures Grammatical(s, chunks)
    decreases |chunks|
  {
    if chunks != [] {
      var rest := Framed(chunks[1..]);
      FramedIsGrammatical(chunks[1..], rest);
      FramedFirst(chunks[0], rest);
      assert ChunkThen(s, Hex(|chunks[0]|), chunks[0], rest);
    }
  }

  /** Whatever the provider writes, the output is exactly its chunks in that grammar. */
  lemma WrittenIsGrammatical(calls: seq<seq<Act>>, chunks: seq<string>)
    requires Provides(calls, chunks)
    ensures Grammatical(Written(calls), chunks)
  {
    WrittenIsEmitted(calls);
    EmittedIsFramed(chunks);
    FramedIsGrammatical(chunks, Framed(chunks));
  }
}
