/**
  Form queries: the client prints a multimap of parameters as `key=value` pairs joined by '&',
  the server splits the text and parses it back.
 */
module Query {
  import opened Common
  import opened HttpText
  import opened Url

  type Pair = (string, string)

  // ---- Splitting -------------------------------------------------------------------------

  /** The pieces of a text between separators: one more than there are separators. */
  function Pieces(s: string, d: char): (r: seq<string>)
    ensures r != []
  {
    if s == [] then [[]] else Grown(s[0], d, Pieces(s[1..], d))
  }

  /** The pieces with one more character in front: a new piece, or a longer first one. */
  function Grown(c: char, d: char, r: seq<string>): (t: seq<string>)
    requires r != []
    ensures t != []
  {
    if c == d then [[]] + r else [[c] + r[0]] + r[1..]
  }

  /** The splitter calls back for every piece, but not at all for an empty text. */
  function Split(s: string, d: char): seq<string> { if s == [] then [] else Pieces(s, d) }

  lemma {:induction false} PiecesWhole(s: string, d: char)
    requires d !in s
    ensures Pieces(s, d) == [s]
  {
    if s != [] {
      PiecesWhole(s[1..], d);
      assert s == [s[0]] + s[1..];
    }
  }

  /** A separator cuts: the pieces of both sides, one after the other. */
  lemma {:induction false} PiecesJoin(a: string, d: char, b: string)
    ensures Pieces(a + [d] + b, d) == Pieces(a, d) + Pieces(b, d)
  {
    if a == [] {
      assert ([] + [d] + b)[1..] == b;
      assert Pieces([], d) == [[]];
    } else {
      assert (a + [d] + b)[1..] == a[1..] + [d] + b;
      PiecesJoin(a[1..], d, b);
      GrownFront(a[0], d, Pieces(a[1..], d), Pieces(b, d));
    }
  }

  lemma GrownFront(c: char, d: char, p: seq<string>, q: seq<string>)
    requires p != []
    ensures Grown(c, d, p + q) == Grown(c, d, p) + q
  {
    assert (p + q)[1..] == p[1..] + q;
  }

  /** No piece holds a separator. */
  lemma {:induction false} PiecesClean(s: string, d: char)
    ensures forall i :: 0 <= i < |Pieces(s, d)| ==> d !in Pieces(s, d)[i]
  {
    if s != [] { PiecesClean(s[1..], d); }
  }

  lemma {:induction false} OnePiece(s: string, d: char)
    ensures |Pieces(s, d)| == 1 <==> d !in s
  {
    if s != [] {
      OnePiece(s[1..], d);
      assert s == [s[0]] + s[1..];
    }
  }

  /** The callback of the source is a list here; `beg` is where the current piece begins. */
  method SplitText(s: string, d: char) returns (pieces: seq<string>)
    ensures pieces == Split(s, d)
  {
    pieces := [];
    var i, beg := 0, 0;
    assert s[0..] == s;
    while i < |s|
      invariant 0 <= beg <= i <= |s| && d !in s[beg..i]
      invariant Pieces(s, d) == pieces + Pieces(s[beg..], d)
    {
      if s[i] == d {
        CutHere(s, d, beg, i);
        assert pieces + ([s[beg..i]] + Pieces(s[i + 1..], d)) == pieces + [s[beg..i]] + Pieces(s[i + 1..], d);
        pieces := pieces + [s[beg..i]];
        beg := i + 1;
      } else {
        assert s[beg..i + 1] == s[beg..i] + [s[i]];
      }
      i := i + 1;
    }
    if i > 0 {
      PiecesWhole(s[beg..i], d);
      assert s[beg..] == s[beg..i];
      pieces := pieces + [s[beg..i]];
    }
  }

  lemma CutHere(s: string, d: char, beg: nat, i: nat)
    requires beg <= i < |s| && s[i] == d && d !in s[beg..i]
    ensures Pieces(s[beg..], d) == [s[beg..i]] + Pieces(s[i + 1..], d)
  {
    PiecesWhole(s[beg..i], d);
    PiecesJoin(s[beg..i], d, s[i + 1..]);
    assert s[beg..] == s[beg..i] + [d] + s[i + 1..];
  }

  // ---- Pairs --------------------------------------------------------------------------------

  /** The first non-empty segment is the key; every later one replaces the value. */
  function PairOf(segs: seq<string>, key: string, val: string): Pair
    decreases |segs|
  {
    if segs == [] then (key, val)
    else if key == [] then PairOf(segs[1..], segs[0], val)
    else PairOf(segs[1..], key, segs[0])
  }

  function ParsePair(s: string): Pair {
    var p := PairOf(Split(s, '='), [], []);
    (p.0, Decode(p.1))
  }

  function Printed(p: Pair): (r: string)
    requires Bytes(p.1)
    ensures r != []
  {
    p.0 + "=" + Encode(p.1)
  }

  method ParseOne(s: string) returns (p: Pair)
    ensures p == ParsePair(s)
  {
    var key, val := "", "";
    var segs := SplitText(s, '=');
    assert segs[0..] == segs;
    for n := 0 to |segs|
      invariant PairOf(segs, [], []) == PairOf(segs[n..], key, val)
    {
      assert segs[n..][1..] == segs[n + 1..];
      if key == "" {
        key := segs[n];
      } else {
        val := segs[n];
      }
    }
    var decoded := DecodeUrl(val);
    p := (key, decoded);
  }

  /** With a key in hand, the last segment is the value. */
  lemma {:induction false} LastIsValue(segs: seq<string>, key: string, val: string)
    requires key != []
    ensures PairOf(segs, key, val) == (key, if segs == [] then val else segs[|segs| - 1])
    decreases |segs|
  {
    if segs != [] { LastIsValue(segs[1..], key, segs[0]); }
  }

  /** The key is empty, or it is a segment; without a key there is no value. */
  lemma {:induction false} KeyIsSegment(segs: seq<string>)
    ensures var p := PairOf(segs, [], []); (p.0 == [] ==> p.1 == []) && (p.0 == [] || p.0 in segs)
    decreases |segs|
  {
    if segs != [] {
      if segs[0] == [] {
        KeyIsSegment(segs[1..]);
      } else {
        LastIsValue(segs[1..], segs[0], []);
      }
    }
  }

  // ---- One pair comes back ----------------------------------------------------------------------

  /** A pair whose text is cut and decoded back to itself. */
  predicate Intact(p: Pair) {
    && '=' !in p.0 && (p.0 != [] || p.1 == [])
    && '=' !in p.1 && '\0' !in p.1 && !HasEscape(p.1)
  }

  lemma PrintedSegments(p: Pair)
    requires Bytes(p.1)
    ensures Split(Printed(p), '=') == Pieces(p.0, '=') + Pieces(Encode(p.1), '=')
  {
    PiecesJoin(p.0, '=', Encode(p.1));
  }

  /** Encoding neither makes nor removes a separator. */
  lemma {:induction false} SeparatorsKept(s: string, d: char)
    requires Bytes(s) && (d == '&' || d == '=')
    ensures d in Escapes(s) <==> d in s
  {
    if s != [] {
      SeparatorsKept(s[1..], d);
      assert s == [s[0]] + s[1..];
      EscapeKeepsSeparator(s[0], d);
    }
  }

  lemma EscapeKeepsSeparator(c: char, d: char)
    requires IsByte(c) && (d == '&' || d == '=')
    ensures d in EscapeChar(c) <==> c == d
  {
    if MustEscape(c) {
      var n := c as int;
      DigitsOfPair(n);
      var h := HexPair(n);
      assert IsHex(h[0]) && IsHex(h[1]);
      assert EscapeChar(c) == ['%', h[0], h[1]];
    }
  }

  /** The last piece of an encoded value is the encoding of the end of the value. */
  lemma {:induction false} LastPiece(s: string) returns (t: string)
    requires Bytes(s)
    ensures Bytes(t) && |t| <= |s| && ('=' in s ==> |t| < |s|)
    ensures var r := Pieces(Escapes(s), '='); r[|r| - 1] == Escapes(t)
  {
    if '=' !in s {
      SeparatorsKept(s, '=');
      PiecesWhole(Escapes(s), '=');
      t := s;
    } else {
      var i :| 0 <= i < |s| && s[i] == '=';
      t := LastPieceFrom(s, i);
    }
  }

  lemma {:induction false} LastPieceFrom(s: string, i: nat) returns (t: string)
    requires Bytes(s) && i < |s| && s[i] == '='
    ensures Bytes(t) && |t| < |s|
    ensures var r := Pieces(Escapes(s), '='); r[|r| - 1] == Escapes(t)
  {
    var a, b := s[..i], s[i + 1..];
    assert Bytes(a) && Bytes(b) && s == a + ("=" + b);
    EscapesAround(a, b);
    PiecesJoin(Escapes(a), '=', Escapes(b));
    t := LastPiece(b);
  }

  lemma EscapesAround(a: string, b: string)
    requires Bytes(a) && Bytes(b)
    ensures Bytes(a + ("=" + b)) && Escapes(a + ("=" + b)) == Escapes(a) + "=" + Escapes(b)
  {
    EscapesConcat(a, "=" + b);
    FirstEscaped("=" + b);
    assert ("=" + b)[1..] == b;
    Regroup(Escapes(a), "=", Escapes(b));
  }

  lemma {:induction false} EscapesConcat(a: string, b: string)
    requires Bytes(a) && Bytes(b)
    ensures Bytes(a + b) && Escapes(a + b) == Escapes(a) + Escapes(b)
  {
    if a == [] {
      assert a + b == b;
    } else {
      EscapesConcat(a[1..], b);
      EscapesCons(a[0], a[1..] + b, a + b);
      EscapesCons(a[0], a[1..], a);
      Regroup(EscapeChar(a[0]), Escapes(a[1..]), Escapes(b));
    }
  }

  lemma EscapesCons(c: char, rest: string, s: string)
    requires IsByte(c) && Bytes(rest) && s == [c] + rest
    ensures Bytes(s) && Escapes(s) == EscapeChar(c) + Escapes(rest)
  {
    assert s[1..] == rest;
  }

  /** What parsing can give: a key without separator, and no value without a key. */
  lemma Produced(s: string)
    ensures var q := ParsePair(s); '=' !in q.0 && (q.0 == [] ==> q.1 == [])
  {
    var segs := Split(s, '=');
    PiecesClean(s, '=');
    KeyIsSegment(segs);
    assert Decode([]) == [];
    var q := PairOf(segs, [], []);
    if q.0 != [] {
      var i :| 0 <= i < |segs| && segs[i] == q.0;
      assert '=' !in segs[i];
    }
  }

  lemma KeyPresent(p: Pair)
    requires Bytes(p.1) && '=' !in p.0 && p.0 != []
    ensures ParsePair(Printed(p)).0 == p.0
    ensures if Intact(p) then ParsePair(Printed(p)) == p else |ParsePair(Printed(p)).1| < |p.1|
  {
    PrintedSegments(p);
    PiecesWhole(p.0, '=');
    var v, r := p.1, Pieces(Encode(p.1), '=');
    var segs := Split(Printed(p), '=');
    assert segs == [p.0] + r && segs[1..] == r;
    LastIsValue(r, p.0, []);
    assert PairOf(segs, [], []) == (p.0, r[|r| - 1]);
    CStrBytes(v);
    var t := LastPiece(CStr(v));
    ValueComesBack(v, t);
  }

  /** The value that comes back is the value, or it is shorter. */
  lemma ValueComesBack(v: string, t: string)
    requires Bytes(v) && Bytes(CStr(v)) && Bytes(t)
    requires |t| <= |CStr(v)| && ('=' in CStr(v) ==> |t| < |CStr(v)|)
    requires var r := Pieces(Encode(v), '='); r[|r| - 1] == Escapes(t)
    ensures var r := Pieces(Encode(v), '=');
      if '=' !in v && '\0' !in v && !HasEscape(v) then Decode(r[|r| - 1]) == v else |Decode(r[|r| - 1])| < |v|
  {
    DecodedLength(t);
    CStrBytes(v);
    if '\0' !in v && '=' !in v {
      SeparatorsKept(v, '=');
      PiecesWhole(Encode(v), '=');
      DecodedLength(v);
      RoundTripExactlyWhen(v);
    }
  }

  lemma KeyAbsent(p: Pair)
    requires Bytes(p.1) && p.0 == []
    ensures ParsePair(Printed(p)) == p <==> Intact(p)
  {
    PrintedSegments(p);
    var r := Pieces(Encode(p.1), '=');
    var segs := Split(Printed(p), '=');
    assert Pieces([], '=') == [[]];
    assert segs == [[]] + r && segs[1..] == r;
    assert PairOf(segs, [], []) == PairOf(r, [], []);
    KeyIsSegment(segs);
    if p.1 == [] {
      assert CStr([]) == [] && Escapes([]) == [] && Encode(p.1) == [];
      assert r == [[]] && r[1..] == [];
      assert Decode([]) == [];
    }
  }

  /** A printed pair is parsed back to itself exactly when it is intact. */
  lemma PairExactlyWhen(p: Pair)
    requires Bytes(p.1)
    ensures ParsePair(Printed(p)) == p <==> Intact(p)
  {
    if '=' in p.0 {
      Produced(Printed(p));
    } else if p.0 == [] {
      KeyAbsent(p);
    } else {
      KeyPresent(p);
    }
  }

  // ---- Whole queries --------------------------------------------------------------------------------

  predicate AllBytes(ps: seq<Pair>) { forall i :: 0 <= i < |ps| ==> Bytes(ps[i].1) }

  function Build(ps: seq<Pair>): (r: string)
    requires AllBytes(ps)
  {
    if ps == [] then []
    else if |ps| == 1 then Printed(ps[0])
    else Printed(ps[0]) + "&" + Build(ps[1..])
  }

  /** Every piece parsed, in order. */
  function ParseAll(pieces: seq<string>): (r: seq<Pair>)
    ensures |r| == |pieces|
    ensures forall i {:trigger r[i]} :: 0 <= i < |pieces| ==> r[i] == ParsePair(pieces[i])
  {
    seq(|pieces|, i requires 0 <= i < |pieces| => ParsePair(pieces[i]))
  }

  function Parse(q: string): seq<Pair> { ParseAll(Split(q, '&')) }

  lemma ParseConcat(a: seq<string>, b: seq<string>)
    ensures ParseAll(a + b) == ParseAll(a) + ParseAll(b)
  {
  }

  /** Keys and values that survive a query. */
  predicate Clean(p: Pair) { Intact(p) && '&' !in p.0 && '&' !in p.1 }

  predicate AllClean(ps: seq<Pair>) { forall i :: 0 <= i < |ps| ==> Clean(ps[i]) }

  lemma {:induction false} BuildNotEmpty(ps: seq<Pair>)
    requires AllBytes(ps) && ps != []
    ensures Build(ps) != []
  {
    assert Bytes(ps[0].1);
  }

  /** The first pair and the rest are parsed separately. */
  lemma ParseFirst(ps: seq<Pair>)
    requires AllBytes(ps) && ps != []
    ensures Bytes(ps[0].1) && AllBytes(ps[1..])
    ensures Parse(Build(ps)) == ParseAll(Pieces(Printed(ps[0]), '&')) + Parse(Build(ps[1..]))
  {
    assert Bytes(ps[0].1);
    BuildNotEmpty(ps);
    var first := Printed(ps[0]);
    if |ps| == 1 {
      assert ps[1..] == [] && Build(ps[1..]) == [];
    } else {
      BuildNotEmpty(ps[1..]);
      PiecesJoin(first, '&', Build(ps[1..]));
      ParseConcat(Pieces(first, '&'), Pieces(Build(ps[1..]), '&'));
    }
  }

  /** At least one pair comes back for each one printed. */
  lemma {:induction false} ParseCount(ps: seq<Pair>)
    requires AllBytes(ps)
    ensures |Parse(Build(ps))| >= |ps|
  {
    if ps != [] {
      ParseFirst(ps);
      ParseCount(ps[1..]);
    }
  }

  lemma SeparatorInPair(p: Pair)
    requires Bytes(p.1)
    ensures '&' in Printed(p) <==> '&' in p.0 || '&' in CStr(p.1)
  {
    CStrBytes(p.1);
    SeparatorsKept(CStr(p.1), '&');
  }

  /** One pair by itself: it comes back, and alone, exactly when it is clean. */
  lemma FirstExactlyWhen(p: Pair)
    requires Bytes(p.1)
    ensures ParseAll(Pieces(Printed(p), '&')) == [p] <==> Clean(p)
  {
    SeparatorInPair(p);
    OnePiece(Printed(p), '&');
    PairExactlyWhen(p);
    if '&' !in Printed(p) {
      PiecesWhole(Printed(p), '&');
      var r := ParseAll([Printed(p)]);
      assert r == [ParsePair(Printed(p))];
      assert '\0' !in p.1 ==> CStr(p.1) == p.1;
    }
  }

  /** For every list of parameters: parsing the query that was built gives exactly the list back
      if and only if every parameter is clean. */
  lemma {:induction false} RoundTripExactlyWhenClean(ps: seq<Pair>)
    requires AllBytes(ps)
    ensures Parse(Build(ps)) == ps <==> AllClean(ps)
  {
    if ps != [] {
      ParseFirst(ps);
      RoundTripExactlyWhenClean(ps[1..]);
      ParseCount(ps[1..]);
      FirstExactlyWhen(ps[0]);
      SplitEquality(ParseAll(Pieces(Printed(ps[0]), '&')), Parse(Build(ps[1..])), ps);
      CleanFirst(ps);
    }
  }

  lemma CleanFirst(ps: seq<Pair>)
    requires ps != []
    ensures AllClean(ps) <==> Clean(ps[0]) && AllClean(ps[1..])
  {
    assert ps == [ps[0]] + ps[1..];
  }

  lemma SplitEquality(a: seq<Pair>, b: seq<Pair>, ps: seq<Pair>)
    requires ps != [] && |a| >= 1 && |b| >= |ps| - 1
    ensures a + b == ps <==> a == [ps[0]] && b == ps[1..]
  {
    if a + b == ps {
      assert |a| == 1 && a[0] == (a + b)[0];
      assert b == (a + b)[1..];
    }
  }

  // ---- The multimap --------------------------------------------------------------------------------

  /** Byte-wise order of keys. */
  predicate Less(a: string, b: string) {
    b != [] && (a == [] || a[0] < b[0] || (a[0] == b[0] && Less(a[1..], b[1..])))
  }

  predicate Sorted(ps: seq<Pair>) { forall i, j :: 0 <= i < j < |ps| ==> !Less(ps[j].0, ps[i].0) }

  /** The texts agree up to `k`, where `a` ends or has the smaller byte. */
  ghost predicate SmallerAt(a: string, b: string, k: nat) {
    k <= |a| && k < |b| && a[..k] == b[..k] && (k == |a| || a[k] < b[k])
  }

  lemma SmallerBehind(a: string, b: string, k: nat)
    requires a != [] && b != [] && a[0] == b[0]
    ensures SmallerAt(a, b, k + 1) <==> SmallerAt(a[1..], b[1..], k)
  {
    if k < |a| && k < |b| - 1 {
      assert a[..k + 1] == [a[0]] + a[1..][..k] && b[..k + 1] == [b[0]] + b[1..][..k];
      assert a[1..][..k] == a[..k + 1][1..] && b[1..][..k] == b[..k + 1][1..];
    }
  }

  /** The order is decided by the first difference, and a prefix comes first. */
  lemma {:induction false} LessIs(a: string, b: string)
    ensures Less(a, b) <==> exists k: nat :: SmallerAt(a, b, k)
  {
    if b != [] && (a == [] || a[0] < b[0]) {
      assert SmallerAt(a, b, 0);
    } else if a != [] && b != [] && a[0] == b[0] {
      LessIs(a[1..], b[1..]);
      if k: nat :| SmallerAt(a[1..], b[1..], k) { SmallerBehind(a, b, k); }
      if k: nat :| SmallerAt(a, b, k) { SmallerBehind(a, b, k - 1); }
    }
  }

  lemma {:induction false} LessOrders(a: string, b: string)
    ensures Less(a, b) ==> !Less(b, a) && a != b
    ensures a == b || Less(a, b) || Less(b, a)
  {
    if a != [] && b != [] && a[0] == b[0] {
      LessOrders(a[1..], b[1..]);
      assert a == [a[0]] + a[1..] && b == [b[0]] + b[1..];
    }
  }

  lemma {:induction false} LessTransitive(a: string, b: string, c: string)
    requires Less(a, b) && Less(b, c)
    ensures Less(a, c)
  {
    if a != [] && a[0] == b[0] == c[0] { LessTransitive(a[1..], b[1..], c[1..]); }
  }

  /** A multimap in iteration order: a new entry goes behind all entries with the same key. */
  function Emplace(ps: seq<Pair>, p: Pair): seq<Pair> {
    if ps == [] then [p] else if Less(p.0, ps[0].0) then [p] + ps else [ps[0]] + Emplace(ps[1..], p)
  }

  function EmplaceAll(ps: seq<Pair>, qs: seq<Pair>): seq<Pair>
    decreases |qs|
  {
    if qs == [] then ps else EmplaceAll(Emplace(ps, qs[0]), qs[1..])
  }

  lemma {:induction false} EmplaceLast(ps: seq<Pair>, p: Pair)
    requires forall i :: 0 <= i < |ps| ==> !Less(p.0, ps[i].0)
    ensures Emplace(ps, p) == ps + [p]
  {
    if ps != [] { EmplaceLast(ps[1..], p); }
  }

  lemma {:induction false} EmplaceSorted(ps: seq<Pair>, qs: seq<Pair>)
    requires Sorted(ps + qs)
    ensures EmplaceAll(ps, qs) == ps + qs
    decreases |qs|
  {
    if qs == [] {
      assert ps + qs == ps;
    } else {
      assert (ps + qs)[|ps|] == qs[0] && forall i :: 0 <= i < |ps| ==> (ps + qs)[i] == ps[i];
      EmplaceLast(ps, qs[0]);
      assert ps + qs == (ps + [qs[0]]) + qs[1..];
      EmplaceSorted(ps + [qs[0]], qs[1..]);
    }
  }

  function ValueSize(ps: seq<Pair>): nat { if ps == [] then 0 else |ps[0].1| + ValueSize(ps[1..]) }

  lemma {:induction false} EmplaceKeeps(ps: seq<Pair>, p: Pair)
    ensures |Emplace(ps, p)| == |ps| + 1 && ValueSize(Emplace(ps, p)) == ValueSize(ps) + |p.1|
    ensures forall x :: x in Emplace(ps, p) ==> x in ps || x == p
  {
    if ps != [] {
      assert ps == [ps[0]] + ps[1..];
      if Less(p.0, ps[0].0) {
        assert ([p] + ps)[1..] == ps;
      } else {
        EmplaceKeeps(ps[1..], p);
        var t := Emplace(ps[1..], p);
        assert ([ps[0]] + t)[1..] == t;
      }
    }
  }

  /** A multimap holds what was put in, no more and no less. */
  lemma {:induction false} EmplaceAllKeeps(ps: seq<Pair>, qs: seq<Pair>)
    ensures |EmplaceAll(ps, qs)| == |ps| + |qs| && ValueSize(EmplaceAll(ps, qs)) == ValueSize(ps) + ValueSize(qs)
    ensures forall x :: x in EmplaceAll(ps, qs) ==> x in ps || x in qs
    decreases |qs|
  {
    if qs != [] {
      EmplaceKeeps(ps, qs[0]);
      EmplaceAllKeeps(Emplace(ps, qs[0]), qs[1..]);
      assert qs == [qs[0]] + qs[1..];
    }
  }

  /** The values of one key, in iteration order. */
  function Values(ps: seq<Pair>, key: string): seq<string> {
    if ps == [] then [] else (if ps[0].0 == key then [ps[0].1] else []) + Values(ps[1..], key)
  }

  lemma {:induction false} NoValues(ps: seq<Pair>, key: string)
    requires forall i :: 0 <= i < |ps| ==> ps[i].0 != key
    ensures Values(ps, key) == []
  {
    if ps != [] { NoValues(ps[1..], key); }
  }

  /** Behind a greater key there are only greater ones. */
  lemma GreaterRest(ps: seq<Pair>, key: string)
    requires Sorted(ps) && ps != [] && Less(key, ps[0].0)
    ensures forall i :: 0 <= i < |ps| ==> Less(key, ps[i].0) && ps[i].0 != key
  {
    forall i | 0 <= i < |ps| ensures Less(key, ps[i].0) && ps[i].0 != key {
      LessOrders(ps[0].0, ps[i].0);
      if ps[0].0 != ps[i].0 { LessTransitive(key, ps[0].0, ps[i].0); }
      LessOrders(key, ps[i].0);
    }
  }

  /** An entry goes behind the values of its key, and the keys stay in order. */
  lemma {:induction false} EmplacePlaces(ps: seq<Pair>, p: Pair, key: string)
    requires Sorted(ps)
    ensures Sorted(Emplace(ps, p))
    ensures Values(Emplace(ps, p), key) == Values(ps, key) + if p.0 == key then [p.1] else []
  {
    if ps != [] {
      assert Sorted(ps[1..]);
      if Less(p.0, ps[0].0) {
        EmplaceFront(ps, p, key);
      } else {
        EmplacePlaces(ps[1..], p, key);
        EmplaceKeeps(ps[1..], p);
        EmplaceBehind(ps, p, Emplace(ps[1..], p));
        assert ([ps[0]] + Emplace(ps[1..], p))[1..] == Emplace(ps[1..], p);
      }
    }
  }

  lemma EmplaceFront(ps: seq<Pair>, p: Pair, key: string)
    requires Sorted(ps) && ps != [] && Less(p.0, ps[0].0)
    ensures Sorted([p] + ps)
    ensures Values([p] + ps, key) == Values(ps, key) + if p.0 == key then [p.1] else []
  {
    GreaterRest(ps, p.0);
    forall i | 0 <= i < |ps| ensures !Less(ps[i].0, p.0) { LessOrders(p.0, ps[i].0); }
    assert ([p] + ps)[1..] == ps;
    if p.0 == key { NoValues(ps, key); }
  }

  lemma EmplaceBehind(ps: seq<Pair>, p: Pair, t: seq<Pair>)
    requires Sorted(ps) && ps != [] && !Less(p.0, ps[0].0) && Sorted(t)
    requires forall x :: x in t ==> x in ps[1..] || x == p
    ensures Sorted([ps[0]] + t)
  {
    forall j | 0 <= j < |t| ensures !Less(t[j].0, ps[0].0) {
      assert t[j] in t;
      if t[j] in ps[1..] {
        var k :| 0 <= k < |ps| - 1 && ps[1..][k] == t[j];
        assert ps[k + 1] == t[j];
      }
    }
  }

  /** The multimap has its keys in order, and for each key the old values and then the new ones as they came. */
  lemma {:induction false} MultimapIs(ps: seq<Pair>, qs: seq<Pair>, key: string)
    requires Sorted(ps)
    ensures Sorted(EmplaceAll(ps, qs)) && Values(EmplaceAll(ps, qs), key) == Values(ps, key) + Values(qs, key)
    decreases |qs|
  {
    if qs != [] {
      EmplacePlaces(ps, qs[0], key);
      MultimapIs(Emplace(ps, qs[0]), qs[1..], key);
    }
  }

  /** `r` is what parsing the text of `p` alone gives, and that text holds no '&'. */
  ghost predicate Uncut(p: Pair, r: Pair) {
    Bytes(p.1) && '&' !in Printed(p) && r == ParsePair(Printed(p))
  }

  /** If as many pairs come back as were printed, no text was cut at a '&'. */
  lemma {:induction false} SameCount(ps: seq<Pair>, rs: seq<Pair>)
    requires AllBytes(ps) && rs == Parse(Build(ps)) && |rs| == |ps|
    ensures forall i :: 0 <= i < |ps| ==> Uncut(ps[i], rs[i])
    decreases |ps|
  {
    if ps != [] {
      ParseFirst(ps);
      ParseCount(ps[1..]);
      UncutPair(ps[0]);
      var more := Parse(Build(ps[1..]));
      assert rs[0] == ParsePair(Printed(ps[0])) && rs[1..] == more;
      SameCount(ps[1..], more);
      forall i | 0 <= i < |ps|
        ensures Uncut(ps[i], rs[i])
      {
        if i > 0 { assert Uncut(ps[1..][i - 1], more[i - 1]); }
      }
    }
  }

  lemma UncutPair(p: Pair)
    requires Bytes(p.1) && |Pieces(Printed(p), '&')| == 1
    ensures '&' !in Printed(p) && ParseAll(Pieces(Printed(p), '&')) == [ParsePair(Printed(p))]
  {
    OnePiece(Printed(p), '&');
    PiecesWhole(Printed(p), '&');
    assert |ParseAll([Printed(p)])| == 1;
  }

  /** Pairs that parsing can give at all. */
  predicate Possible(p: Pair) { '=' !in p.0 && (p.0 == [] ==> p.1 == []) }

  lemma ValueShrinks(p: Pair, r: Pair)
    requires Bytes(p.1) && Possible(p) && Uncut(p, r)
    ensures |r.1| <= |p.1| && (|r.1| == |p.1| ==> Intact(p))
  {
    if p.0 == [] {
      KeyAbsent(p);
      assert !HasEscape([]);
    } else {
      KeyPresent(p);
    }
  }

  /** Values only shrink, and all stay the same only when every pair is intact. */
  lemma {:induction false} ValuesShrink(ps: seq<Pair>, rs: seq<Pair>)
    requires |rs| == |ps| && AllBytes(ps) && forall i :: 0 <= i < |ps| ==> Possible(ps[i])
    requires forall i :: 0 <= i < |ps| ==> Uncut(ps[i], rs[i])
    ensures ValueSize(rs) <= ValueSize(ps)
    ensures ValueSize(rs) == ValueSize(ps) ==> forall i :: 0 <= i < |ps| ==> Intact(ps[i])
    decreases |ps|
  {
    if ps != [] {
      assert Possible(ps[0]) && Uncut(ps[0], rs[0]) && Bytes(ps[0].1);
      ValueShrinks(ps[0], rs[0]);
      ValuesShrink(ps[1..], rs[1..]);
      assert ps == [ps[0]] + ps[1..];
    }
  }

  /** For every multimap of parameters: what the server parses into an empty multimap is what the
      client printed if and only if every parameter is clean. */
  lemma MultimapExactlyWhen(ps: seq<Pair>)
    requires AllBytes(ps) && Sorted(ps)
    ensures EmplaceAll([], Parse(Build(ps))) == ps <==> AllClean(ps)
  {
    RoundTripExactlyWhenClean(ps);
    var rs := Parse(Build(ps));
    if AllClean(ps) {
      assert [] + ps == ps;
      EmplaceSorted([], ps);
    } else if EmplaceAll([], rs) == ps {
      EmplaceAllKeeps([], rs);
      SameCount(ps, rs);
      forall i | 0 <= i < |ps|
        ensures Possible(ps[i])
      {
        assert ps[i] in rs;
        var j :| 0 <= j < |rs| && rs[j] == ps[i];
        assert Uncut(ps[j], rs[j]);
        Produced(Printed(ps[j]));
      }
      ValuesShrink(ps, rs);
      forall i | 0 <= i < |ps|
        ensures Clean(ps[i])
      {
        assert Intact(ps[i]) && Uncut(ps[i], rs[i]);
        SeparatorInPair(ps[i]);
      }
    }
  }

  method BuildQuery(ps: seq<Pair>) returns (query: string)
    requires AllBytes(ps)
    ensures query == Build(ps)
  {
    query := "";
    assert query + Remaining(ps, 0) == Build(ps);
    for n := 0 to |ps|
      invariant query + Remaining(ps, n) == Build(ps)
    {
      RemainingNext(ps, n, query);
      if n != 0 {
        query := query + "&";
      }
      query := query + ps[n].0;
      query := query + "=";
      var value := EncodeUrl(ps[n].1);
      query := query + value;
    }
    assert query + [] == query;
  }

  /** What is still to be printed once `n` pairs have been. */
  function Remaining(ps: seq<Pair>, n: nat): string
    requires AllBytes(ps) && n <= |ps|
  {
    if n == 0 then Build(ps) else if n == |ps| then [] else "&" + BuildFrom(ps, n)
  }

  function BuildFrom(ps: seq<Pair>, n: nat): string
    requires AllBytes(ps) && n <= |ps|
  {
    Build(ps[n..])
  }

  lemma BuildFromNext(ps: seq<Pair>, n: nat)
    requires AllBytes(ps) && n < |ps|
    ensures Bytes(ps[n].1) && BuildFrom(ps, n) == Printed(ps[n]) + Remaining(ps, n + 1)
  {
    assert Bytes(ps[n].1) && ps[n..][0] == ps[n] && ps[n..][1..] == ps[n + 1..];
    if n + 1 < |ps| {
      Regroup(Printed(ps[n]), "&", BuildFrom(ps, n + 1));
    } else {
      assert Printed(ps[n]) + [] == Printed(ps[n]);
    }
  }

  lemma RemainingNext(ps: seq<Pair>, n: nat, query: string)
    requires AllBytes(ps) && n < |ps|
    ensures Bytes(ps[n].1)
    ensures var sep := if n == 0 then query else query + "&";
      query + Remaining(ps, n) == sep + ps[n].0 + "=" + Encode(ps[n].1) + Remaining(ps, n + 1)
  {
    BuildFromNext(ps, n);
    assert ps[0..] == ps;
    var r, sep := Remaining(ps, n + 1), if n == 0 then query else query + "&";
    var k, v := ps[n].0, Encode(ps[n].1);
    FourParts(sep, k, v, r);
    if n > 0 { Regroup(query, "&", BuildFrom(ps, n)); }
  }

  lemma FourParts(sep: string, k: string, v: string, r: string)
    ensures sep + (k + "=" + v + r) == sep + k + "=" + v + r
  {
  }

  method ParseQueryText(s: string, params: seq<Pair>) returns (out: seq<Pair>)
    ensures out == EmplaceAll(params, Parse(s))
  {
    out := params;
    var pieces := SplitText(s, '&');
    ghost var all := Parse(s);
    assert all[0..] == all;
    for n := 0 to |pieces|
      invariant EmplaceAll(params, all) == EmplaceAll(out, all[n..])
    {
      var p := ParseOne(pieces[n]);
      assert all[n..][0] == p && all[n..][1..] == all[n + 1..];
      out := Emplace(out, p);
    }
  }

  /** The query travels from client to server and is the same multimap there, exactly when clean. */
  method ClientToServer(ps: seq<Pair>) returns (out: seq<Pair>)
    requires AllBytes(ps) && Sorted(ps)
    ensures out == ps <==> AllClean(ps)
  {
    var query := BuildQuery(ps);
    out := ParseQueryText(query, []);
    MultimapExactlyWhen(ps);
  }

  // ---- Instances -------------------------------------------------------------------------------

  predicate Plain(s: string) { forall i :: 0 <= i < |s| ==> 'a' <= s[i] <= 'z' }

  lemma {:induction false} PlainEncodes(s: string)
    requires Plain(s)
    ensures Bytes(s) && Escapes(s) == s && !HasEscape(s) && Decode(s) == s && '\0' !in s && '&' !in s && '=' !in s
  {
    if s != [] {
      PlainEncodes(s[1..]);
      assert [s[0]] + s[1..] == s && EscapeChar(s[0]) == [s[0]];
    }
    DecodedIsSame(s);
  }

  /** A separator inside a plain value goes into the query as it is. */
  lemma SeparatorPrinted(k: string, a: string, d: char, b: string)
    requires Plain(a) && Plain(b) && (d == '&' || d == '=')
    ensures Bytes(a + [d] + b) && Printed((k, a + [d] + b)) == k + "=" + (a + [d] + b)
  {
    var v := a + [d] + b;
    PlainEncodes(a);
    PlainEncodes(b);
    EscapesConcat(a, [d] + b);
    EscapesConcat([d], b);
    Regroup(a, [d], b);
    assert Escapes([d]) == [d] by { assert [d][1..] == []; }
    assert '\0' !in v;
  }

  lemma PlainPair(k: string, a: string)
    requires Plain(k) && k != [] && Plain(a)
    ensures ParsePair(k + "=" + a) == (k, a) && '&' !in k + "=" + a
  {
    PlainEncodes(k);
    PlainEncodes(a);
    PiecesJoin(k, '=', a);
    PiecesWhole(k, '=');
    PiecesWhole(a, '=');
    assert [k] + [a] == [k, a];
    LastIsValue([a], k, []);
  }

  lemma PlainKey(b: string)
    requires Plain(b) && b != []
    ensures ParsePair(b) == (b, [])
  {
    PlainEncodes(b);
    PiecesWhole(b, '=');
    LastIsValue([], b, []);
  }

  lemma TwoPieces(a: string, b: string)
    requires '&' !in a && '&' !in b && a != [] && b != []
    ensures Split(a + "&" + b, '&') == [a, b]
  {
    PiecesJoin(a, '&', b);
    PiecesWhole(a, '&');
    PiecesWhole(b, '&');
    assert [a] + [b] == [a, b];
  }

  lemma CutAtAmpersand(k: string, a: string, b: string)
    requires Plain(k) && k != [] && Plain(a) && Plain(b) && b != []
    ensures AllBytes([(k, a + "&" + b)]) && Parse(Build([(k, a + "&" + b)])) == [(k, a), (b, [])]
  {
    SeparatorPrinted(k, a, '&', b);
    var first := k + "=" + a;
    assert k + "=" + (a + "&" + b) == first + "&" + b;
    PlainPair(k, a);
    PlainKey(b);
    PlainEncodes(b);
    TwoPieces(first, b);
  }

  /** The value a&b is cut: the server sees the value a, and a second parameter b. */
  lemma AmpersandCounterexample()
    ensures AllBytes([("k", "a&b")]) && Parse(Build([("k", "a&b")])) == [("k", "a"), ("b", "")]
  {
    CutAtAmpersand("k", "a", "b");
    assert "a" + "&" + "b" == "a&b";
  }

  lemma ThreePieces(k: string, a: string, b: string)
    requires '=' !in k && '=' !in a && '=' !in b
    ensures Split(k + "=" + (a + "=" + b), '=') == [k, a, b]
  {
    PiecesJoin(k, '=', a + "=" + b);
    PiecesJoin(a, '=', b);
    PiecesWhole(k, '=');
    PiecesWhole(a, '=');
    PiecesWhole(b, '=');
  }

  lemma LastOfThree(k: string, a: string, b: string)
    requires Plain(k) && k != [] && Plain(a) && Plain(b)
    ensures var t := k + "=" + (a + "=" + b); ParsePair(t) == (k, b) && '&' !in t
  {
    PlainEncodes(k);
    PlainEncodes(a);
    PlainEncodes(b);
    ThreePieces(k, a, b);
    assert [k, a, b][1..] == [a, b];
    LastIsValue([a, b], k, []);
  }

  lemma CutAtEquals(k: string, a: string, b: string)
    requires Plain(k) && k != [] && Plain(a) && Plain(b)
    ensures AllBytes([(k, a + "=" + b)]) && Parse(Build([(k, a + "=" + b)])) == [(k, b)]
  {
    SeparatorPrinted(k, a, '=', b);
    LastOfThree(k, a, b);
    PiecesWhole(k + "=" + (a + "=" + b), '&');
  }

  /** Of the value a=b only b arrives. */
  lemma EqualsCounterexample()
    ensures AllBytes([("k", "a=b")]) && Parse(Build([("k", "a=b")])) == [("k", "b")]
  {
    CutAtEquals("k", "a", "b");
    assert "a" + "=" + "b" == "a=b";
  }
}
