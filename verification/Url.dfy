/**
  Percent-encoding of form values, section 2.1 of RFC 3986, as the HTTP client writes it and
  the server reads it back.
 */
module Url {
  import opened Common
  import opened HttpText

  predicate IsByte(c: char) { c as int < 256 }

  predicate Bytes(s: string) { forall i :: 0 <= i < |s| ==> IsByte(s[i]) }

  // ---- Encoding --------------------------------------------------------------------------

  const UPPER_HEX: string := "0123456789ABCDEF"

  predicate MustEscape(c: char) {
    c == ' ' || c == '+' || c == '\r' || c == '\n' || c == '\'' || c == ',' || c == ';' || 0x80 <= c as int
  }

  function HexPair(n: nat): (r: string)
    requires n < 256
    ensures |r| == 2
  {
    [UPPER_HEX[n / 16], UPPER_HEX[n % 16]]
  }

  function EscapeChar(c: char): (r: string)
    requires IsByte(c)
    ensures r != []
  {
    if MustEscape(c) then "%" + HexPair(c as int) else [c]
  }

  function Escapes(s: string): (r: string)
    requires Bytes(s)
    ensures |r| >= |s|
  {
    if s == [] then [] else EscapeChar(s[0]) + Escapes(s[1..])
  }

  /** The encoder stops at a NUL. */
  function Encode(s: string): string
    requires Bytes(s)
  {
    Escapes(CStr(s))
  }

  lemma EscapeTable()
    ensures HexPair(' ' as int) == "20" && HexPair('+' as int) == "2B" && HexPair('\r' as int) == "0D"
    ensures HexPair('\n' as int) == "0A" && HexPair('\'' as int) == "27" && HexPair(',' as int) == "2C"
    ensures HexPair(';' as int) == "3B"
  {
  }

  lemma {:induction false} EscapesPush(s: string, c: char)
    requires Bytes(s + [c])
    ensures Bytes(s) && IsByte(c) && Escapes(s + [c]) == Escapes(s) + EscapeChar(c)
  {
    assert (s + [c])[|s|] == c;
    assert forall i :: 0 <= i < |s| ==> (s + [c])[i] == s[i];
    if s == [] {
      assert Escapes([]) == [] && s + [c] == [c];
      assert [c][1..] == [];
    } else {
      assert (s + [c])[1..] == s[1..] + [c];
      EscapesPush(s[1..], c);
    }
  }

  lemma {:induction false} CStrIs(s: string, n: nat)
    requires n <= |s| && '\0' !in s[..n] && (n == |s| || s[n] == '\0')
    ensures CStr(s) == s[..n]
  {
    if n > 0 {
      assert s[..n][0] == s[0] && s[1..][..n - 1] == s[..n][1..];
      CStrIs(s[1..], n - 1);
    }
  }

  method EncodeUrl(s: string) returns (result: string)
    requires Bytes(s)
    ensures result == Encode(s)
  {
    result := "";
    var i := 0;
    EscapeTable();
    while i < |s| && s[i] != '\0'
      invariant 0 <= i <= |s| && '\0' !in s[..i] && result == Escapes(s[..i])
    {
      assert s[..i + 1] == s[..i] + [s[i]];
      EscapesPush(s[..i], s[i]);
      result := result + EncodeOne(s[i]);
      i := i + 1;
    }
    CStrIs(s, i);
  }

  /** The cases of the encoder, spelled out. */
  function EncodeOne(c: char): (r: string)
    requires IsByte(c)
    ensures r == EscapeChar(c)
  {
    EscapeTable();
    if c == ' ' then "%20"
    else if c == '+' then "%2B"
    else if c == '\r' then "%0D"
    else if c == '\n' then "%0A"
    else if c == '\'' then "%27"
    else if c == ',' then "%2C"
    else if c == ';' then "%3B"
    else if c as int >= 0x80 then "%" + HexPair(c as int)
    else [c]
  }

  // ---- Decoding ----------------------------------------------------------------------------

  /** The number in `cnt` hexadecimal digits at place `i`. */
  function HexAt(s: string, i: nat, cnt: nat): (r: Option<nat>) {
    if i + cnt <= |s| && AllHex(s[i..i + cnt]) then Some(HexValue(s[i..i + cnt])) else None
  }

  function ToUtf8(code: nat): (r: string)
    requires code < 0x1_0000
    ensures |r| <= 3
  {
    if code < 0x80 then [code as char]
    else if code < 0x800 then [(0xC0 + code / 64) as char, (0x80 + code % 64) as char]
    else if code < 0xD800 || code >= 0xE000 then
      [(0xE0 + code / 4096) as char, (0x80 + code / 64 % 64) as char, (0x80 + code % 64) as char]
    else []
  }

  /** What the decoder takes at the start of `s`: the characters it gives and how many it uses. */
  function DecodeOne(s: string): (r: (string, nat))
    requires s != []
    ensures 1 <= r.1 <= |s| && |r.0| <= r.1
  {
    if s[0] == '%' && |s| > 1 then
      if s[1] == 'u' then
        var v := HexAt(s, 2, 4);
        if v.Some? then HexSmall(s[2..6]); (ToUtf8(v.value), 6) else ("%", 1)
      else
        var v := HexAt(s, 1, 2);
        if v.Some? then HexSmall(s[1..3]); ([v.value as char], 3) else ("%", 1)
    else if s[0] == '+' then (" ", 1)
    else ([s[0]], 1)
  }

  lemma HexSmall(d: string)
    requires AllHex(d) && |d| <= 4
    ensures HexValue(d) < 0x1_0000 && (|d| <= 2 ==> HexValue(d) < 256)
  {
    HexBound(d);
    PowerFacts();
  }

  function Power16(n: nat): nat { if n == 0 then 1 else 16 * Power16(n - 1) }

  lemma PowerFacts()
    ensures Power16(0) == 1 && Power16(1) == 16 && Power16(2) == 256 && Power16(3) == 4096 && Power16(4) == 0x1_0000
  {
  }

  lemma {:induction false} HexBound(d: string)
    requires AllHex(d)
    ensures HexValue(d) < Power16(|d|)
  {
    if d != [] {
      HexBound(d[..|d| - 1]);
      assert IsHex(d[|d| - 1]);
    }
  }

  function Decode(s: string): (r: string)
    ensures |r| <= |s|
  {
    if s == [] then [] else
      var (out, used) := DecodeOne(s);
      out + Decode(s[used..])
  }

  lemma HexPush(s: string, start: nat, i: nat)
    requires start <= i < |s| && AllHex(s[start..i]) && IsHex(s[i])
    ensures AllHex(s[start..i + 1]) && HexValue(s[start..i + 1]) == HexValue(s[start..i]) * 16 + HexDigit(s[i]).value
  {
    var d := s[start..i + 1];
    assert d[..|d| - 1] == s[start..i];
  }

  lemma NoHexAt(s: string, start: nat, count: nat, i: nat)
    requires start <= i < start + count && (i >= |s| || !IsHex(s[i]))
    ensures HexAt(s, start, count) == None
  {
    if start + count <= |s| { assert s[start..start + count][i - start] == s[i]; }
  }

  /** Reads digits one at a time and stops at the first that is none, or at the end. */
  method FromHexToI(s: string, start: nat, count: nat) returns (val: Option<nat>)
    requires count > 0
    ensures val == HexAt(s, start, count)
  {
    if start >= |s| {
      return None;
    }
    var v, i, cnt := 0, start, count;
    while cnt > 0
      invariant 0 <= cnt <= count && i == start + (count - cnt) <= |s|
      invariant AllHex(s[start..i]) && v == HexValue(s[start..i])
    {
      if i == |s| || s[i] == '\0' {
        NoHexAt(s, start, count, i);
        return None;
      }
      var d := HexDigit(s[i]);
      if d.None? {
        NoHexAt(s, start, count, i);
        return None;
      }
      HexPush(s, start, i);
      v := v * 16 + d.value;
      i, cnt := i + 1, cnt - 1;
    }
    val := Some(v);
  }

  /** One round of the decoding loop. */
  method DecodeStep(s: string, i: nat) returns (out: string, used: nat)
    requires i < |s|
    ensures (out, used) == DecodeOne(s[i..])
  {
    var t := s[i..];
    if s[i] == '%' && i + 1 < |s| {
      if s[i + 1] == 'u' {
        var val := FromHexToI(t, 2, 4);
        if val.Some? {
          HexSmall(t[2..6]);
          return ToUtf8(val.value), 6;
        }
        return "%", 1;
      }
      var val := FromHexToI(t, 1, 2);
      if val.Some? {
        HexSmall(t[1..3]);
        return [val.value as char], 3;
      }
      return "%", 1;
    }
    if s[i] == '+' {
      return " ", 1;
    }
    return [s[i]], 1;
  }

  lemma DecodeNext(s: string, i: nat, result: string, out: string, used: nat)
    requires i < |s| && (out, used) == DecodeOne(s[i..])
    ensures i + used <= |s| && result + Decode(s[i..]) == (result + out) + Decode(s[i + used..])
  {
    assert s[i..][used..] == s[i + used..];
  }

  method DecodeUrl(s: string) returns (result: string)
    ensures result == Decode(s)
  {
    result := "";
    var i := 0;
    DecodingStarts(s);
    while i < |s|
      invariant i <= |s| && Decoding(s, i, result)
    {
      var out, used := DecodeStep(s, i);
      DecodingNext(s, i, result, out, used);
      result := result + out;
      i := i + used;
    }
    DecodingEnds(s, result);
  }

  /** What is decoded so far, with the decoding of the rest, is the whole. */
  ghost predicate Decoding(s: string, i: nat, result: string) { i <= |s| && Decode(s) == result + Decode(s[i..]) }

  lemma DecodingStarts(s: string)
    ensures Decoding(s, 0, "")
  {
    assert s[0..] == s;
  }

  lemma DecodingNext(s: string, i: nat, result: string, out: string, used: nat)
    requires Decoding(s, i, result) && i < |s| && (out, used) == DecodeOne(s[i..])
    ensures Decoding(s, i + used, result + out)
  {
    DecodeNext(s, i, result, out, used);
  }

  lemma DecodingEnds(s: string, result: string)
    requires Decoding(s, |s|, result)
    ensures result == Decode(s)
  {
    assert s[|s|..] == [] && result + [] == result;
  }

  // ---- When decoding undoes encoding --------------------------------------------------------------

  /** `s` starts with something that the decoder reads as an escape. */
  predicate EscapeHere(s: string) {
    |s| > 1 && s[0] == '%' && if s[1] == 'u' then HexAt(s, 2, 4).Some? else HexAt(s, 1, 2).Some?
  }

  /** Some '%' of the value is followed by digits that would be taken for its escape. */
  predicate HasEscape(s: string) { s != [] && (EscapeHere(s) || HasEscape(s[1..])) }

  /** The first character of an encoding is the first character, or a '%' of an escape. */
  lemma FirstEscaped(s: string)
    requires Bytes(s) && s != []
    ensures Escapes(s) != [] && Escapes(s)[0] == if MustEscape(s[0]) then '%' else s[0]
    ensures !MustEscape(s[0]) ==> Escapes(s) == [s[0]] + Escapes(s[1..])
  {
  }

  /** Digits at the front of an encoding are digits at the front of the value. */
  lemma {:induction false} HexPrefix(s: string, k: nat)
    requires Bytes(s)
    ensures (k <= |Escapes(s)| && AllHex(Escapes(s)[..k])) <==> (k <= |s| && AllHex(s[..k]))
    ensures k <= |s| && AllHex(s[..k]) ==> Escapes(s)[..k] == s[..k] && Escapes(s)[k..] == Escapes(s[k..])
  {
    var t := Escapes(s);
    if k == 0 {
      assert t[0..] == t && s[0..] == s;
    } else if s != [] {
      FirstEscaped(s);
      if !MustEscape(s[0]) {
        HexPrefix(s[1..], k - 1);
        HexFirst(s, k);
        HexFirst(t, k);
        assert t[1..] == Escapes(s[1..]);
        if k <= |s| { assert s[1..][k - 1..] == s[k..]; }
        if k <= |t| { assert t[1..][k - 1..] == t[k..]; }
      } else {
        HexFirst(s, k);
        HexFirst(t, k);
        assert !IsHex(s[0]) && !IsHex('%');
      }
    }
  }

  lemma HexFirst(s: string, k: nat)
    requires s != [] && k > 0
    ensures k <= |s| ==> (AllHex(s[..k]) <==> IsHex(s[0]) && AllHex(s[1..][..k - 1]))
    ensures k <= |s| ==> s[..k] == [s[0]] + s[1..][..k - 1]
  {
    if k <= |s| {
      assert s[..k] == [s[0]] + s[1..][..k - 1];
    }
  }

  /** How many characters of the value an escape at its front would use up. */
  function EscapeLength(s: string): nat { if |s| > 1 && s[1] == 'u' then 6 else 3 }

  /** A literal '%' is read as an escape after encoding exactly when it was one before. */
  lemma EscapeKept(s: string)
    requires Bytes(s) && s != [] && s[0] == '%'
    ensures EscapeHere(Escapes(s)) <==> EscapeHere(s)
    ensures EscapeHere(s) ==> EscapeLength(Escapes(s)) == EscapeLength(s) <= |s|
    ensures EscapeHere(s) ==>
      EscapeLength(s) <= |Escapes(s)| && Escapes(s)[EscapeLength(s)..] == Escapes(s[EscapeLength(s)..])
  {
    FirstEscaped(s);
    if |s| > 1 {
      FirstEscaped(s[1..]);
      if s[1] == 'u' { UnicodeKept(s); } else { PairKept(s); }
    }
  }

  lemma PairKept(s: string)
    requires Bytes(s) && |s| > 1 && s[0] == '%'
    ensures Escapes(s) == "%" + Escapes(s[1..])
    ensures HexAt(Escapes(s), 1, 2).Some? <==> HexAt(s, 1, 2).Some?
    ensures HexAt(s, 1, 2).Some? ==> 3 <= |s| && 3 <= |Escapes(s)| && Escapes(s)[3..] == Escapes(s[3..])
  {
    FirstEscaped(s);
    assert s == "%" + s[1..];
    DigitsKept("%", s[1..], s, Escapes(s), 2);
  }

  lemma TwoFront(t: string, r: string, e: string, x: char, y: char)
    requires t == [x] + r && r == [y] + e
    ensures t == [x, y] + e
  {
  }

  lemma UnicodeShape(s: string, r: string, q: string)
    requires Bytes(s) && s == "%" + r && r == "u" + q && Bytes(r) && Bytes(q)
    ensures Escapes(s) == "%u" + Escapes(q)
  {
    FirstEscaped(s);
    FirstEscaped(r);
    assert s[1..] == r && r[1..] == q;
    TwoFront(Escapes(s), Escapes(r), Escapes(q), '%', 'u');
  }

  lemma UnicodeKept(s: string)
    requires Bytes(s) && |s| > 1 && s[0] == '%' && s[1] == 'u'
    ensures Escapes(s) == "%u" + Escapes(s[2..])
    ensures HexAt(Escapes(s), 2, 4).Some? <==> HexAt(s, 2, 4).Some?
    ensures HexAt(s, 2, 4).Some? ==> 6 <= |s| && 6 <= |Escapes(s)| && Escapes(s)[6..] == Escapes(s[6..])
  {
    assert s == "%" + s[1..] && s[1..] == "u" + s[2..];
    TwoFront(s, s[1..], s[2..], '%', 'u');
    UnicodeShape(s, s[1..], s[2..]);
    DigitsKept("%u", s[2..], s, Escapes(s), 4);
  }

  /** Digits behind a literal prefix are kept. */
  lemma DigitsKept(a: string, q: string, s: string, t: string, k: nat)
    requires Bytes(q) && s == a + q && t == a + Escapes(q)
    ensures HexAt(t, |a|, k).Some? <==> HexAt(s, |a|, k).Some?
    ensures HexAt(s, |a|, k).Some? ==>
      |a| + k <= |s| && |a| + k <= |t| && t[|a| + k..] == Escapes(s[|a| + k..])
  {
    HexPrefix(q, k);
    SliceAfter(a, q, k);
    SliceAfter(a, Escapes(q), k);
  }

  lemma SliceAfter(a: string, b: string, k: nat)
    ensures k <= |b| ==> (a + b)[|a|..|a| + k] == b[..k] && (a + b)[|a| + k..] == b[k..]
  {
  }

  lemma DigitsOfPair(n: nat)
    requires n < 256
    ensures AllHex(HexPair(n)) && HexValue(HexPair(n)) == n && HexPair(n)[0] != 'u'
  {
    UpperDigit(n / 16);
    UpperDigit(n % 16);
    var d := HexPair(n);
    assert d[..1] == [d[0]] && d[..1][..0] == [];
    assert HexValue(d[..1]) == n / 16;
  }

  lemma UpperDigit(d: nat)
    requires d < 16
    ensures HexDigit(UPPER_HEX[d]) == Some(d)
  {
  }

  /** An escaped character at the front is decoded to itself. */
  lemma EscapedFirst(s: string)
    requires Bytes(s) && s != [] && MustEscape(s[0])
    ensures Decode(Escapes(s)) == [s[0]] + Decode(Escapes(s[1..]))
  {
    EscapesFirst(s);
    PairDecodes(Escapes(s), s[0] as int, Escapes(s[1..]));
  }

  lemma EscapesFirst(s: string)
    requires Bytes(s) && s != [] && MustEscape(s[0])
    ensures Escapes(s) == "%" + (HexPair(s[0] as int) + Escapes(s[1..]))
  {
  }

  lemma PairDecodes(t: string, n: nat, rest: string)
    requires n < 256 && t == "%" + (HexPair(n) + rest)
    ensures Decode(t) == [n as char] + Decode(rest)
  {
    var h := HexPair(n);
    DigitsOfPair(n);
    assert t[1..3] == h && t[3..] == rest && t[1] == h[0];
    assert DecodeOne(t) == ([n as char], 3);
  }

  /** A character that is not an escape is decoded to itself. */
  lemma PlainFirst(s: string)
    requires Bytes(s) && s != [] && !EscapeHere(s)
    ensures Decode(Escapes(s)) == [s[0]] + Decode(Escapes(s[1..]))
  {
    if MustEscape(s[0]) {
      EscapedFirst(s);
    } else {
      var t := Escapes(s);
      FirstEscaped(s);
      assert t[1..] == Escapes(s[1..]);
      if s[0] == '%' { EscapeKept(s); }
    }
  }

  /** An escape at the front is decoded to fewer characters than it has. */
  lemma EscapeFirst(s: string)
    requires Bytes(s) && EscapeHere(s)
    ensures var k := EscapeLength(s);
      k <= |s| && |Decode(Escapes(s))| < k + |Decode(Escapes(s[k..]))|
  {
    EscapeKept(s);
  }

  lemma {:induction false} DecodedLength(s: string)
    requires Bytes(s)
    ensures |Decode(Escapes(s))| <= |s| && (HasEscape(s) ==> |Decode(Escapes(s))| < |s|)
    decreases |s|
  {
    if s != [] {
      if EscapeHere(s) {
        EscapeFirst(s);
        DecodedLength(s[EscapeLength(s)..]);
      } else {
        PlainFirst(s);
        DecodedLength(s[1..]);
      }
    }
  }

  lemma {:induction false} DecodedIsSame(s: string)
    requires Bytes(s) && !HasEscape(s)
    ensures Decode(Escapes(s)) == s
  {
    if s != [] {
      PlainFirst(s);
      DecodedIsSame(s[1..]);
      assert s == [s[0]] + s[1..];
    }
  }

  lemma CStrBytes(s: string)
    requires Bytes(s)
    ensures Bytes(CStr(s)) && ('\0' in s ==> |CStr(s)| < |s|)
  {
    var c := CStr(s);
    assert forall i :: 0 <= i < |c| ==> c[i] == s[i];
    if |c| == |s| { assert c == s; }
  }

  /** Decoding gives the value back if and only if the value has no NUL and no '%' that already
      reads as an escape: the encoder does not escape '%' itself. */
  lemma RoundTripExactlyWhen(s: string)
    requires Bytes(s)
    ensures Decode(Encode(s)) == s <==> '\0' !in s && !HasEscape(s)
  {
    CStrBytes(s);
    DecodedLength(CStr(s));
    if '\0' !in s && !HasEscape(s) {
      DecodedIsSame(s);
    }
  }

  /** The value "%41" comes back as "A". */
  lemma PercentCounterexample()
    ensures Encode("%41") == "%41" && Decode("%41") == "A"
  {
    var s := "%41";
    assert HexPair(65) == "41" && s == "%" + ("41" + "");
    PairDecodes(s, 65, "");
    LiteralEscapes(s);
    CStrIs(s, 3);
    assert s[..3] == s;
  }

  /** Characters that need no escape are copied. */
  lemma {:induction false} LiteralEscapes(s: string)
    requires Bytes(s) && forall i :: 0 <= i < |s| ==> !MustEscape(s[i])
    ensures Escapes(s) == s
  {
    if s != [] {
      LiteralEscapes(s[1..]);
      FirstEscaped(s);
    }
  }
}
