/** Text helpers of the HTTP library: hexadecimal numbers, C strings and lines. */
module HttpText {
  import opened Common

  // ---- Hexadecimal ---------------------------------------------------------------------

  function HexDigit(c: char): (v: Option<int>)
    ensures v.Some? ==> 0 <= v.value < 16
  {
    if '0' <= c <= '9' then Some(c as int - '0' as int)
    else if 'A' <= c <= 'F' then Some(c as int - 'A' as int + 10)
    else if 'a' <= c <= 'f' then Some(c as int - 'a' as int + 10)
    else None
  }

  predicate IsHex(c: char) { HexDigit(c).Some? }

  predicate AllHex(s: string) { forall i :: 0 <= i < |s| ==> IsHex(s[i]) }

  const CHARSET: string := "0123456789abcdef"

  /** The digits are those of both cases, each with its place as value, and nothing else. */
  lemma DigitIs(c: char, d: int)
    ensures HexDigit(c) == Some(d) <==>
      0 <= d < 16 && (c == "0123456789abcdef"[d] || c == "0123456789ABCDEF"[d])
  {
  }

  /** The number a run of hexadecimal digits denotes. */
  function HexValue(s: string): (n: nat)
    requires AllHex(s)
  {
    if s == [] then 0 else assert IsHex(s[|s| - 1]); HexValue(s[..|s| - 1]) * 16 + HexDigit(s[|s| - 1]).value
  }

  /** The digits of a number, most significant first and without leading zeros. */
  function Hex(n: nat): (s: string)
    ensures s != [] && AllHex(s) && (n > 0 ==> s[0] != '0')
  {
    if n < 16 then [CHARSET[n]] else Hex(n / 16) + [CHARSET[n % 16]]
  }

  lemma CharsetDigit(d: nat)
    requires d < 16
    ensures HexDigit(CHARSET[d]) == Some(d)
  {
  }

  lemma {:induction false} HexRoundTrip(n: nat)
    ensures HexValue(Hex(n)) == n
  {
    CharsetDigit(n % 16);
    if n < 16 {
      assert Hex(n)[..0] == [];
      assert HexValue([]) == 0;
    } else {
      HexRoundTrip(n / 16);
      assert Hex(n)[..|Hex(n)| - 1] == Hex(n / 16);
    }
  }

  /** The digits of what is left of a number, none when nothing is. */
  function Digits(n: nat): string { if n == 0 then [] else Hex(n) }

  lemma DigitsNext(n: nat, ret: string)
    requires n > 0
    ensures Digits(n) + ret == Digits(n / 16) + ([CHARSET[n % 16]] + ret)
  {
    if n >= 16 { Regroup(Hex(n / 16), [CHARSET[n % 16]], ret); }
  }

  method FromIToHex(value: nat) returns (ret: string)
    ensures ret == Hex(value)
  {
    var n := value;
    ret := [CHARSET[n % 16]] + "";
    n := n / 16;
    assert Hex(value) == Digits(n) + ret;
    while n > 0
      invariant Hex(value) == Digits(n) + ret
      decreases n
    {
      DigitsNext(n, ret);
      ret := [CHARSET[n % 16]] + ret;
      n := n / 16;
    }
  }

  // ---- C strings ---------------------------------------------------------------------------

  /** What a C function sees of a buffer: everything before the first NUL. */
  function CStr(s: string): (r: string)
    ensures r <= s && '\0' !in r
    ensures '\0' !in s ==> r == s
  {
    if s == [] || s[0] == '\0' then [] else
      var r := CStr(s[1..]);
      assert s == [s[0]] + s[1..];
      [s[0]] + r
  }

  predicate IsSpace(c: char) { c == ' ' || 9 as char <= c <= 13 as char }

  function SkipSpace(s: string): string { if s != [] && IsSpace(s[0]) then SkipSpace(s[1..]) else s }

  function HexRun(s: string): (r: string)
    ensures r <= s && AllHex(r)
  {
    if s == [] || !IsHex(s[0]) then [] else [s[0]] + HexRun(s[1..])
  }

  lemma {:induction false} HexRunOf(d: string, rest: string)
    requires AllHex(d) && (rest == [] || !IsHex(rest[0]))
    ensures HexRun(d + rest) == d
  {
    if d == [] {
      assert d + rest == rest;
    } else {
      assert (d + rest)[1..] == d[1..] + rest;
      HexRunOf(d[1..], rest);
    }
  }

  const INT_LIMIT: int := 0x8000_0000

  /** Drops leading blanks and a sign, and tells whether it was a minus. */
  function Unsigned(s: string): (bool, string) {
    var t := SkipSpace(s);
    if t != [] && (t[0] == '-' || t[0] == '+') then (t[0] == '-', t[1..]) else (false, t)
  }

  /** Drops a 0x that is followed by a digit. */
  function Unprefixed(u: string): string {
    if |u| >= 3 && u[0] == '0' && (u[1] == 'x' || u[1] == 'X') && IsHex(u[2]) then u[2..] else u
  }

  /** A conversion to a signed 32-bit number in base 16: blanks, a sign and a 0x prefix may come
      first; it fails without digits and when the value does not fit. */
  function StoiHex(s: string): (r: Option<int>)
    ensures r.Some? ==> -INT_LIMIT <= r.value < INT_LIMIT
  {
    var (negative, u) := Unsigned(s);
    var d := HexRun(Unprefixed(u));
    if d == [] then None else
      var m: int := HexValue(d);
      var n := if negative then -m else m;
      if -INT_LIMIT <= n < INT_LIMIT then Some(n) else None
  }

  lemma DigitsComeFirst(d: string, rest: string)
    requires d != [] && AllHex(d) && rest != [] && rest[0] != 'x' && rest[0] != 'X'
    ensures Unsigned(d + rest) == (false, d + rest) && Unprefixed(d + rest) == d + rest
  {
    var s := d + rest;
    assert s[0] == d[0] && IsHex(d[0]);
    assert SkipSpace(s) == s;
    if |s| >= 2 {
      assert s[1] == if |d| > 1 then d[1] else rest[0];
      assert |d| > 1 ==> IsHex(d[1]);
    }
  }

  /** A line that starts with the digits of `n` converts back to `n` exactly when `n` fits. */
  lemma StoiOfHex(n: nat, rest: string)
    requires rest != [] && !IsHex(rest[0]) && rest[0] != 'x' && rest[0] != 'X'
    ensures StoiHex(Hex(n) + rest) == if n < INT_LIMIT then Some(n) else None
  {
    DigitsComeFirst(Hex(n), rest);
    HexRunOf(Hex(n), rest);
    HexRoundTrip(n);
  }

  /** A number as it may be written: blanks, a sign, 0x and digits, and then something else. */
  datatype Numeral = Numeral(blanks: string, sign: string, prefix: string, digits: string, rest: string)

  predicate Legible(w: Numeral) {
    && (forall i :: 0 <= i < |w.blanks| ==>
      w.blanks[i] in " \t\n\r" || w.blanks[i] as int == 11 || w.blanks[i] as int == 12)
    && (w.sign == "" || w.sign == "+" || w.sign == "-") && (w.prefix == "" || w.prefix == "0x" || w.prefix == "0X")
    && w.digits != "" && AllHex(w.digits) && (w.rest == "" || !IsHex(w.rest[0]))
    && (w.prefix == "" ==> w.rest == "" || (w.rest[0] != 'x' && w.rest[0] != 'X'))
  }

  function NumeralText(w: Numeral): string { w.blanks + (w.sign + (w.prefix + (w.digits + w.rest))) }

  lemma {:induction false} BlanksSkipped(blanks: string, t: string)
    requires forall i :: 0 <= i < |blanks| ==> IsSpace(blanks[i])
    requires t == "" || !IsSpace(t[0])
    ensures SkipSpace(blanks + t) == t
  {
    if blanks == "" {
      assert blanks + t == t;
    } else {
      assert (blanks + t)[1..] == blanks[1..] + t;
      BlanksSkipped(blanks[1..], t);
    }
  }

  lemma PrefixDropped(w: Numeral)
    requires Legible(w)
    ensures Unprefixed(w.prefix + (w.digits + w.rest)) == w.digits + w.rest
  {
    var d := w.digits + w.rest;
    assert IsHex(w.digits[0]) && d[0] == w.digits[0];
    if w.prefix == "" {
      assert w.prefix + d == d;
      assert |w.digits| > 1 ==> IsHex(w.digits[1]) && d[1] == w.digits[1];
      assert |w.digits| == 1 && w.rest != "" ==> d[1] == w.rest[0];
    } else {
      assert (w.prefix + d)[2..] == d && (w.prefix + d)[2] == d[0];
    }
  }

  lemma SignDropped(w: Numeral)
    requires Legible(w)
    ensures Unsigned(NumeralText(w)) == (w.sign == "-", w.prefix + (w.digits + w.rest))
  {
    var u := w.prefix + (w.digits + w.rest);
    assert IsHex(w.digits[0]) && u[0] == if w.prefix == "" then w.digits[0] else '0';
    var t := w.sign + u;
    assert t[0] == if w.sign == "" then u[0] else w.sign[0];
    BlanksSkipped(w.blanks, t);
    if w.sign == "" { assert t == u; } else { assert t[1..] == u; }
  }

  /** The conversion gives the number written, with its sign, if and only if it fits 32 bits. */
  lemma StoiOfNumeral(w: Numeral)
    requires Legible(w)
    ensures var n := if w.sign == "-" then -(HexValue(w.digits) as int) else HexValue(w.digits);
      StoiHex(NumeralText(w)) == if -0x8000_0000 <= n <= 0x7FFF_FFFF then Some(n) else None
  {
    SignDropped(w);
    PrefixDropped(w);
    HexRunOf(w.digits, w.rest);
  }

  // ---- Lines --------------------------------------------------------------------------------

  /** The first line of a text, with its line feed if it has one. */
  function Line(s: string): (r: string)
    ensures r <= s && (s != [] ==> r != [])
  {
    if s == [] then [] else if s[0] == '\n' then [s[0]] else
      var r := Line(s[1..]);
      assert s == [s[0]] + s[1..];
      [s[0]] + r
  }

  function AfterLine(s: string): (r: string)
    ensures s == Line(s) + r && (s != [] ==> |r| < |s|)
  {
    s[|Line(s)|..]
  }

  lemma {:induction false} LineOf(a: string, rest: string)
    requires '\n' !in a
    ensures Line(a + "\n" + rest) == a + "\n" && AfterLine(a + "\n" + rest) == rest
  {
    var s := a + "\n" + rest;
    if a == [] {
      assert s == "\n" + rest;
    } else {
      assert s[1..] == a[1..] + "\n" + rest;
      LineOf(a[1..], rest);
      assert [s[0]] + (a[1..] + "\n") == a + "\n";
    }
  }
}
