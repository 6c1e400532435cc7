/**
  Encoded form values as they are written: escapes of two digits, escapes of four digits, plus
  signs for blanks, stray percent signs and plain characters.  Decoding what is written gives what
  was meant.
 */
module UrlFormat {
  import opened Common
  import opened HttpText
  import opened Url

  datatype Token = Plain(c: char) | Blank | Octet(digits: string) | Wide(digits: string) | Stray

  function Print(t: Token): (r: string)
    ensures r != []
  {
    match t
    case Plain(c) => [c]
    case Blank => "+"
    case Octet(digits) => "%" + digits
    case Wide(digits) => "%u" + digits
    case Stray => "%"
  }

  /** In front of `rest`: digits are digits, and a stray percent sign does not begin an escape. */
  predicate Proper(t: Token, rest: string) {
    match t
    case Plain(c) => c != '%' && c != '+'
    case Blank => true
    case Octet(digits) => |digits| == 2 && AllHex(digits)
    case Wide(digits) => |digits| == 4 && AllHex(digits)
    case Stray =>
      && !(|rest| >= 2 && AllHex(rest[..2]))
      && !(|rest| >= 5 && rest[0] == 'u' && AllHex(rest[1..5]))
  }

  function PrintAll(ts: seq<Token>): string { if ts == [] then [] else Print(ts[0]) + PrintAll(ts[1..]) }

  predicate AllProper(ts: seq<Token>) {
    ts == [] || (Proper(ts[0], PrintAll(ts[1..])) && AllProper(ts[1..]))
  }

  /** The UTF-8 encoding of a character of the basic plane, section 3 of RFC 3629, read back. */
  function Utf8Value(r: string): Option<nat> {
    if |r| == 1 && r[0] as int < 0x80 then Some(r[0] as int)
    else if |r| == 2 && 0xC2 <= r[0] as int < 0xE0 && Continues(r[1]) then
      Some((r[0] as int - 0xC0) * 64 + (r[1] as int - 0x80))
    else if |r| == 3 && 0xE0 <= r[0] as int < 0xF0 && Continues(r[1]) && Continues(r[2]) then
      Some((r[0] as int - 0xE0) * 4096 + (r[1] as int - 0x80) * 64 + (r[2] as int - 0x80))
    else None
  }

  predicate Continues(c: char) { 0x80 <= c as int < 0xC0 }

  /** The bytes for a code are its UTF-8 encoding, the shortest one; surrogates give nothing. */
  lemma Utf8Is(code: nat)
    requires code < 0x1_0000
    ensures 0xD800 <= code <= 0xDFFF <==> ToUtf8(code) == []
    ensures !(0xD800 <= code <= 0xDFFF) ==> Utf8Value(ToUtf8(code)) == Some(code)
    ensures (|ToUtf8(code)| == 1 <==> code < 0x80) && (|ToUtf8(code)| == 2 <==> 0x80 <= code < 0x800)
  {
    assert code == code / 4096 * 4096 + code / 64 % 64 * 64 + code % 64;
  }

  lemma OctetBound(digits: string)
    requires AllHex(digits) && |digits| <= 4
    ensures HexValue(digits) < 0x1_0000 && (|digits| <= 2 ==> HexValue(digits) < 256)
  {
    HexSmall(digits);
  }

  function Meaning(t: Token): string
    requires t.Octet? ==> |t.digits| == 2 && AllHex(t.digits)
    requires t.Wide? ==> |t.digits| == 4 && AllHex(t.digits)
  {
    match t
    case Plain(c) => [c]
    case Blank => " "
    case Octet(digits) => OctetBound(digits); [HexValue(digits) as char]
    case Wide(digits) => OctetBound(digits); ToUtf8(HexValue(digits))
    case Stray => "%"
  }

  function MeaningAll(ts: seq<Token>): string
    requires AllProper(ts)
  {
    if ts == [] then [] else Meaning(ts[0]) + MeaningAll(ts[1..])
  }

  lemma OneRead(t: Token, rest: string)
    requires Proper(t, rest)
    ensures DecodeOne(Print(t) + rest) == (Meaning(t), |Print(t)|)
  {
    var s := Print(t) + rest;
    match t
    case Octet(digits) =>
      assert s[1..3] == digits && s[1] == digits[0] && IsHex(digits[0]);
    case Wide(digits) =>
      assert s[2..6] == digits;
    case Stray => StrayRead(s, rest);
    case _ =>
  }

  lemma StrayRead(s: string, rest: string)
    requires s == "%" + rest && Proper(Stray, rest)
    ensures DecodeOne(s) == ("%", 1)
  {
    if |rest| >= 2 { assert s[1..3] == rest[..2]; }
    if |rest| >= 5 { assert s[2..6] == rest[1..5]; }
  }

  /** Decoding gives back what every token means: among them a blank for each plus sign. */
  lemma {:induction false} WrittenIsDecoded(ts: seq<Token>)
    requires AllProper(ts)
    ensures Decode(PrintAll(ts)) == MeaningAll(ts)
  {
    if ts != [] {
      var rest := PrintAll(ts[1..]);
      var s := Print(ts[0]) + rest;
      OneRead(ts[0], rest);
      assert s[|Print(ts[0])|..] == rest;
      WrittenIsDecoded(ts[1..]);
    }
  }

  /** Exactly these characters are escaped, each as a percent sign and its number in two capital
      digits; all others stay as they are. */
  lemma EscapedIs(c: char)
    requires IsByte(c)
    ensures if c in " +\r\n\',;" || c as int >= 128 then
        var r := EscapeChar(c);
        |r| == 3 && r[0] == '%' && r[1] in "0123456789ABCDEF" && r[2] in "0123456789ABCDEF" && AllHex(r[1..])
        && HexValue(r[1..]) == c as int
      else EscapeChar(c) == [c]
  {
    if c in " +\r\n\',;" || c as int >= 128 {
      DigitsOfPair(c as int);
      assert ("%" + HexPair(c as int))[1..] == HexPair(c as int);
    }
  }
}
