/**
  Base64 encoding with a streaming accumulator, against the encoding by blocks of three bytes
  of section 4 of RFC 4648 and a decoder that undoes it.
 */
module Base64 {
  import opened Common

  /** Six bits, or the padding. */
  type Symbol = x: int | 0 <= x <= 64

  const PAD: Symbol := 64

  // ---- The alphabet --------------------------------------------------------------------------

  const UPPER: string := "ABCDEFGHIJKLMNOPQRSTUVWXYZ"
  const LOWER: string := "abcdefghijklmnopqrstuvwxyz"
  const DIGITS: string := "0123456789"
  const LOOKUP: string := UPPER + LOWER + DIGITS + "+/"

  /** The alphabet of the standard, with '=' for padding. */
  function Letter(x: Symbol): char {
    if x < 26 then 'A' + x as char
    else if x < 52 then 'a' + (x - 26) as char
    else if x < 62 then '0' + (x - 52) as char
    else if x == 62 then '+' else if x == 63 then '/' else '='
  }

  function SymbolOf(c: char): (r: Option<Symbol>) {
    if 'A' <= c <= 'Z' then Some(c as int - 'A' as int)
    else if 'a' <= c <= 'z' then Some(c as int - 'a' as int + 26)
    else if '0' <= c <= '9' then Some(c as int - '0' as int + 52)
    else if c == '+' then Some(62) else if c == '/' then Some(63) else if c == '=' then Some(PAD) else None
  }

  lemma SymbolOfLetter(x: Symbol)
    ensures SymbolOf(Letter(x)) == Some(x)
  {
  }

  lemma UpperAt(i: nat)
    requires i < 26
    ensures UPPER[i] == 'A' + i as char && LOWER[i] == 'a' + i as char
  {
  }

  lemma DigitAt(i: nat)
    requires i < 10
    ensures DIGITS[i] == '0' + i as char
  {
  }

  /** The table of the source is the alphabet of the standard. */
  lemma LookupIsLetter(x: int)
    requires 0 <= x < 64
    ensures |LOOKUP| == 64 && LOOKUP[x] == Letter(x)
  {
    if x < 26 { UpperAt(x); } else if x < 52 { UpperAt(x - 26); } else if x < 62 { DigitAt(x - 52); }
  }

  function Letters(xs: seq<Symbol>): (r: string)
    ensures |r| == |xs|
    ensures forall i {:trigger r[i]} :: 0 <= i < |xs| ==> r[i] == Letter(xs[i])
  {
    seq(|xs|, i requires 0 <= i < |xs| => Letter(xs[i]))
  }

  function Symbols(t: string): (r: Option<seq<Symbol>>) {
    if t == "" then Some([]) else
      var front, last := Symbols(t[..|t| - 1]), SymbolOf(t[|t| - 1]);
      if front.None? || last.None? then None else Some(front.value + [last.value])
  }

  lemma {:induction false} SymbolsOfLetters(xs: seq<Symbol>)
    ensures Symbols(Letters(xs)) == Some(xs)
  {
    if xs != [] {
      var n := |xs| - 1;
      SymbolsOfLetters(xs[..n]);
      SymbolOfLetter(xs[n]);
      assert Letters(xs)[..n] == Letters(xs[..n]) && Letters(xs)[n] == Letter(xs[n]);
      assert xs[..n] + [xs[n]] == xs;
    } else {
      assert Letters(xs) == "";
    }
  }

  // ---- The standard ------------------------------------------------------------------------

  /** How bytes are cut into sextets: 24 bits into four.  Only `Standard` is ever used; the lemmas
      about blocks, tails and streaming hold for any cut and so never look at the arithmetic. */
  datatype Cut = Cut(first: Byte -> Symbol, second: (Byte, Byte) -> Symbol, third: (Byte, Byte) -> Symbol,
                     fourth: Byte -> Symbol)

  function Standard(): Cut {
    Cut((a: Byte) => a / 4, (a: Byte, b: Byte) => a % 4 * 16 + b / 16,
        (b: Byte, c: Byte) => b % 16 * 4 + c / 64, (c: Byte) => c % 64)
  }

  /** The four symbols of three bytes. */
  function Block(e: Cut, a: Byte, b: Byte, c: Byte): (r: seq<Symbol>)
    ensures |r| == 4
  {
    [e.first(a), e.second(a, b), e.third(b, c), e.fourth(c)]
  }

  /** The last one or two bytes, padded with zero bits and then with padding symbols. */
  function Tail(e: Cut, s: seq<Byte>): (r: seq<Symbol>)
    requires |s| < 3
    ensures |r| == if s == [] then 0 else 4
  {
    if s == [] then []
    else if |s| == 1 then [e.first(s[0]), e.second(s[0], 0), PAD, PAD]
    else [e.first(s[0]), e.second(s[0], s[1]), e.third(s[1], 0), PAD]
  }

  /** The first `n` blocks. */
  function Blocks(e: Cut, s: seq<Byte>, n: nat): (r: seq<Symbol>)
    requires 3 * n <= |s|
    ensures |r| == 4 * n
  {
    if n == 0 then [] else Blocks(e, s, n - 1) + Block(e, s[3 * n - 3], s[3 * n - 2], s[3 * n - 1])
  }

  /** `s` as `n` whole blocks and a tail. */
  function Encoded(e: Cut, s: seq<Byte>, n: nat): (r: seq<Symbol>)
    requires 3 * n <= |s| < 3 * n + 3
    ensures |r| == if |s| == 3 * n then 4 * n else 4 * n + 4
  {
    Blocks(e, s, n) + Tail(e, s[3 * n..])
  }

  function Encode(s: seq<Byte>): (r: string)
    ensures |r| == 4 * ((|s| + 2) / 3)
  {
    Letters(Encoded(Standard(), s, |s| / 3))
  }

  // ---- A decoder ----------------------------------------------------------------------------

  /** Four symbols back to at most three bytes; padding bits must be zero. */
  function DecodeBlock(q: seq<Symbol>): (r: Option<seq<Byte>>) {
    if |q| != 4 then None else
      var w: int := q[0];
      var x: int := q[1];
      var y: int := q[2];
      var z: int := q[3];
      if w == PAD || x == PAD then None
      else if y == PAD then
        if z == PAD && x % 16 == 0 then Some([w * 4 + x / 16]) else None
      else if z == PAD then
        if y % 4 == 0 then Some([w * 4 + x / 16, x % 16 * 16 + y / 4]) else None
      else Some([w * 4 + x / 16, x % 16 * 16 + y / 4, y % 4 * 64 + z])
  }

  type BlockDecoder = seq<Symbol> -> Option<seq<Byte>>

  /** The first `n` blocks of symbols; only the last may be padded. */
  function DecodeBlocks(dec: BlockDecoder, t: seq<Symbol>, n: nat): (r: Option<seq<Byte>>)
    requires 4 * n <= |t|
  {
    if n == 0 then Some([]) else
      var front, last := DecodeBlocks(dec, t, n - 1), dec(t[4 * n - 4..4 * n]);
      if front.None? || last.None? || |front.value| != 3 * (n - 1) then None else Some(front.value + last.value)
  }

  function DecodeWith(dec: BlockDecoder, t: string): (r: Option<seq<Byte>>) {
    var xs := Symbols(t);
    if xs.None? || |xs.value| % 4 != 0 then None else DecodeBlocks(dec, xs.value, |xs.value| / 4)
  }

  function Decode(t: string): (r: Option<seq<Byte>>) { DecodeWith(DecodeBlock, t) }

  // ---- Decoding undoes encoding ---------------------------------------------------------------

  lemma DecodeOfBlock(a: Byte, b: Byte, c: Byte)
    ensures DecodeBlock(Block(Standard(), a, b, c)) == Some([a, b, c])
  {
    DivMod(16, a % 4, b / 16);
    DivMod(4, b % 16, c / 64);
  }

  lemma DecodeOfTail(s: seq<Byte>)
    requires 0 < |s| < 3
    ensures DecodeBlock(Tail(Standard(), s)) == Some(s)
  {
    if |s| == 1 {
      DivMod(16, s[0] % 4, 0);
      assert s == [s[0]];
    } else {
      DivMod(16, s[0] % 4, s[1] / 16);
      DivMod(4, s[1] % 16, 0);
      assert s == [s[0], s[1]];
    }
  }

  /** The cutting `e` is undone by `dec`, on whole blocks and on tails. */
  ghost predicate Undone(e: Cut, dec: BlockDecoder) {
    && (forall a: Byte, b: Byte, c: Byte {:trigger Block(e, a, b, c)} :: dec(Block(e, a, b, c)) == Some([a, b, c]))
    && (forall s: seq<Byte> {:trigger Tail(e, s)} :: 0 < |s| < 3 ==> dec(Tail(e, s)) == Some(s))
  }

  lemma StandardUndone()
    ensures Undone(Standard(), DecodeBlock)
  {
    forall a: Byte, b: Byte, c: Byte
      ensures DecodeBlock(Block(Standard(), a, b, c)) == Some([a, b, c])
    {
      DecodeOfBlock(a, b, c);
    }
    forall s: seq<Byte> | 0 < |s| < 3
      ensures DecodeBlock(Tail(Standard(), s)) == Some(s)
    {
      DecodeOfTail(s);
    }
  }

  lemma DecodeNext(dec: BlockDecoder, t: seq<Symbol>, n: nat, front: seq<Byte>, last: seq<Byte>)
    requires 4 * n + 4 <= |t| && DecodeBlocks(dec, t, n) == Some(front) && |front| == 3 * n
    requires dec(t[4 * n..4 * n + 4]) == Some(last)
    ensures DecodeBlocks(dec, t, n + 1) == Some(front + last)
  {
    assert t[4 * (n + 1) - 4..4 * (n + 1)] == t[4 * n..4 * n + 4];
  }

  lemma {:induction false} DecodeOfBlocks(e: Cut, dec: BlockDecoder, s: seq<Byte>, n: nat, t: seq<Symbol>)
    requires Undone(e, dec) && 3 * n <= |s| && Blocks(e, s, n) <= t
    ensures DecodeBlocks(dec, t, n) == Some(s[..3 * n])
  {
    if n > 0 {
      BlockThere(e, s, n, t);
      DecodeOfBlocks(e, dec, s, n - 1, t);
      DecodeOneMore(e, dec, s, n, t);
    }
  }

  /** The last of `n` blocks, and the blocks before it. */
  lemma BlockThere(e: Cut, s: seq<Byte>, n: nat, t: seq<Symbol>)
    requires 0 < n && 3 * n <= |s| && Blocks(e, s, n) <= t
    ensures Blocks(e, s, n - 1) <= t
    ensures t[4 * (n - 1)..4 * (n - 1) + 4] == Block(e, s[3 * n - 3], s[3 * n - 2], s[3 * n - 1])
  {
    BlocksNext(e, s, n, 3 * n - 3);
  }

  lemma DecodeOneMore(e: Cut, dec: BlockDecoder, s: seq<Byte>, n: nat, t: seq<Symbol>)
    requires Undone(e, dec) && 0 < n && 3 * n <= |s| && 4 * n <= |t|
      && DecodeBlocks(dec, t, n - 1) == Some(s[..3 * (n - 1)])
    requires t[4 * (n - 1)..4 * (n - 1) + 4] == Block(e, s[3 * n - 3], s[3 * n - 2], s[3 * n - 1])
    ensures DecodeBlocks(dec, t, n) == Some(s[..3 * n])
  {
    var k := 3 * n - 3;
    DecodeNext(dec, t, n - 1, s[..k], [s[k], s[k + 1], s[k + 2]]);
    assert s[..k] + [s[k], s[k + 1], s[k + 2]] == s[..3 * n];
  }

  lemma DecodeWithTail(dec: BlockDecoder, front: seq<Symbol>, tail: seq<Symbol>, s: seq<Byte>, n: nat)
    requires |front| == 4 * n && |tail| == 4 && 3 * n < |s|
    requires DecodeBlocks(dec, front + tail, n) == Some(s[..3 * n]) && dec(tail) == Some(s[3 * n..])
    ensures DecodeBlocks(dec, front + tail, n + 1) == Some(s)
  {
    assert (front + tail)[4 * n..4 * n + 4] == tail;
    DecodeNext(dec, front + tail, n, s[..3 * n], s[3 * n..]);
    assert s[..3 * n] + s[3 * n..] == s;
  }

  lemma DecodeOfEncoded(e: Cut, dec: BlockDecoder, s: seq<Byte>, n: nat)
    requires Undone(e, dec) && 3 * n <= |s| < 3 * n + 3
    ensures DecodeBlocks(dec, Encoded(e, s, n), if |s| == 3 * n then n else n + 1) == Some(s)
  {
    DecodeOfBlocks(e, dec, s, n, Encoded(e, s, n));
    if |s| == 3 * n {
      assert s[..3 * n] == s;
    } else {
      DecodeWithTail(dec, Blocks(e, s, n), Tail(e, s[3 * n..]), s, n);
    }
  }

  lemma RoundTripOf(e: Cut, dec: BlockDecoder, s: seq<Byte>, n: nat)
    requires Undone(e, dec) && 3 * n <= |s| < 3 * n + 3
    ensures DecodeWith(dec, Letters(Encoded(e, s, n))) == Some(s)
  {
    DecodeOfEncoded(e, dec, s, n);
    DecodeOfLetters(dec, Encoded(e, s, n), if |s| == 3 * n then n else n + 1, s);
  }

  lemma DecodeOfLetters(dec: BlockDecoder, xs: seq<Symbol>, m: nat, r: seq<Byte>)
    requires |xs| == 4 * m && DecodeBlocks(dec, xs, m) == Some(r)
    ensures DecodeWith(dec, Letters(xs)) == Some(r)
  {
    SymbolsOfLetters(xs);
    DivMod(4, m, 0);
    assert |xs| % 4 == 0 && |xs| / 4 == m;
  }

  /** For every byte string, decoding the encoding gives it back. */
  lemma RoundTrip(s: seq<Byte>)
    ensures Decode(Encode(s)) == Some(s)
  {
    StandardUndone();
    RoundTripOf(Standard(), DecodeBlock, s, |s| / 3);
  }

  // ---- The streaming encoder --------------------------------------------------------------------

  const WORD: int := 0x1_0000_0000

  /** The six bits above `unit`, a power of two. */
  function SextetAt(val: int, unit: int): (r: Symbol)
    requires unit > 0
    ensures r < 64
  {
    val / unit % 64
  }

  /** The symbols that byte `c` completes after byte `p`, at phase `i` modulo 3. */
  function Completed(e: Cut, p: Byte, c: Byte, i: nat): (r: seq<Symbol>) {
    if i % 3 == 0 then [e.first(c)] else if i % 3 == 1 then [e.second(p, c)] else [e.third(p, c), e.fourth(c)]
  }

  function Previous(s: seq<Byte>, i: nat): Byte
    requires i <= |s|
  {
    if i == 0 then 0 else s[i - 1]
  }

  function Streamed(e: Cut, s: seq<Byte>, n: nat): (r: seq<Symbol>)
    requires n <= |s|
  {
    if n == 0 then [] else Streamed(e, s, n - 1) + Completed(e, Previous(s, n - 1), s[n - 1], n - 1)
  }

  lemma ThreeMore(e: Cut, s: seq<Byte>, k: nat, n: nat)
    requires k == 3 * n && k + 3 <= |s|
    ensures Streamed(e, s, k + 3) == Streamed(e, s, k) + Block(e, s[k], s[k + 1], s[k + 2])
  {
    assert Streamed(e, s, k + 1) == Streamed(e, s, k) + [e.first(s[k])];
    assert Streamed(e, s, k + 2) == Streamed(e, s, k + 1) + [e.second(s[k], s[k + 1])];
  }

  /** The symbols streamed for whole blocks are those of the standard. */
  lemma {:induction false} StreamedBlocks(e: Cut, s: seq<Byte>, n: nat, k: nat, b: seq<Symbol>)
    requires k == 3 * n && k <= |s| && b == Blocks(e, s, n)
    ensures Streamed(e, s, k) == b
  {
    if n > 0 {
      var c := Blocks(e, s, n - 1);
      BlocksNext(e, s, n, k - 3);
      StreamedBlocks(e, s, n - 1, k - 3, c);
      ThreeMore(e, s, k - 3, n - 1);
    }
  }

  lemma BlocksNext(e: Cut, s: seq<Byte>, n: nat, j: int)
    requires 0 < n && j == 3 * n - 3 && 3 * n <= |s|
    ensures Blocks(e, s, n) == Blocks(e, s, n - 1) + Block(e, s[j], s[j + 1], s[j + 2])
  {
  }

  /** The symbol for the bits left over after byte `p`, and the padding. */
  function Ending(e: Cut, p: Byte, i: nat): (r: seq<Symbol>)
    ensures |r| <= 3
  {
    if i % 3 == 0 then [] else if i % 3 == 1 then [e.second(p, 0), PAD, PAD] else [e.third(p, 0), PAD]
  }

  lemma OneOver(e: Cut, s: seq<Byte>, k: nat, n: nat)
    requires k == 3 * n && |s| == k + 1
    ensures Streamed(e, s, |s|) + Ending(e, s[k], |s|) == Streamed(e, s, k) + Tail(e, s[k..])
  {
    assert Streamed(e, s, k + 1) == Streamed(e, s, k) + [e.first(s[k])];
  }

  lemma TwoOver(e: Cut, s: seq<Byte>, k: nat, n: nat)
    requires k == 3 * n && |s| == k + 2
    ensures Streamed(e, s, |s|) + Ending(e, s[k + 1], |s|) == Streamed(e, s, k) + Tail(e, s[k..])
  {
    assert Streamed(e, s, k + 1) == Streamed(e, s, k) + [e.first(s[k])];
    assert Streamed(e, s, k + 2) == Streamed(e, s, k + 1) + [e.second(s[k], s[k + 1])];
  }

  /** Streaming is the standard, whatever the cut. */
  lemma StreamedIsEncoded(e: Cut, s: seq<Byte>, n: nat)
    requires 3 * n <= |s| < 3 * n + 3
    ensures Streamed(e, s, |s|) + Ending(e, Previous(s, |s|), |s|) == Encoded(e, s, n)
  {
    var k := 3 * n;
    StreamedBlocks(e, s, n, k, Blocks(e, s, n));
    EndsLikeTail(e, s, k, n);
  }

  lemma EndsLikeTail(e: Cut, s: seq<Byte>, k: nat, n: nat)
    requires k == 3 * n && k <= |s| < k + 3
    ensures Streamed(e, s, |s|) + Ending(e, Previous(s, |s|), |s|) == Streamed(e, s, k) + Tail(e, s[k..])
  {
    if |s| == k {
      assert s[k..] == [] && Ending(e, Previous(s, k), k) == [];
    } else if |s| == k + 1 {
      OneOver(e, s, k, n);
    } else {
      TwoOver(e, s, k, n);
    }
  }

  lemma WholeBlocks(e: Cut, s: seq<Byte>, n: nat)
    requires 3 * n <= |s| < 3 * n + 3
    ensures |Encoded(e, s, n)| % 4 == 0
  {
  }

  /** What is streamed, with its ending, is the encoding. */
  lemma StreamIsStandard(s: seq<Byte>)
    ensures var xs := Streamed(Standard(), s, |s|) + Ending(Standard(), Previous(s, |s|), |s|);
      |xs| % 4 == 0 && Letters(xs) == Encode(s)
  {
    StreamedIsEncoded(Standard(), s, |s| / 3);
    WholeBlocks(Standard(), s, |s| / 3);
  }

  // ---- The accumulator ------------------------------------------------------------------------------

  lemma High(q: int, r: int, p: int, unit: int)
    requires 0 <= r < unit
    ensures ((q + p * 64) * unit + r) / unit % 64 == q % 64
  {
    DivMod(unit, q + p * 64, r);
    DivMod(64, q / 64 + p, q % 64);
  }

  /** A multiple of 2^16 added on top changes no sextet below bit 12. */
  lemma HighBits(x: int, k: int, unit: int)
    requires unit == 1 || unit == 4 || unit == 16 || unit == 64
    ensures SextetAt(x + k * 65536, unit) == SextetAt(x, unit)
  {
    if unit == 1 {
      High(x, 0, k * 1024, 1);
    } else if unit == 4 {
      High(x / 4, x % 4, k * 256, 4);
    } else if unit == 16 {
      High(x / 16, x % 16, k * 64, 16);
    } else {
      High(x / 64, x % 64, k * 16, 64);
    }
  }

  /** Only the last two bytes matter: what the 32-bit accumulator discards is never read. */
  lemma Accumulates(val: int, next: int, c: Byte, unit: int)
    requires next == Wrap32(val * 256 + c) && (unit == 1 || unit == 4 || unit == 16 || unit == 64)
    ensures SextetAt(next, unit) == SextetAt(val % 256 * 256 + c, unit) && next % 256 == c
  {
    var q := (val * 256 + c + WORD / 2) / WORD;
    var k := val / 256 - q * 65536;
    assert next == (val % 256 * 256 + c) + k * 65536;
    HighBits(val % 256 * 256 + c, k, unit);
    DivMod(256, val % 256 + k * 256, c);
  }

  lemma CutFirst(p: Byte, c: Byte)
    ensures SextetAt(p * 256 + c, 4) == c / 4
  {
    DivMod(4, p * 64 + c / 4, c % 4);
    DivMod(64, p, c / 4);
  }

  lemma CutSecond(p: Byte, c: Byte)
    ensures SextetAt(p * 256 + c, 16) == p % 4 * 16 + c / 16
  {
    DivMod(16, p * 16 + c / 16, c % 16);
    DivMod(64, p / 4, p % 4 * 16 + c / 16);
  }

  lemma CutThird(p: Byte, c: Byte)
    ensures SextetAt(p * 256 + c, 64) == p % 16 * 4 + c / 64
  {
    DivMod(64, p * 4 + c / 64, c % 64);
    DivMod(64, p / 16, p % 16 * 4 + c / 64);
  }

  lemma CutFourth(p: Byte, c: Byte)
    ensures SextetAt(p * 256 + c, 1) == c % 64
  {
    DivMod(64, p * 4 + c / 64, c % 64);
  }

  /** The divisor of a right shift, and the symbol that the accumulator then shows. */
  lemma ShiftShows(last: int, val: int, c: Byte, i: nat, valb: int)
    requires val == Wrap32(last * 256 + c)
    requires valb == 2 * (i % 3) + 2 || (i % 3 == 2 && valb == 0)
    ensures SextetAt(val, Pow2(valb))
         == var e := Standard(); if valb == 0 then e.fourth(c) else if valb == 2 then e.first(c)
            else if valb == 4 then e.second(last % 256, c) else e.third(last % 256, c)
  {
    var p := last % 256;
    Units();
    Accumulates(last, val, c, Pow2(valb));
    CutFirst(p, c);
    CutSecond(p, c);
    CutThird(p, c);
    CutFourth(p, c);
  }

  lemma Units()
    ensures Pow2(0) == 1 && Pow2(2) == 4 && Pow2(4) == 16 && Pow2(6) == 64
  {
  }

  lemma LettersPush(xs: seq<Symbol>, x: Symbol)
    ensures Letters(xs + [x]) == Letters(xs) + [Letter(x)]
  {
  }

  // ---- The encoder ------------------------------------------------------------------------------------

  /** The inner loop: pushes a letter for every six bits that are complete. */
  method Emit(c: Byte, i: nat, ghost last: int, val: int, bits: int, sink: string, ghost xs: seq<Symbol>)
      returns (out: string, valb: int)
    requires val == Wrap32(last * 256 + c) && bits == 2 * (i % 3) + 2 && sink == Letters(xs)
    ensures out == Letters(xs + Completed(Standard(), last % 256, c, i)) && valb == 2 * ((i + 1) % 3) - 6
  {
    out, valb := sink, bits;
    ghost var done := [];
    ghost var all := Completed(Standard(), last % 256, c, i);
    assert xs + [] == xs;
    while valb >= 0
      invariant valb == bits - 6 * |done| && done <= all && out == Letters(xs + done)
      decreases valb
    {
      ShiftShows(last, val, c, i, valb);
      LookupIsLetter(SextetAt(val, Pow2(valb)));
      LettersPush(xs + done, all[|done|]);
      assert xs + done + [all[|done|]] == xs + (done + [all[|done|]]);
      out := out + [LOOKUP[SextetAt(val, Pow2(valb))]];
      done := done + [all[|done|]];
      valb := valb - 6;
    }
    assert done == all;
  }

  /** The letter for the bits left over, and the padding. */
  method Finish(val: int, i: nat, valb: int, sink: string, ghost xs: seq<Symbol>) returns (out: string)
    requires sink == Letters(xs) && valb == 2 * (i % 3) - 6
    requires |xs + Ending(Standard(), val % 256, i)| % 4 == 0
    ensures out == Letters(xs + Ending(Standard(), val % 256, i))
  {
    out := sink;
    ghost var ending, done := Ending(Standard(), val % 256, i), [];
    assert xs + [] == xs;
    if valb > -6 {
      EndingShows(val, i, valb);
      LookupIsLetter(ending[0]);
      LettersPush(xs, ending[0]);
      out := out + [LOOKUP[SextetAt(Wrap32(val * 256), Pow2(valb + 8))]];
      done := [ending[0]];
    }
    while |out| % 4 != 0
      invariant done <= ending && out == Letters(xs + done)
      invariant forall j :: |done| <= j < |ending| ==> ending[j] == PAD
      decreases |ending| - |done|
    {
      LettersPush(xs + done, PAD);
      assert xs + done + [PAD] == xs + (done + [PAD]);
      out := out + ['='];
      done := done + [PAD];
    }
    assert done == ending;
  }

  lemma EndingShows(val: int, i: nat, valb: int)
    requires valb == 2 * (i % 3) - 6 && valb > -6
    ensures SextetAt(Wrap32(val * 256), Pow2(valb + 8)) == Ending(Standard(), val % 256, i)[0]
  {
    ShiftShows(val, Wrap32(val * 256 + 0), 0, i % 3, valb + 8);
  }

  method Base64Encode(s: seq<Byte>) returns (out: string)
    ensures out == Encode(s)
  {
    var val, valb;
    out, val, valb := Accumulate(s);
    StreamIsStandard(s);
    out := Finish(val, |s|, valb, out, Streamed(Standard(), s, |s|));
  }

  /** The loop over the bytes. */
  method Accumulate(s: seq<Byte>) returns (out: string, val: int, valb: int)
    ensures out == Letters(Streamed(Standard(), s, |s|)) && val % 256 == Previous(s, |s|) && valb == 2 * (|s| % 3) - 6
  {
    out, val, valb := "", 0, -6;
    for i := 0 to |s|
      invariant valb == 2 * (i % 3) - 6 && out == Letters(Streamed(Standard(), s, i)) && val % 256 == Previous(s, i)
    {
      ghost var last := val;
      val := Wrap32(val * 256 + s[i]);
      Accumulates(last, val, s[i], 1);
      out, valb := Emit(s[i], i, last, val, valb + 8, out, Streamed(Standard(), s, i));
    }
  }
}
