/**
  The ADPCM decoder: frames of 8 bytes, a header and 14 nibbles, run through a second-order
  filter whose two-sample history is carried from call to call.
 */
module Adpcm {
  import opened Common

  const FRAME_LEN: int := 8
  const SAMPLES_PER_FRAME: int := 14

  type Sample = s: int | -32768 <= s <= 32767

  datatype History = History(yn1: Sample, yn2: Sample)

  datatype Decoded = Decoded(samples: seq<Sample>, state: History)

  /** Sixteen coefficients, a pair for each filter index. */
  type Coefficients = c: seq<Sample> | |c| == 16 witness seq(16, i => 0)

  // ---- One sample ----------------------------------------------------------------------

  function Scale(header: Byte): (r: int)
    ensures 1 <= r <= 32768
  {
    PowMonotone(header % 16, 15);
    assert Pow2(15) == 32768;
    Pow2(header % 16)
  }

  lemma {:induction false} PowMonotone(n: nat, k: nat)
    requires n <= k
    ensures Pow2(n) <= Pow2(k)
    decreases k
  {
    if n < k { PowMonotone(n, k - 1); }
  }

  function FilterIndex(header: Byte): (r: int)
    ensures 0 <= r < 8
  {
    header / 16 % 8
  }

  /** The table of signed nibbles. */
  function SignedNibble(n: int): (r: int)
    requires 0 <= n < 16
    ensures -8 <= r <= 7 && (r - n) % 16 == 0
  {
    if n < 8 then n else n - 16
  }

  function Clamp(x: int): Sample { if x < -32768 then -32768 else if x > 32767 then 32767 else x }

  /** The filter in 11-bit fixed point, before it is shifted back. */
  function FilterSum(nibble: int, scale: int, c1: int, c2: int, st: History): int {
    Total(nibble * scale, c1 * st.yn1, c2 * st.yn2)
  }

  function Total(xn: int, feedback1: int, feedback2: int): int { xn * 2048 + 0x400 + feedback1 + feedback2 }

  function Filter(nibble: int, scale: int, c1: int, c2: int, st: History): (y: Sample) {
    Clamp(Wrap32(FilterSum(nibble, scale, c1, c2, st)) / 2048)
  }

  // ---- Frames ----------------------------------------------------------------------------

  type Frame = f: seq<Byte> | |f| == FRAME_LEN witness seq(FRAME_LEN, i => 0)

  /** The nibble of the `k`-th sample of a frame: high half first. */
  function NibbleAt(frame: Frame, k: int): (n: int)
    requires 0 <= k < SAMPLES_PER_FRAME
    ensures 0 <= n < 16
  {
    if k % 2 == 0 then frame[1 + k / 2] / 16 else frame[1 + k / 2] % 16
  }

  /** The sample that the `k`-th nibble of a frame gives after a history. */
  function FrameFilter(coeff: Coefficients, frame: Frame): (int, History) -> Sample {
    (k: int, st: History) =>
      var idx := FilterIndex(frame[0]);
      if 0 <= k < SAMPLES_PER_FRAME then
        Filter(SignedNibble(NibbleAt(frame, k)), Scale(frame[0]), coeff[2 * idx], coeff[2 * idx + 1], st)
      else 0
  }

  function Extend(d: Decoded, y: Sample): Decoded { Decoded(d.samples + [y], History(y, d.state.yn1)) }

  function Then(d: Decoded, e: Decoded): Decoded { Decoded(d.samples + e.samples, e.state) }

  /** The first `k` samples that a filter gives. */
  function Samples(filter: (int, History) -> Sample, k: nat, st: History): (d: Decoded)
    ensures |d.samples| == k
  {
    if k == 0 then Decoded([], st) else
      var d := Samples(filter, k - 1, st);
      Extend(d, filter(k - 1, d.state))
  }

  /** Decodes a frame: two samples for each byte after the header. */
  function FrameDecoder(coeff: Coefficients): (Frame, History) -> Decoded {
    (frame: Frame, st: History) => Samples(FrameFilter(coeff, frame), 2 * (|frame| - 1), st)
  }

  function FrameAt(data: seq<Byte>, i: nat): (f: Frame)
    requires FRAME_LEN * i + FRAME_LEN <= |data|
  {
    data[FRAME_LEN * i..FRAME_LEN * i + FRAME_LEN]
  }

  /** The first `n` frames of the data, through any frame decoder. */
  function Frames(decode: (Frame, History) -> Decoded, data: seq<Byte>, n: nat, st: History): (d: Decoded)
    requires FRAME_LEN * n <= |data|
  {
    if n == 0 then Decoded([], st) else
      var d := Frames(decode, data, n - 1, st);
      Then(d, decode(FrameAt(data, n - 1), d.state))
  }

  /** What one call decodes: whole frames; a rest shorter than a frame is ignored. */
  function Decode(coeff: Coefficients, data: seq<Byte>, st: History): (d: Decoded) {
    Frames(FrameDecoder(coeff), data, |data| / FRAME_LEN, st)
  }

  // ---- The decoder ------------------------------------------------------------------------

  method DecodeADPCM(data: seq<Byte>, coeff: Coefficients, state: History) returns (ret: array<Sample>, next: History)
    ensures fresh(ret) && ret.Length == |data| / FRAME_LEN * SAMPLES_PER_FRAME
    ensures Decoded(ret[..], next) == Decode(coeff, data, state)
    ensures forall ps :: Prints(ps, data) ==> Decoded(ret[..], next) == Respond(Machine(coeff), ps, state)
    ensures forall ps :: Prints(ps, data) && AllTame(coeff) ==>
      Decoded(ret[..], next) == Respond(Exact(coeff), ps, state)
  {
    forall ps | Prints(ps, data)
      ensures Decode(coeff, data, state) == Respond(Machine(coeff), ps, state)
      ensures AllTame(coeff) ==> Decode(coeff, data, state) == Respond(Exact(coeff), ps, state)
    {
      DecodePackets(coeff, ps, data, state);
      if AllTame(coeff) { DecodeIsIdeal(coeff, ps, data, state); }
    }
    var sampleCount := |data| / FRAME_LEN * SAMPLES_PER_FRAME;
    var retSize := if sampleCount % 2 == 0 then sampleCount else sampleCount + 1;
    RoundsToFrames(|data| / FRAME_LEN);
    ret := new Sample[retSize](i => 0);
    var numFrames := (sampleCount + (SAMPLES_PER_FRAME - 1)) / SAMPLES_PER_FRAME;
    next := DecodeAll(data, coeff, state, numFrames, sampleCount, ret);
  }

  /** The frame loop. */
  method DecodeAll(data: seq<Byte>, coeff: Coefficients, state: History, numFrames: nat, sampleCount: nat,
                   ret: array<Sample>)
      returns (next: History)
    requires FRAME_LEN * numFrames <= |data| && SAMPLES_PER_FRAME * numFrames == sampleCount == ret.Length
    modifies ret
    ensures Decoded(ret[..], next) == Frames(FrameDecoder(coeff), data, numFrames, state)
  {
    next := state;
    var framei := 0;
    while framei < numFrames
      invariant 0 <= framei <= numFrames
      invariant Done(FrameDecoder(coeff), data, framei, state, ret[..], next)
    {
      next := AddFrame(data, coeff, framei, sampleCount, ret, state, next);
      framei := framei + 1;
    }
    AllDone(FrameDecoder(coeff), data, numFrames, state, ret[..], next);
  }

  lemma AllDone(decode: (Frame, History) -> Decoded, data: seq<Byte>, n: nat, st0: History, out: seq<Sample>,
                st: History)
    requires Done(decode, data, n, st0, out, st) && |out| == SAMPLES_PER_FRAME * n
    ensures Decoded(out, st) == Frames(decode, data, n, st0)
  {
    assert out[..|out|] == out;
  }

  /** The output holds the first `i` frames, and `st` is the history after them. */
  ghost predicate Done(decode: (Frame, History) -> Decoded, data: seq<Byte>, i: nat, st0: History, out: seq<Sample>,
                       st: History) {
    && FRAME_LEN * i <= |data| && SAMPLES_PER_FRAME * i <= |out|
    && Decoded(out[..SAMPLES_PER_FRAME * i], st) == Frames(decode, data, i, st0)
  }

  method AddFrame(data: seq<Byte>, coeff: Coefficients, framei: nat, sampleCount: nat, ret: array<Sample>,
                  ghost state: History, st: History)
      returns (next: History)
    requires FRAME_LEN * framei + FRAME_LEN <= |data|
    requires SAMPLES_PER_FRAME * framei + SAMPLES_PER_FRAME <= sampleCount <= ret.Length
    requires Done(FrameDecoder(coeff), data, framei, state, ret[..], st)
    modifies ret
    ensures Done(FrameDecoder(coeff), data, framei + 1, state, ret[..], next)
  {
    ghost var was := ret[..];
    var yn1, yn2 := DecodeFrame(data, coeff, framei, sampleCount, st.yn1, st.yn2, ret);
    next := History(yn1, yn2);
    FrameAdded(FrameDecoder(coeff), data, framei, state, ret[..], was, st);
  }

  lemma FrameAdded(decode: (Frame, History) -> Decoded, data: seq<Byte>, i: nat, st0: History,
                   out: seq<Sample>, was: seq<Sample>, st: History)
    requires FRAME_LEN * i + FRAME_LEN <= |data| && SAMPLES_PER_FRAME * i + SAMPLES_PER_FRAME <= |was|
    requires Done(decode, data, i, st0, was, st)
    requires var f := decode(FrameAt(data, i), st);
      |f.samples| == SAMPLES_PER_FRAME && Holds(out, was, SAMPLES_PER_FRAME * i, f)
    ensures Done(decode, data, i + 1, st0, out, decode(FrameAt(data, i), st).state)
  {
    HoldsAppend(out, was, SAMPLES_PER_FRAME * i, decode(FrameAt(data, i), st));
  }

  /** A count of whole frames is even and rounds up to itself. */
  lemma RoundsToFrames(n: nat)
    ensures n * SAMPLES_PER_FRAME % 2 == 0
    ensures (n * SAMPLES_PER_FRAME + (SAMPLES_PER_FRAME - 1)) / SAMPLES_PER_FRAME == n
  {
    assert n * SAMPLES_PER_FRAME == 2 * (7 * n);
  }

  /** The output holds `d` from place `base` on, and below it what it held before. */
  ghost predicate Holds(out: seq<Sample>, was: seq<Sample>, base: nat, d: Decoded) {
    && |out| == |was| && base + |d.samples| <= |out|
    && (forall j :: 0 <= j < base ==> out[j] == was[j])
    && (forall j :: 0 <= j < |d.samples| ==> out[base + j] == d.samples[j])
  }

  lemma HoldsAppend(out: seq<Sample>, was: seq<Sample>, base: nat, d: Decoded)
    requires Holds(out, was, base, d)
    ensures out[..base + |d.samples|] == was[..base] + d.samples
  {
  }

  /** The body of the frame loop: fourteen samples, two for each byte. */
  method DecodeFrame(data: seq<Byte>, coeff: Coefficients, framei: nat, sampleCount: nat, y1: Sample, y2: Sample,
                     ret: array<Sample>)
      returns (yn1: Sample, yn2: Sample)
    requires FRAME_LEN * framei + FRAME_LEN <= |data|
    requires SAMPLES_PER_FRAME * framei + SAMPLES_PER_FRAME <= sampleCount <= ret.Length
    modifies ret
    ensures var f := FrameDecoder(coeff)(FrameAt(data, framei), History(y1, y2));
      && |f.samples| == SAMPLES_PER_FRAME && History(yn1, yn2) == f.state
      && Holds(ret[..], old(ret[..]), SAMPLES_PER_FRAME * framei, f)
  {
    ghost var frame := FrameAt(data, framei);
    ghost var filter := FrameFilter(coeff, frame);
    yn1, yn2 := y1, y2;
    var outputi := SAMPLES_PER_FRAME * framei;
    var datai := framei * FRAME_LEN + 1;
    var i := 0;
    while i < SAMPLES_PER_FRAME && outputi < sampleCount
      invariant 0 <= i <= SAMPLES_PER_FRAME && i % 2 == 0
      invariant outputi == SAMPLES_PER_FRAME * framei + i && datai == framei * FRAME_LEN + 1 + i / 2
      invariant Samples(filter, i, History(y1, y2)).state == History(yn1, yn2)
      invariant Holds(ret[..], old(ret[..]), SAMPLES_PER_FRAME * framei, Samples(filter, i, History(y1, y2)))
    {
      yn1, yn2 := DecodePair(data, coeff, framei, i, yn1, yn2, ret, old(ret[..]), History(y1, y2));
      outputi := outputi + 2;
      datai := datai + 1;
      i := i + 2;
    }
  }

  /** Two samples from the two halves of one byte. */
  method DecodePair(data: seq<Byte>, coeff: Coefficients, framei: nat, i: nat, y1: Sample, y2: Sample,
                    ret: array<Sample>, ghost was: seq<Sample>, ghost st: History)
      returns (yn1: Sample, yn2: Sample)
    requires FRAME_LEN * framei + FRAME_LEN <= |data| && i < SAMPLES_PER_FRAME && i % 2 == 0
    requires SAMPLES_PER_FRAME * framei + SAMPLES_PER_FRAME <= ret.Length
    requires var d := Samples(FrameFilter(coeff, FrameAt(data, framei)), i, st);
      Holds(ret[..], was, SAMPLES_PER_FRAME * framei, d) && d.state == History(y1, y2)
    modifies ret
    ensures var d := Samples(FrameFilter(coeff, FrameAt(data, framei)), i + 2, st);
      Holds(ret[..], was, SAMPLES_PER_FRAME * framei, d) && d.state == History(yn1, yn2)
  {
    ghost var filter := FrameFilter(coeff, FrameAt(data, framei));
    var byte := data[framei * FRAME_LEN + 1 + i / 2];
    FilterAt(data, coeff, framei, i);
    FilterAt(data, coeff, framei, i + 1);
    var sample1 := DecodeSample(data, coeff, framei, SignedNibble(byte / 16), y1, y2);
    yn1, yn2 := sample1, y1;
    var sample2 := DecodeSample(data, coeff, framei, SignedNibble(byte % 16), yn1, yn2);
    yn1, yn2 := sample2, yn1;
    TwoMore(filter, i, st, sample1, sample2);
    PutTwo(ret, SAMPLES_PER_FRAME * framei, i, sample1, sample2, was, Samples(filter, i, st));
  }

  method PutTwo(ret: array<Sample>, base: nat, i: nat, y1: Sample, y2: Sample, ghost was: seq<Sample>, ghost d: Decoded)
    requires Holds(ret[..], was, base, d) && |d.samples| == i && base + i + 2 <= ret.Length
    modifies ret
    ensures Holds(ret[..], was, base, Extend(Extend(d, y1), y2))
  {
    var outputi := base + i;
    ret[outputi] := y1;
    outputi := outputi + 1;
    ret[outputi] := y2;
  }

  /** One sample: header and coefficients of the frame, one nibble, and the history. */
  method DecodeSample(data: seq<Byte>, coeff: Coefficients, framei: nat, nibble: int, yn1: Sample, yn2: Sample)
      returns (y: Sample)
    requires FRAME_LEN * framei + FRAME_LEN <= |data|
    ensures y == FilterOf(data, coeff, framei, nibble, History(yn1, yn2))
  {
    var header := data[framei * FRAME_LEN];
    var scale, idx := Scale(header), FilterIndex(header);
    var coef1, coef2 := coeff[idx * 2], coeff[idx * 2 + 1];
    y := Filter(nibble, scale, coef1, coef2, History(yn1, yn2));
  }

  function FilterOf(data: seq<Byte>, coeff: Coefficients, framei: nat, nibble: int, st: History): Sample
    requires FRAME_LEN * framei + FRAME_LEN <= |data|
  {
    var header := data[framei * FRAME_LEN];
    Filter(nibble, Scale(header), coeff[2 * FilterIndex(header)], coeff[2 * FilterIndex(header) + 1], st)
  }

  lemma FilterAt(data: seq<Byte>, coeff: Coefficients, framei: nat, k: nat)
    requires FRAME_LEN * framei + FRAME_LEN <= |data| && k < SAMPLES_PER_FRAME
    ensures var byte := data[framei * FRAME_LEN + 1 + k / 2];
      forall st :: FrameFilter(coeff, FrameAt(data, framei))(k, st)
        == FilterOf(data, coeff, framei, SignedNibble(if k % 2 == 0 then byte / 16 else byte % 16), st)
  {
  }

  lemma TwoMore(filter: (int, History) -> Sample, i: nat, st: History, y1: Sample, y2: Sample)
    requires var d := Samples(filter, i, st);
      y1 == filter(i, d.state) && y2 == filter(i + 1, Extend(d, y1).state)
    ensures Samples(filter, i + 2, st) == Extend(Extend(Samples(filter, i, st), y1), y2)
  {
    assert Samples(filter, i + 1, st) == Extend(Samples(filter, i, st), y1);
  }

  // ---- Splitting -----------------------------------------------------------------------------

  lemma {:induction false} FramesOfPrefix(decode: (Frame, History) -> Decoded, a: seq<Byte>, b: seq<Byte>, n: nat,
                                          st: History)
    requires FRAME_LEN * n <= |a|
    ensures Frames(decode, a + b, n, st) == Frames(decode, a, n, st)
  {
    if n > 0 {
      FramesOfPrefix(decode, a, b, n - 1, st);
      assert FrameAt(a + b, n - 1) == FrameAt(a, n - 1);
    }
  }

  lemma FrameOfConcat(a: seq<Byte>, b: seq<Byte>, m: nat, i: nat)
    requires |a| == FRAME_LEN * m && FRAME_LEN * i + FRAME_LEN <= |b|
    ensures FrameAt(a + b, m + i) == FrameAt(b, i)
  {
  }

  lemma ThenAssociative(d: Decoded, e: Decoded, f: Decoded)
    ensures Then(Then(d, e), f) == Then(d, Then(e, f))
  {
  }

  lemma {:induction false} FramesConcat(decode: (Frame, History) -> Decoded, a: seq<Byte>, b: seq<Byte>, m: nat,
                                        n: nat, st: History)
    requires |a| == FRAME_LEN * m && FRAME_LEN * n <= |b|
    ensures var first := Frames(decode, a, m, st);
      Frames(decode, a + b, m + n, st) == Then(first, Frames(decode, b, n, first.state))
    decreases n
  {
    if n == 0 {
      FramesOfPrefix(decode, a, b, m, st);
    } else {
      FramesConcat(decode, a, b, m, n - 1, st);
      FrameOfConcat(a, b, m, n - 1);
      var first := Frames(decode, a, m, st);
      var more := Frames(decode, b, n - 1, first.state);
      ThenAssociative(first, more, decode(FrameAt(b, n - 1), more.state));
    }
  }

  lemma SplitFrames(decode: (Frame, History) -> Decoded, a: seq<Byte>, b: seq<Byte>, st: History)
    requires |a| % FRAME_LEN == 0
    ensures var first := Frames(decode, a, |a| / FRAME_LEN, st);
      Frames(decode, a + b, |a + b| / FRAME_LEN, st) == Then(first, Frames(decode, b, |b| / FRAME_LEN, first.state))
  {
    var m, n := |a| / FRAME_LEN, |b| / FRAME_LEN;
    assert |a + b| / FRAME_LEN == m + n;
    FramesConcat(decode, a, b, m, n, st);
  }

  /** Two calls split at any frame boundary, with the history carried over, decode what one
      call does. */
  lemma SplitDecode(coeff: Coefficients, a: seq<Byte>, b: seq<Byte>, st: History)
    requires |a| % FRAME_LEN == 0
    ensures var first := Decode(coeff, a, st);
      Decode(coeff, a + b, st) == Then(first, Decode(coeff, b, first.state))
  {
    SplitFrames(FrameDecoder(coeff), a, b, st);
  }

  // ---- Overflow ---------------------------------------------------------------------------------

  predicate Fits32(x: int) { -0x8000_0000 <= x < 0x8000_0000 }

  /** Every value that the filter forms on the way, from left to right. */
  predicate PartsFit(xn: int, feedback1: int, feedback2: int) {
    && Fits32(xn) && Fits32(xn * 2048) && Fits32(xn * 2048 + 0x400)
    && Fits32(feedback1) && Fits32(feedback2)
    && Fits32(xn * 2048 + 0x400 + feedback1)
    && Fits32(Total(xn, feedback1, feedback2))
  }

  ghost predicate SumsFit(nibble: int, scale: int, c1: int, c2: int, st: History) {
    PartsFit(nibble * scale, c1 * st.yn1, c2 * st.yn2)
  }

  /** Largest magnitude of `c * y` below and above zero over all samples `y`. */
  function Below(c: int): int { if c >= 0 then 32768 * c else -32767 * c }

  function Above(c: int): int { if c >= 0 then 32767 * c else -32768 * c }

  /** The two extremes of the filter stay in range. */
  predicate Tame(c1: int, c2: int) {
    && 0x2000_0000 - 0x400 + Below(c1) + Below(c2) <= 0x8000_0000
    && 0x1C00_0000 + 0x400 + Above(c1) + Above(c2) < 0x8000_0000
  }

  lemma MulMonotone(c: int, x: int, y: int)
    requires c >= 0 && x <= y
    ensures c * x <= c * y
  {
  }

  lemma ProductBounds(c: int, y: Sample)
    ensures -Below(c) <= c * y <= Above(c)
  {
    if c >= 0 {
      MulMonotone(c, -32768, y);
      MulMonotone(c, y, 32767);
    } else {
      MulMonotone(-c, -32768, y);
      MulMonotone(-c, y, 32767);
      assert (-c) * y == -(c * y);
    }
  }

  lemma ScaledNibble(nibble: int, scale: int)
    requires -8 <= nibble <= 7 && 1 <= scale <= 32768
    ensures -0x4_0000 <= nibble * scale <= 0x3_8000
  {
    MulMonotone(scale, -8, nibble);
    MulMonotone(scale, nibble, 7);
  }

  lemma BoundedPartsFit(xn: int, q1: int, q2: int, c1: Sample, c2: Sample)
    requires -0x4_0000 <= xn <= 0x3_8000 && Tame(c1, c2)
    requires -Below(c1) <= q1 <= Above(c1) && -Below(c2) <= q2 <= Above(c2)
    ensures PartsFit(xn, q1, q2)
  {
  }

  lemma TameSumsFit(nibble: int, scale: int, c1: Sample, c2: Sample, st: History)
    requires -8 <= nibble <= 7 && 1 <= scale <= 32768 && Tame(c1, c2)
    ensures SumsFit(nibble, scale, c1, c2, st)
    ensures Wrap32(FilterSum(nibble, scale, c1, c2, st)) == FilterSum(nibble, scale, c1, c2, st)
  {
    ScaledNibble(nibble, scale);
    ProductBounds(c1, st.yn1);
    ProductBounds(c2, st.yn2);
    BoundedPartsFit(nibble * scale, c1 * st.yn1, c2 * st.yn2, c1, c2);
  }

  /** The samples at which `c * y` is least and greatest. */
  function Lowest(c: int): Sample { if c >= 0 then -32768 as Sample else 32767 as Sample }

  function Highest(c: int): Sample { if c >= 0 then 32767 as Sample else -32768 as Sample }

  /** No sum leaves 32 bits, whatever the nibble, the scale and the history, exactly when the
      two extremes stay in range. */
  lemma FitsExactlyWhen(c1: Sample, c2: Sample)
    ensures (forall nibble, scale, st :: -8 <= nibble <= 7 && 1 <= scale <= 32768 ==>
               SumsFit(nibble, scale, c1, c2, st))
       <==> Tame(c1, c2)
  {
    if Tame(c1, c2) {
      forall nibble, scale, st | -8 <= nibble <= 7 && 1 <= scale <= 32768
        ensures SumsFit(nibble, scale, c1, c2, st)
      {
        TameSumsFit(nibble, scale, c1, c2, st);
      }
    } else {
      var low, high := History(Lowest(c1), Lowest(c2)), History(Highest(c1), Highest(c2));
      assert c1 * low.yn1 == -Below(c1) && c2 * low.yn2 == -Below(c2);
      assert c1 * high.yn1 == Above(c1) && c2 * high.yn2 == Above(c2);
      assert !SumsFit(-8, 32768, c1, c2, low) || !SumsFit(7, 32768, c1, c2, high);
    }
  }

  function Abs(x: int): int { if x >= 0 then x else -x }

  /** A simple sufficient bound on the coefficients. */
  lemma SmallCoefficientsFit(c1: Sample, c2: Sample)
    requires Abs(c1) + Abs(c2) <= 49152
    ensures Tame(c1, c2)
  {
  }

  /** Coefficients far out of range: the sum passes 2^31, and the sample comes out at the lower limit
      instead of the upper one. */
  lemma OverflowCounterexample()
    ensures !Tame(32767, 32767)
    ensures var st := History(32767, 32767);
      && !SumsFit(1, 64, 32767, 32767, st)
      && Filter(1, 64, 32767, 32767, st) == -32768 && Ideal(1, 64, 32767, 32767, st) == 32767
  {
    var st := History(32767, 32767);
    assert FilterSum(1, 64, 32767, 32767, st) == 2147484674;
    IdealIsFloor(1, 64, 32767, 32767, st);
  }

  // ---- The filter without machine arithmetic ------------------------------------------------------

  /** The coefficients are fractions of 2048: the scaled nibble, a half for rounding, and the two
      samples before, weighted; rounded down and clamped. */
  ghost function Ideal(nibble: int, scale: int, c1: int, c2: int, st: History): (y: Sample) {
    Clamp(((nibble * scale) as real + 0.5 + c1 as real / 2048.0 * st.yn1 as real
           + c2 as real / 2048.0 * st.yn2 as real).Floor)
  }

  lemma Weighted(c: int, y: int)
    ensures c as real / 2048.0 * y as real == (c * y) as real / 2048.0
  {
    var q := c as real / 2048.0;
    assert q * 2048.0 == c as real;
    assert (q * y as real) * 2048.0 == c as real * y as real == (c * y) as real;
  }

  lemma FloorIs(n: int)
    ensures (n as real / 2048.0).Floor == n / 2048
  {
    var q, r := n / 2048, n % 2048;
    assert n as real / 2048.0 == q as real + r as real / 2048.0;
  }

  lemma IdealIsFloor(nibble: int, scale: int, c1: int, c2: int, st: History)
    ensures Ideal(nibble, scale, c1, c2, st) == Clamp(FilterSum(nibble, scale, c1, c2, st) / 2048)
  {
    var xn, q1, q2 := nibble * scale, c1 * st.yn1, c2 * st.yn2;
    Weighted(c1, st.yn1);
    Weighted(c2, st.yn2);
    assert xn as real + 0.5 + q1 as real / 2048.0 + q2 as real / 2048.0 == Total(xn, q1, q2) as real / 2048.0;
    FloorIs(Total(xn, q1, q2));
  }

  /** The exact value of the filter, before rounding. */
  ghost function Value(nibble: int, scale: int, c1: int, c2: int, st: History): real {
    (nibble * scale) as real + c1 as real * st.yn1 as real / 2048.0 + c2 as real * st.yn2 as real / 2048.0
  }

  /** The ideal sample is the one nearest to that value, halves going up, within the limits. */
  lemma IdealIsNearest(nibble: int, scale: int, c1: int, c2: int, st: History)
    ensures var v, y := Value(nibble, scale, c1, c2, st), Ideal(nibble, scale, c1, c2, st);
      && (v >= 32767.5 ==> y == 32767) && (v < -32768.5 ==> y == -32768)
      && (-32768.5 <= v < 32767.5 ==> y as real - 0.5 <= v < y as real + 0.5)
  {
    Weighted(c1, st.yn1);
    Weighted(c2, st.yn2);
  }

  /** With coefficients in range, 32-bit fixed-point arithmetic gives exactly the ideal sample. */
  lemma FilterIsIdeal(nibble: int, scale: int, c1: Sample, c2: Sample, st: History)
    requires -8 <= nibble <= 7 && 1 <= scale <= 32768 && Tame(c1, c2)
    ensures Filter(nibble, scale, c1, c2, st) == Ideal(nibble, scale, c1, c2, st)
  {
    TameSumsFit(nibble, scale, c1, c2, st);
    IdealIsFloor(nibble, scale, c1, c2, st);
  }

  /** And only then: out of range, some nibble, scale and history give a sample at the wrong limit. */
  lemma IdealExactlyWhen(c1: Sample, c2: Sample)
    ensures (forall nibble, scale, st :: -8 <= nibble <= 7 && 1 <= scale <= 32768 ==>
               Filter(nibble, scale, c1, c2, st) == Ideal(nibble, scale, c1, c2, st))
       <==> Tame(c1, c2)
  {
    if Tame(c1, c2) {
      forall nibble, scale, st | -8 <= nibble <= 7 && 1 <= scale <= 32768
        ensures Filter(nibble, scale, c1, c2, st) == Ideal(nibble, scale, c1, c2, st)
      {
        FilterIsIdeal(nibble, scale, c1, c2, st);
      }
    } else {
      var low, high := History(Lowest(c1), Lowest(c2)), History(Highest(c1), Highest(c2));
      assert c1 * low.yn1 == -Below(c1) && c2 * low.yn2 == -Below(c2);
      assert c1 * high.yn1 == Above(c1) && c2 * high.yn2 == Above(c2);
      IdealIsFloor(-8, 32768, c1, c2, low);
      IdealIsFloor(7, 32768, c1, c2, high);
      WrongLimit(FilterSum(-8, 32768, c1, c2, low));
      WrongLimit(FilterSum(7, 32768, c1, c2, high));
      assert Filter(-8, 32768, c1, c2, low) != Ideal(-8, 32768, c1, c2, low)
        || Filter(7, 32768, c1, c2, high) != Ideal(7, 32768, c1, c2, high);
    }
  }

  lemma WrongLimit(sum: int)
    requires -0xC000_0000 <= sum < 0xC000_0000
    ensures sum >= 0x8000_0000 ==> Clamp(Wrap32(sum) / 2048) == -32768 && Clamp(sum / 2048) == 32767
    ensures sum < -0x8000_0000 ==> Clamp(Wrap32(sum) / 2048) == 32767 && Clamp(sum / 2048) == -32768
  {
  }

  predicate AllTame(coeff: Coefficients) { forall i :: 0 <= i < 8 ==> Tame(coeff[2 * i], coeff[2 * i + 1]) }

  // ---- The frame format -------------------------------------------------------------------------

  /** A frame by its parts: which coefficient pair, the power of two to scale by, the unused top
      bit of the header, and fourteen signed nibbles. */
  datatype Packet = Packet(index: int, shift: int, top: bool, nibbles: seq<int>)

  predicate WellFormed(p: Packet) {
    && 0 <= p.index < 8 && 0 <= p.shift < 16 && |p.nibbles| == 14
    && forall k :: 0 <= k < 14 ==> -8 <= p.nibbles[k] <= 7
  }

  /** A signed nibble in four bits. */
  function HalfByte(n: int): (r: int)
    requires -8 <= n <= 7
    ensures 0 <= r < 16
  {
    if n < 0 then n + 16 else n
  }

  function Print(p: Packet): (frame: Frame)
    requires WellFormed(p)
  {
    [(if p.top then 128 else 0) + 16 * p.index + p.shift]
    + seq(7, j requires 0 <= j < 7 => 16 * HalfByte(p.nibbles[2 * j]) + HalfByte(p.nibbles[2 * j + 1]))
  }

  /** A sample for each nibble in turn, each seen by the two after it. */
  function Answer(filter: (int, History) -> Sample, nibbles: seq<int>, st: History): (d: Decoded)
    ensures |d.samples| == |nibbles|
  {
    if nibbles == [] then Decoded([], st) else
      var y := filter(nibbles[0], st);
      var d := Answer(filter, nibbles[1..], History(y, st.yn1));
      Decoded([y] + d.samples, d.state)
  }

  /** The same for a sequence of frames, each with its own filter. */
  ghost function Respond(filterOf: Packet -> ((int, History) -> Sample), ps: seq<Packet>, st: History): Decoded {
    if ps == [] then Decoded([], st) else
      var d := Respond(filterOf, ps[..|ps| - 1], st);
      Then(d, Answer(filterOf(ps[|ps| - 1]), ps[|ps| - 1].nibbles, d.state))
  }

  /** The filter of a frame: its coefficient pair, and its scale as a power of two. */
  function MachineFilter(coeff: Coefficients, p: Packet): (int, History) -> Sample {
    (n: int, st: History) =>
      if 0 <= p.index < 8 && p.shift >= 0 then
        Filter(n, Pow2(p.shift), coeff[2 * p.index], coeff[2 * p.index + 1], st)
      else 0
  }

  ghost function ExactFilter(coeff: Coefficients, p: Packet): (int, History) -> Sample {
    (n: int, st: History) =>
      if 0 <= p.index < 8 && p.shift >= 0 then
        Ideal(n, Pow2(p.shift), coeff[2 * p.index], coeff[2 * p.index + 1], st)
      else 0
  }

  ghost function Machine(coeff: Coefficients): Packet -> ((int, History) -> Sample) {
    (p: Packet) => MachineFilter(coeff, p)
  }

  ghost function Exact(coeff: Coefficients): Packet -> ((int, History) -> Sample) {
    (p: Packet) => ExactFilter(coeff, p)
  }

  lemma HeaderParts(header: Byte, index: int, shift: int, top: bool)
    requires 0 <= index < 8 && 0 <= shift < 16 && header == (if top then 128 else 0) + 16 * index + shift
    ensures FilterIndex(header) == index && Scale(header) == Pow2(shift)
  {
    assert header / 16 == (if top then 8 else 0) + index && header % 16 == shift;
  }

  lemma ByteParts(byte: int, a: int, b: int)
    requires -8 <= a <= 7 && -8 <= b <= 7 && byte == 16 * HalfByte(a) + HalfByte(b)
    ensures SignedNibble(byte / 16) == a && SignedNibble(byte % 16) == b
  {
  }

  lemma PrintedNibble(p: Packet, k: int)
    requires WellFormed(p) && 0 <= k < 14
    ensures SignedNibble(NibbleAt(Print(p), k)) == p.nibbles[k]
  {
    var j := k / 2;
    ByteParts(Print(p)[1 + j], p.nibbles[2 * j], p.nibbles[2 * j + 1]);
  }

  lemma PrintParts(p: Packet, k: int)
    requires WellFormed(p) && 0 <= k < 14
    ensures FilterIndex(Print(p)[0]) == p.index && Scale(Print(p)[0]) == Pow2(p.shift)
    ensures SignedNibble(NibbleAt(Print(p), k)) == p.nibbles[k]
  {
    HeaderParts(Print(p)[0], p.index, p.shift, p.top);
    PrintedNibble(p, k);
  }

  lemma {:induction false} AnswerPush(filter: (int, History) -> Sample, front: seq<int>, n: int, nibbles: seq<int>,
                                      st: History)
    requires nibbles == front + [n]
    ensures var d := Answer(filter, front, st); Answer(filter, nibbles, st) == Extend(d, filter(n, d.state))
    decreases |front|
  {
    if front == [] {
      assert nibbles[1..] == [];
    } else {
      assert nibbles[1..] == front[1..] + [n];
      AnswerPush(filter, front[1..], n, nibbles[1..], History(filter(front[0], st), st.yn1));
    }
  }

  lemma {:induction false} SamplesAnswer(g: (int, History) -> Sample, filter: (int, History) -> Sample,
                                         nibbles: seq<int>, st: History)
    requires forall k, h :: 0 <= k < |nibbles| ==> g(k, h) == filter(nibbles[k], h)
    ensures Samples(g, |nibbles|, st) == Answer(filter, nibbles, st)
    decreases |nibbles|
  {
    if nibbles != [] {
      var k := |nibbles| - 1;
      SamplesAnswer(g, filter, nibbles[..k], st);
      AnswerPush(filter, nibbles[..k], nibbles[k], nibbles, st);
    }
  }

  /** A frame made of these parts decodes to the answer of its filter to its nibbles. */
  lemma FrameMeans(coeff: Coefficients, p: Packet, st: History)
    requires WellFormed(p)
    ensures FrameDecoder(coeff)(Print(p), st) == Answer(Machine(coeff)(p), p.nibbles, st)
  {
    assert Machine(coeff)(p) == MachineFilter(coeff, p);
    forall k, h | 0 <= k < 14 ensures FrameFilter(coeff, Print(p))(k, h) == Machine(coeff)(p)(p.nibbles[k], h) {
      PrintParts(p, k);
    }
    SamplesAnswer(FrameFilter(coeff, Print(p)), Machine(coeff)(p), p.nibbles, st);
  }

  predicate AllWellFormed(ps: seq<Packet>) { forall i :: 0 <= i < |ps| ==> WellFormed(ps[i]) }

  function PrintAll(ps: seq<Packet>): (data: seq<Byte>)
    requires AllWellFormed(ps)
    ensures |data| == FRAME_LEN * |ps|
  {
    if ps == [] then [] else PrintAll(ps[..|ps| - 1]) + Print(ps[|ps| - 1])
  }

  /** The data is these frames and less than one frame more. */
  predicate Prints(ps: seq<Packet>, data: seq<Byte>) {
    AllWellFormed(ps) && |ps| == |data| / FRAME_LEN && data[..FRAME_LEN * |ps|] == PrintAll(ps)
  }

  lemma FrameBehind(front: seq<Byte>, last: Frame, n: nat, data: seq<Byte>)
    requires |front| == FRAME_LEN * n && front + last <= data
    ensures front <= data && FrameAt(data, n) == last
  {
    assert data[|front|..|front| + FRAME_LEN] == (front + last)[|front|..|front| + FRAME_LEN] == last;
  }

  lemma LastFrame(ps: seq<Packet>, last: Packet, data: seq<Byte>)
    requires AllWellFormed(ps) && ps != [] && last == ps[|ps| - 1] && PrintAll(ps) <= data
    ensures PrintAll(ps[..|ps| - 1]) <= data && FrameAt(data, |ps| - 1) == Print(last)
  {
    FrameBehind(PrintAll(ps[..|ps| - 1]), Print(last), |ps| - 1, data);
  }

  lemma {:induction false} FramesAnswer(coeff: Coefficients, ps: seq<Packet>, data: seq<Byte>, st: History)
    requires AllWellFormed(ps) && PrintAll(ps) <= data
    ensures Frames(FrameDecoder(coeff), data, |ps|, st) == Respond(Machine(coeff), ps, st)
    decreases |ps|
  {
    if ps != [] {
      var n := |ps| - 1;
      LastFrame(ps, ps[n], data);
      FramesAnswer(coeff, ps[..n], data, st);
      FrameMeans(coeff, ps[n], Respond(Machine(coeff), ps[..n], st).state);
    }
  }

  /** All data, by its frames. */
  lemma DecodePackets(coeff: Coefficients, ps: seq<Packet>, data: seq<Byte>, st: History)
    requires Prints(ps, data)
    ensures Decode(coeff, data, st) == Respond(Machine(coeff), ps, st)
  {
    FramesAnswer(coeff, ps, data, st);
  }

  lemma PacketHeader(header: Byte)
    ensures (if header >= 128 then 128 else 0) + 16 * (header / 16 % 8) + header % 16 == header
  {
  }

  lemma PacketByte(frame: Frame, j: int, a: int, b: int)
    requires 0 <= j < 7
    requires a == SignedNibble(NibbleAt(frame, 2 * j)) && b == SignedNibble(NibbleAt(frame, 2 * j + 1))
    ensures 16 * HalfByte(a) + HalfByte(b) == frame[1 + j]
  {
    assert 2 * j / 2 == j && (2 * j + 1) / 2 == j;
  }

  /** The parts of a frame. */
  function PacketOf(frame: Frame): (p: Packet)
    ensures WellFormed(p)
  {
    Packet(frame[0] / 16 % 8, frame[0] % 16, frame[0] >= 128,
           seq(14, k requires 0 <= k < 14 => SignedNibble(NibbleAt(frame, k))))
  }

  lemma PacketPrinted(frame: Frame, i: int)
    requires 0 <= i < 8
    ensures Print(PacketOf(frame))[i] == frame[i]
  {
    var p := PacketOf(frame);
    if i == 0 {
      PacketHeader(frame[0]);
    } else {
      PacketByte(frame, i - 1, p.nibbles[2 * (i - 1)], p.nibbles[2 * (i - 1) + 1]);
    }
  }

  lemma FrameIsPacket(frame: Frame)
    ensures Print(PacketOf(frame)) == frame
  {
    var bytes := Print(PacketOf(frame));
    forall i | 0 <= i < 8 ensures bytes[i] == frame[i] { PacketPrinted(frame, i); }
  }

  lemma FramesJoin(data: seq<Byte>, n: nat)
    requires FRAME_LEN * (n + 1) <= |data|
    ensures data[..FRAME_LEN * n] + FrameAt(data, n) == data[..FRAME_LEN * (n + 1)]
  {
  }

  /** And all data has such frames. */
  lemma {:induction false} DataIsPackets(data: seq<Byte>, n: nat) returns (ps: seq<Packet>)
    requires FRAME_LEN * n <= |data|
    ensures |ps| == n && AllWellFormed(ps) && PrintAll(ps) == data[..FRAME_LEN * n]
  {
    ps := [];
    if n > 0 {
      var front := DataIsPackets(data, n - 1);
      var frame := FrameAt(data, n - 1);
      FrameIsPacket(frame);
      FramesJoin(data, n - 1);
      ps := front + [PacketOf(frame)];
      assert ps[..n - 1] == front;
    }
  }

  lemma {:induction false} SameAnswer(f: (int, History) -> Sample, g: (int, History) -> Sample, nibbles: seq<int>,
                                      st: History)
    requires forall k, h :: 0 <= k < |nibbles| ==> f(nibbles[k], h) == g(nibbles[k], h)
    ensures Answer(f, nibbles, st) == Answer(g, nibbles, st)
  {
    if nibbles != [] {
      var y := f(nibbles[0], st);
      assert forall k, h :: 0 <= k < |nibbles| - 1 ==> f(nibbles[1..][k], h) == g(nibbles[1..][k], h);
      SameAnswer(f, g, nibbles[1..], History(y, st.yn1));
    }
  }

  lemma ScaleBounds(shift: int)
    requires 0 <= shift < 16
    ensures 1 <= Pow2(shift) <= 32768
  {
    PowMonotone(shift, 15);
    assert Pow2(15) == 32768;
  }

  lemma {:induction false} RespondIsExact(coeff: Coefficients, ps: seq<Packet>, st: History)
    requires AllTame(coeff) && AllWellFormed(ps)
    ensures Respond(Machine(coeff), ps, st) == Respond(Exact(coeff), ps, st)
    decreases |ps|
  {
    if ps != [] {
      var n := |ps| - 1;
      var p := ps[n];
      RespondIsExact(coeff, ps[..n], st);
      ScaleBounds(p.shift);
      forall k, h | 0 <= k < 14 ensures Machine(coeff)(p)(p.nibbles[k], h) == Exact(coeff)(p)(p.nibbles[k], h) {
        FilterIsIdeal(p.nibbles[k], Pow2(p.shift), coeff[2 * p.index], coeff[2 * p.index + 1], h);
      }
      SameAnswer(Machine(coeff)(p), Exact(coeff)(p), p.nibbles, Respond(Machine(coeff), ps[..n], st).state);
    }
  }

  /** With all eight coefficient pairs in range, the decoder gives exactly the samples of the ideal
      filter, for all data and every history. */
  lemma DecodeIsIdeal(coeff: Coefficients, ps: seq<Packet>, data: seq<Byte>, st: History)
    requires AllTame(coeff) && Prints(ps, data)
    ensures Decode(coeff, data, st) == Respond(Exact(coeff), ps, st)
  {
    DecodePackets(coeff, ps, data, st);
    RespondIsExact(coeff, ps, st);
  }
}
