/** dglnt_dynclk_find_mode of ddynclk.c: the search for MMCM dividers. Frequencies in kHz. */
module ModeSearch {
  import opened Words
  import opened Arithmetic

  const MMCM_FREQ_VCOMIN := 600000
  const MMCM_FREQ_VCOMAX := 1200000
  const MMCM_FREQ_PFDMIN := 10000
  const MMCM_FREQ_PFDMAX := 450000
  const MMCM_FREQ_OUTMIN := 4000
  const MMCM_FREQ_OUTMAX := 800000
  const MMCM_DIV_MAX := 106
  const MMCM_FB_MIN := 2
  const MMCM_FB_MAX := 64
  const MMCM_CLKDIV_MAX := 128
  const MMCM_CLKDIV_MIN := 1

  /** `struct dglnt_dynclk_mode`. */
  datatype Mode = Mode(freq: nat, fbmult: nat, clkdiv: nat, maindiv: nat)

  function Max(a: nat, b: nat): nat { if a >= b then a else b }

  /** The requested frequency as the search sees it. */
  function Target(freq: nat): (f: nat)
    ensures MMCM_FREQ_OUTMIN <= f <= MMCM_FREQ_OUTMAX
  {
    Min(Max(freq, MMCM_FREQ_OUTMIN), MMCM_FREQ_OUTMAX)
  }

  // ----- The search range -----

  function FirstDiv(parent: nat): nat { if parent > MMCM_FREQ_PFDMAX then 2 else 1 }
  function LastDiv(parent: nat): nat { Min(parent / MMCM_FREQ_PFDMIN, MMCM_DIV_MAX) }

  /** DIV_ROUND_UP(MMCM_FREQ_VCOMIN, parentFreq). */
  function VcoMinFb(parent: nat): nat
    requires parent > 0
  {
    W(MMCM_FREQ_VCOMIN + parent - 1) / parent
  }

  function VcoMaxFb(parent: nat): nat
    requires parent > 0
  {
    MMCM_FREQ_VCOMAX / parent
  }

  function MinFb(div: nat, parent: nat): nat
    requires parent > 0
  {
    Max(W(div * VcoMinFb(parent)), MMCM_FB_MIN)
  }

  function MaxFb(div: nat, parent: nat): nat
    requires parent > 0
  {
    Min(W(div * VcoMaxFb(parent)), MMCM_FB_MAX)
  }

  /** A divider and feedback pair the loops visit. */
  predicate InRange(div: nat, fb: nat, parent: nat)
    requires parent > 0
  {
    && FirstDiv(parent) <= div <= LastDiv(parent)
    && MinFb(div, parent) <= fb <= MaxFb(div, parent)
  }

  // ----- What the search computes for a pair -----

  /** u32 division; the search never divides by zero (`PairNoOverflow`). */
  function Quot(a: nat, b: nat): nat { if b == 0 then 0 else a / b }

  function ClkMult(div: nat, parent: nat, f: nat): nat {
    var divVal := W(div * f);
    Quot(W(W(parent * 1000) + divVal / 2), divVal)
  }

  function RawClkDiv(mult: nat, fb: nat): nat { W(W(mult * fb) + 500) / 1000 }

  function Clamp(d: nat): (r: nat)
    ensures MMCM_CLKDIV_MIN <= r <= MMCM_CLKDIV_MAX
  {
    Max(Min(d, MMCM_CLKDIV_MAX), MMCM_CLKDIV_MIN)
  }

  function ClkDiv(div: nat, fb: nat, parent: nat, f: nat): (r: nat)
    ensures MMCM_CLKDIV_MIN <= r <= MMCM_CLKDIV_MAX
  {
    Clamp(RawClkDiv(ClkMult(div, parent, f), fb))
  }

  function VcoFreq(div: nat, fb: nat, parent: nat): nat { Quot(W(parent * fb), div) }

  function OutFreq(div: nat, fb: nat, parent: nat, f: nat): nat {
    Quot(VcoFreq(div, fb, parent), ClkDiv(div, fb, parent, f))
  }

  function Dist(a: nat, b: nat): nat { if a >= b then a - b else b - a }

  // ----- Limits every pair in range meets -----

  lemma FloorMul(a: nat, b: nat)
    requires b > 0
    ensures a / b * b <= a < a / b * b + b
  {
  }

  lemma MulLe(a: nat, b: nat, c: nat)
    requires a <= b
    ensures a * c <= b * c
  {
  }

  /** No product or sum of the range computation overflows for a parent up to 1.2 GHz. */
  lemma RangeNoOverflow(div: nat, parent: nat)
    requires 0 < parent <= MMCM_FREQ_VCOMAX && div <= MMCM_DIV_MAX
    ensures MMCM_FREQ_VCOMIN + parent - 1 < U32
    ensures div * VcoMinFb(parent) < U32
    ensures div * VcoMaxFb(parent) < U32
  {
    FloorMul(MMCM_FREQ_VCOMIN + parent - 1, parent);
    FloorMul(MMCM_FREQ_VCOMAX, parent);
    var a, b := VcoMinFb(parent), VcoMaxFb(parent);
    MulLe(1, parent, a);
    MulLe(1, parent, b);
    MulLe(div, MMCM_DIV_MAX, a);
    MulLe(div, MMCM_DIV_MAX, b);
  }

  /** A parent beyond the VCO maximum leaves no feedback value to try. */
  lemma ParentTooFast(div: nat, fb: nat, parent: nat)
    requires parent > MMCM_FREQ_VCOMAX
    ensures !InRange(div, fb, parent)
  {
    DivZero(MMCM_FREQ_VCOMAX, parent);
  }

  lemma VcoBounds(parent: nat)
    requires 0 < parent <= MMCM_FREQ_VCOMAX
    ensures MMCM_FREQ_VCOMIN <= VcoMinFb(parent) * parent < MMCM_FREQ_VCOMIN + parent
    ensures MMCM_FREQ_VCOMAX - parent < VcoMaxFb(parent) * parent <= MMCM_FREQ_VCOMAX
  {
    WSmall(MMCM_FREQ_VCOMIN + parent - 1);
    hide W;
    FloorMul(MMCM_FREQ_VCOMIN + parent - 1, parent);
    FloorMul(MMCM_FREQ_VCOMAX, parent);
  }

  /** A pair in range, free of word arithmetic. */
  lemma RangeBounds(div: nat, fb: nat, parent: nat)
    requires 0 < parent <= MMCM_FREQ_VCOMAX && InRange(div, fb, parent)
    ensures 1 <= div <= MMCM_DIV_MAX && MMCM_FB_MIN <= fb <= MMCM_FB_MAX
    ensures MMCM_FREQ_PFDMIN * div <= parent
    ensures div * VcoMinFb(parent) <= fb <= div * VcoMaxFb(parent)
  {
    hide W, VcoMinFb, VcoMaxFb;
    var lo, hi := VcoMinFb(parent), VcoMaxFb(parent);
    RangeNoOverflow(div, parent);
    WSmall(div * lo);
    WSmall(div * hi);
    assert Max(div * lo, MMCM_FB_MIN) <= fb <= Min(div * hi, MMCM_FB_MAX);
  }

  /** The hard limits: VCO frequency, minimum phase-detector frequency, register ranges. */
  lemma RangeLimits(div: nat, fb: nat, parent: nat)
    requires parent > 0 && InRange(div, fb, parent)
    ensures MMCM_FREQ_PFDMIN <= parent <= MMCM_FREQ_VCOMAX
    ensures MMCM_FREQ_VCOMIN * div <= parent * fb <= MMCM_FREQ_VCOMAX * div
    ensures MMCM_FREQ_PFDMIN * div <= parent
    ensures 1 <= div <= MMCM_DIV_MAX && MMCM_FB_MIN <= fb <= MMCM_FB_MAX
  {
    hide InRange, VcoMinFb, VcoMaxFb;
    if parent > MMCM_FREQ_VCOMAX { ParentTooFast(div, fb, parent); }
    RangeBounds(div, fb, parent);
    VcoBounds(parent);
    VcoProducts(div, fb, parent, VcoMinFb(parent), VcoMaxFb(parent));
  }

  lemma VcoProducts(div: nat, fb: nat, parent: nat, lo: nat, hi: nat)
    requires div * lo <= fb <= div * hi
    requires MMCM_FREQ_VCOMIN <= lo * parent && hi * parent <= MMCM_FREQ_VCOMAX
    ensures MMCM_FREQ_VCOMIN * div <= parent * fb <= MMCM_FREQ_VCOMAX * div
  {
    MulLe(div * lo, fb, parent);
    MulLe(fb, div * hi, parent);
    MulLe(MMCM_FREQ_VCOMIN, lo * parent, div);
    MulLe(hi * parent, MMCM_FREQ_VCOMAX, div);
    assert div * lo * parent == lo * parent * div;
    assert div * hi * parent == hi * parent * div;
  }

  // ----- Rounding -----

  lemma RoundedQuotient(x: nat, d: nat)
    requires d > 0
    ensures 2 * x - d <= 2 * ((x + d / 2) / d * d) <= 2 * x + d
  {
    FloorMul(x + d / 2, d);
  }

  /** The first rounding step, to a thousandth of a divider. */
  lemma MultRounds(div: nat, parent: nat, f: nat)
    requires 0 < parent <= MMCM_FREQ_VCOMAX && 0 < div <= MMCM_DIV_MAX && 0 < f <= MMCM_FREQ_OUTMAX
    ensures W(div * f) == div * f > 0
    ensures var m, d := ClkMult(div, parent, f), div * f;
      2000 * parent - d <= 2 * (m * d) <= 2000 * parent + d
  {
    hide W;
    MulLe(div, MMCM_DIV_MAX, f);
    MulLe(1, div, f);
    var d := div * f;
    WSmall(d);
    WSmall(parent * 1000);
    WSmall(parent * 1000 + d / 2);
    RoundedQuotient(parent * 1000, d);
  }

  /** The product the second step rounds, against the VCO frequency. */
  lemma MultTimesFb(div: nat, fb: nat, parent: nat, f: nat)
    requires parent > 0 && InRange(div, fb, parent) && MMCM_FREQ_OUTMIN <= f <= MMCM_FREQ_OUTMAX
    ensures W(div * f) == div * f > 0
    ensures var mfb, d := ClkMult(div, parent, f) * fb, div * f;
      && 2000 * (parent * fb) - 64 * d <= 2 * (mfb * d) <= 2000 * (parent * fb) + 64 * d
      && mfb + 500 < U32
  {
    hide W, InRange, ClkMult;
    RangeLimits(div, fb, parent);
    MultRounds(div, parent, f);
    var m, d := ClkMult(div, parent, f), div * f;
    MultTimesFbBounds(m, d, fb, parent);
    ProductFits(m * fb, d, div, f, parent * fb);
  }

  lemma MultTimesFbBounds(m: nat, d: nat, fb: nat, parent: nat)
    requires 2000 * parent - d <= 2 * (m * d) <= 2000 * parent + d
    requires fb <= MMCM_FB_MAX
    ensures 2000 * (parent * fb) - 64 * d <= 2 * (m * fb * d) <= 2000 * (parent * fb) + 64 * d
  {
    MulLeInt(2000 * parent - d, 2 * (m * d), fb);
    MulLeInt(2 * (m * d), 2000 * parent + d, fb);
    assert m * fb * d == m * d * fb;
    assert (2000 * parent - d) * fb == 2000 * (parent * fb) - d * fb;
    assert (2000 * parent + d) * fb == 2000 * (parent * fb) + d * fb;
    MulLe(fb, MMCM_FB_MAX, d);
  }

  lemma MulLeInt(a: int, b: int, c: nat)
    requires a <= b
    ensures a * c <= b * c
  {
  }

  lemma ProductFits(mfb: nat, d: nat, div: nat, f: nat, pfb: nat)
    requires d == div * f && div > 0 && f >= MMCM_FREQ_OUTMIN
    requires 2 * (mfb * d) <= 2000 * pfb + 64 * d && pfb <= MMCM_FREQ_VCOMAX * div
    ensures mfb <= 600032
  {
    MulLe(MMCM_FREQ_OUTMIN, f, div);
    assert d >= 4000 * div;
    assert 2 * (mfb * d) <= 600000 * d + 64 * d;
    MulSign(mfb - 600032, d);
    assert (mfb - 600032) * d == mfb * d - 600032 * d;
  }

  /** raw output dividers of d parts each come within 0.532 of pfb parts. */
  predicate WithinRounding(raw: nat, d: nat, pfb: nat) {
    Dist(1000 * (raw * d), 1000 * pfb) <= 532 * d
  }

  /** The two-stage rounding is within 0.532 of the exact output divider: for every pair in range
      whose output divider is not clamped. */
  lemma RoundingBound(div: nat, fb: nat, parent: nat, f: nat)
    requires parent > 0 && InRange(div, fb, parent) && MMCM_FREQ_OUTMIN <= f <= MMCM_FREQ_OUTMAX
    ensures W(div * f) == div * f > 0
    ensures WithinRounding(RawClkDiv(ClkMult(div, parent, f), fb), div * f, parent * fb)
  {
    hide W, RawClkDiv, ClkMult, InRange;
    MultTimesFb(div, fb, parent, f);
    RawRounds(ClkMult(div, parent, f), fb);
    RawBound(ClkMult(div, parent, f) * fb, div * f, parent * fb, RawClkDiv(ClkMult(div, parent, f), fb));
  }

  lemma RawRounds(mult: nat, fb: nat)
    requires mult * fb + 500 < U32
    ensures var raw := RawClkDiv(mult, fb);
      mult * fb - 499 <= 1000 * raw <= mult * fb + 500
  {
    WSmall(mult * fb);
    WSmall(mult * fb + 500);
    hide W;
    ThousandthsRound(mult * fb);
  }

  lemma ThousandthsRound(y: nat)
    ensures y - 499 <= 1000 * ((y + 500) / 1000) <= y + 500
  {
  }

  lemma RawBound(mfb: nat, d: nat, pfb: nat, raw: nat)
    requires mfb - 499 <= 1000 * raw <= mfb + 500
    requires 2000 * pfb - 64 * d <= 2 * (mfb * d) <= 2000 * pfb + 64 * d
    ensures WithinRounding(raw, d, pfb)
  {
    MulLeInt(1000 * raw, mfb + 500, d);
    MulLeInt(mfb - 499, 1000 * raw, d);
    assert (1000 * raw) * d == 1000 * (raw * d);
    assert (mfb + 500) * d == mfb * d + 500 * d && (mfb - 499) * d == mfb * d - 499 * d;
  }

  // ----- Error of a pair -----

  /** How far a pair's output frequency is from the target. */
  function Error(div: nat, fb: nat, parent: nat, f: nat): nat { Dist(OutFreq(div, fb, parent, f), f) }

  lemma QuotientBetween(x: nat, b: nat, lo: nat, hi: nat)
    requires b > 0 && lo * b <= x <= hi * b
    ensures lo <= x / b <= hi
  {
    DivBelow(x, b, lo);
    DivBelow(x, b, hi + 1);
  }

  lemma VcoInWindow(div: nat, fb: nat, parent: nat)
    requires parent > 0 && InRange(div, fb, parent)
    ensures div > 0 && W(parent * fb) == parent * fb
    ensures MMCM_FREQ_VCOMIN <= VcoFreq(div, fb, parent) <= MMCM_FREQ_VCOMAX
  {
    hide InRange, W;
    RangeLimits(div, fb, parent);
    WSmall(parent * fb);
    QuotientBetween(parent * fb, div, MMCM_FREQ_VCOMIN, MMCM_FREQ_VCOMAX);
  }

  /** An output divider of 1 is only chosen for a target close enough to the VCO frequency. */
  lemma UndividedIsClose(div: nat, fb: nat, parent: nat, f: nat)
    requires parent > 0 && InRange(div, fb, parent) && MMCM_FREQ_OUTMIN <= f <= MMCM_FREQ_OUTMAX
    requires ClkDiv(div, fb, parent, f) == 1
    ensures 1000 * VcoFreq(div, fb, parent) <= 1532 * f
  {
    hide W, InRange, ClkMult, RawClkDiv;
    RoundingBound(div, fb, parent, f);
    VcoInWindow(div, fb, parent);
    var raw, d := RawClkDiv(ClkMult(div, parent, f), fb), div * f;
    var v := VcoFreq(div, fb, parent);
    assert raw <= 1;
    FloorMul(parent * fb, div);
    UndividedArithmetic(raw, d, parent * fb, v, div, f);
  }

  lemma UndividedArithmetic(raw: nat, d: nat, pfb: nat, v: nat, div: nat, f: nat)
    requires raw <= 1 && d == div * f && div > 0 && v * div <= pfb
    requires WithinRounding(raw, d, pfb)
    ensures 1000 * v <= 1532 * f
  {
    MulLe(raw, 1, d);
    assert 1000 * pfb <= 1532 * d;
    Cancel(1000 * v, 1532 * f, div);
  }

  lemma Cancel(a: nat, b: nat, c: nat)
    requires c > 0 && a * c <= b * c
    ensures a <= b
  {
    MulSign(a - b, c);
    assert (a - b) * c == a * c - b * c;
  }

  /** Every pair in range beats the initial error bound. */
  lemma EveryPairBeatsInitialBound(div: nat, fb: nat, parent: nat, f: nat)
    requires parent > 0 && InRange(div, fb, parent) && MMCM_FREQ_OUTMIN <= f <= MMCM_FREQ_OUTMAX
    ensures OutFreq(div, fb, parent, f) > 0
    ensures Error(div, fb, parent, f) < MMCM_FREQ_OUTMAX
  {
    hide W, InRange, VcoFreq, ClkDiv;
    VcoInWindow(div, fb, parent);
    RangeLimits(div, fb, parent);
    MultRounds(div, parent, f);
    var v, c := VcoFreq(div, fb, parent), ClkDiv(div, fb, parent, f);
    if c == 1 {
      UndividedIsClose(div, fb, parent, f);
    }
    OutputWindow(v, c, f);
  }

  lemma OutputWindow(v: nat, c: nat, f: nat)
    requires MMCM_FREQ_VCOMIN <= v <= MMCM_FREQ_VCOMAX && 1 <= c <= MMCM_CLKDIV_MAX
    requires MMCM_FREQ_OUTMIN <= f <= MMCM_FREQ_OUTMAX
    requires c == 1 ==> 1000 * v <= 1532 * f
    ensures v / c > 0 && Dist(v / c, f) < MMCM_FREQ_OUTMAX
  {
    DivBelow(v, c, 1);
    if c > 1 {
      DivBelow(v, c, 600001);
    }
  }

  // ----- When there is a pair at all -----

  /** The first feedback value of the first divider is in range for every usable parent. */
  lemma FirstPairInRange(parent: nat)
    requires MMCM_FREQ_PFDMIN <= parent <= MMCM_FREQ_VCOMAX
    ensures InRange(FirstDiv(parent), MinFb(FirstDiv(parent), parent), parent)
  {
    hide W, VcoMinFb, VcoMaxFb;
    VcoBounds(parent);
    RangeNoOverflow(FirstDiv(parent), parent);
    var lo, hi := VcoMinFb(parent), VcoMaxFb(parent);
    WSmall(FirstDiv(parent) * lo);
    WSmall(FirstDiv(parent) * hi);
    FirstPairFits(parent, lo, hi);
    assert FirstDiv(parent) * lo == if parent > MMCM_FREQ_PFDMAX then 2 * lo else lo;
    assert FirstDiv(parent) * hi == if parent > MMCM_FREQ_PFDMAX then 2 * hi else hi;
  }

  lemma FirstPairFits(parent: nat, lo: nat, hi: nat)
    requires MMCM_FREQ_PFDMIN <= parent <= MMCM_FREQ_VCOMAX
    requires MMCM_FREQ_VCOMIN <= lo * parent < MMCM_FREQ_VCOMIN + parent
    requires MMCM_FREQ_VCOMAX - parent < hi * parent <= MMCM_FREQ_VCOMAX
    ensures lo <= hi && lo <= 60 && 1 <= hi
    ensures parent > MMCM_FREQ_PFDMAX ==> lo <= 2
    ensures parent <= MMCM_FREQ_PFDMAX ==> 2 <= hi
  {
    MulSign(lo - hi - 1, parent);
    MulSign(lo - 61, parent);
    MulSign(lo - 3, parent);
    MulSign(hi, parent);
    MulSign(hi - 2, parent);
    assert (lo - hi - 1) * parent == lo * parent - hi * parent - parent;
    assert (lo - 61) * parent == lo * parent - 61 * parent;
    assert (lo - 3) * parent == lo * parent - 3 * parent;
    assert (hi - 2) * parent == hi * parent - 2 * parent;
  }

  // ----- The search -----

  /** The order in which the loops visit pairs. */
  predicate Before(d1: nat, b1: nat, d2: nat, b2: nat) { d1 < d2 || (d1 == d2 && b1 < b2) }

  /** The mode records a pair in range with what the code computes for it. */
  predicate Records(mode: Mode, parent: nat, f: nat)
    requires parent > 0
  {
    && InRange(mode.maindiv, mode.fbmult, parent)
    && mode.clkdiv == ClkDiv(mode.maindiv, mode.fbmult, parent, f)
    && mode.freq == OutFreq(mode.maindiv, mode.fbmult, parent, f) > 0
  }

  function ModeError(mode: Mode, parent: nat, f: nat): nat {
    Error(mode.maindiv, mode.fbmult, parent, f)
  }

  /** No pair in range is closer to the target, and none visited earlier is as close. */
  ghost predicate Optimal(mode: Mode, parent: nat, f: nat)
    requires parent > 0
  {
    && Records(mode, parent, f)
    && forall d: nat, b: nat :: InRange(d, b, parent) ==>
         && ModeError(mode, parent, f) <= Error(d, b, parent, f)
         && (Before(d, b, mode.maindiv, mode.fbmult) ==> ModeError(mode, parent, f) < Error(d, b, parent, f))
  }

  /** The same among the pairs before (div, fb); `bestError` is the code's running minimum. */
  ghost predicate BestSoFar(mode: Mode, bestError: nat, parent: nat, f: nat, div: nat, fb: nat)
    requires parent > 0
  {
    if mode.freq == 0 then
      && bestError == MMCM_FREQ_OUTMAX
      && forall d: nat, b: nat :: InRange(d, b, parent) ==> !Before(d, b, div, fb)
    else
      && Records(mode, parent, f)
      && bestError == ModeError(mode, parent, f)
      && Before(mode.maindiv, mode.fbmult, div, fb)
      && forall d: nat, b: nat :: InRange(d, b, parent) && Before(d, b, div, fb) ==>
           && bestError <= Error(d, b, parent, f)
           && (Before(d, b, mode.maindiv, mode.fbmult) ==> bestError < Error(d, b, parent, f))
  }

  /** The pair (div, fb) considered: it replaces the best mode if it is strictly better. */
  lemma ConsiderPair(mode: Mode, bestError: nat, parent: nat, f: nat, div: nat, fb: nat)
    requires parent > 0 && MMCM_FREQ_OUTMIN <= f <= MMCM_FREQ_OUTMAX
    requires InRange(div, fb, parent)
    requires BestSoFar(mode, bestError, parent, f, div, fb)
    ensures var e := Error(div, fb, parent, f);
      var next := Mode(OutFreq(div, fb, parent, f), fb, ClkDiv(div, fb, parent, f), div);
      BestSoFar(if e < bestError then next else mode, Min(e, bestError), parent, f, div, fb + 1)
  {
    EveryPairBeatsInitialBound(div, fb, parent, f);
    hide InRange, OutFreq, ClkDiv, Error, W;
  }

  /** Pairs outside the range need no visit. */
  lemma SkipTo(mode: Mode, bestError: nat, parent: nat, f: nat, div: nat, fb: nat, div': nat, fb': nat)
    requires parent > 0
    requires BestSoFar(mode, bestError, parent, f, div, fb)
    requires Before(div, fb, div', fb') || (div == div' && fb == fb')
    requires forall d: nat, b: nat :: InRange(d, b, parent) && Before(d, b, div', fb') ==> Before(d, b, div, fb)
    ensures BestSoFar(mode, bestError, parent, f, div', fb')
  {
    hide InRange, Records, Error;
  }

  /** Nor does any pair once an exact one is found. */
  lemma SkipWhenExact(mode: Mode, parent: nat, f: nat, div: nat, fb: nat, div': nat, fb': nat)
    requires parent > 0 && mode.freq > 0
    requires BestSoFar(mode, 0, parent, f, div, fb) && Before(div, fb, div', fb')
    ensures BestSoFar(mode, 0, parent, f, div', fb')
  {
    hide InRange, Records, Error;
  }

  lemma DivValPositive(div: nat, f: nat)
    requires 0 < div <= MMCM_DIV_MAX && MMCM_FREQ_OUTMIN <= f <= MMCM_FREQ_OUTMAX
    ensures W(div * f) == div * f > 0
  {
    hide W;
    MulLe(div, MMCM_DIV_MAX, f);
    MulLe(1, div, f);
    WSmall(div * f);
  }

  /** dglnt_dynclk_find_mode. It succeeds exactly for parents from 10 MHz to 1.2 GHz, whatever the
      requested frequency, and then the mode is optimal. */
  method FindMode(reqFreq: nat, parentFreq: nat) returns (freq: nat, bestPick: Mode)
    requires reqFreq < U32 && parentFreq < U32
    ensures freq == bestPick.freq
    ensures freq != 0 <==> MMCM_FREQ_PFDMIN <= parentFreq <= MMCM_FREQ_VCOMAX
    ensures freq != 0 ==> Optimal(bestPick, parentFreq, Target(reqFreq))
  {
    hide InRange, BestSoFar, Error, OutFreq, ClkDiv, ClkMult, MinFb, MaxFb;
    var bestError: nat := MMCM_FREQ_OUTMAX;
    var curDiv: nat := 1;
    var freqFound := false;
    bestPick := Mode(0, 0, 0, 0);
    if parentFreq == 0 {
      return 0, bestPick;
    }
    var f := reqFreq;
    if f < MMCM_FREQ_OUTMIN {
      f := MMCM_FREQ_OUTMIN;
    }
    if f > MMCM_FREQ_OUTMAX {
      f := MMCM_FREQ_OUTMAX;
    }
    if parentFreq > MMCM_FREQ_PFDMAX {
      curDiv := 2;
    }
    var maxDiv := parentFreq / MMCM_FREQ_PFDMIN;
    if maxDiv > MMCM_DIV_MAX {
      maxDiv := MMCM_DIV_MAX;
    }
    NothingBefore(bestPick, parentFreq, f, curDiv);
    while curDiv <= maxDiv && !freqFound
      invariant curDiv >= FirstDiv(parentFreq)
      invariant BestSoFar(bestPick, bestError, parentFreq, f, curDiv, 0)
      invariant freqFound ==> bestError == 0 && bestPick.freq > 0
      decreases maxDiv - curDiv
    {
      bestPick, bestError, freqFound := SearchFeedback(curDiv, f, parentFreq, bestPick, bestError);
      curDiv := curDiv + 1;
    }
    SearchComplete(bestPick, bestError, parentFreq, f, curDiv, freqFound);
    freq := bestPick.freq;
  }

  lemma NothingBefore(mode: Mode, parent: nat, f: nat, div: nat)
    requires parent > 0 && mode.freq == 0 && div == FirstDiv(parent)
    ensures BestSoFar(mode, MMCM_FREQ_OUTMAX, parent, f, div, 0)
  {
  }

  lemma SearchComplete(mode: Mode, bestError: nat, parent: nat, f: nat, div: nat, found: bool)
    requires 0 < parent && MMCM_FREQ_OUTMIN <= f <= MMCM_FREQ_OUTMAX
    requires BestSoFar(mode, bestError, parent, f, div, 0)
    requires found ==> bestError == 0 && mode.freq > 0
    requires !found ==> div > LastDiv(parent)
    ensures mode.freq != 0 <==> MMCM_FREQ_PFDMIN <= parent <= MMCM_FREQ_VCOMAX
    ensures mode.freq != 0 ==> Optimal(mode, parent, f)
  {
    hide Error, InRange, MinFb;
    if found {
      SkipWhenExact(mode, parent, f, div, 0, LastDiv(parent) + div + 1, 0);
    } else if MMCM_FREQ_PFDMIN <= parent <= MMCM_FREQ_VCOMAX {
      FirstPairInRange(parent);
      FirstBelowLast(parent);
      assert Before(FirstDiv(parent), MinFb(FirstDiv(parent), parent), div, 0);
    }
    if mode.freq != 0 {
      RangeLimits(mode.maindiv, mode.fbmult, parent);
    }
    AllInRangeBefore(parent, if found then LastDiv(parent) + div + 1 else div);
  }

  lemma FirstBelowLast(parent: nat)
    requires MMCM_FREQ_PFDMIN <= parent
    ensures FirstDiv(parent) <= LastDiv(parent)
  {
  }

  lemma AllInRangeBefore(parent: nat, div: nat)
    requires parent > 0 && div > LastDiv(parent)
    ensures forall d: nat, b: nat :: InRange(d, b, parent) ==> Before(d, b, div, 0)
  {
  }

  lemma RowStart(mode: Mode, bestError: nat, parent: nat, f: nat, div: nat)
    requires parent > 0 && BestSoFar(mode, bestError, parent, f, div, 0)
    ensures BestSoFar(mode, bestError, parent, f, div, MinFb(div, parent))
  {
    hide BestSoFar;
    SkipTo(mode, bestError, parent, f, div, 0, div, MinFb(div, parent));
  }

  lemma RowEnd(mode: Mode, bestError: nat, parent: nat, f: nat, div: nat, fb: nat)
    requires parent > 0 && BestSoFar(mode, bestError, parent, f, div, fb) && fb > MaxFb(div, parent)
    ensures BestSoFar(mode, bestError, parent, f, div + 1, 0)
  {
    hide BestSoFar;
    SkipTo(mode, bestError, parent, f, div, fb, div + 1, 0);
  }

  lemma ExactMeansFound(mode: Mode, parent: nat, f: nat, div: nat, fb: nat)
    requires parent > 0 && BestSoFar(mode, 0, parent, f, div, fb)
    ensures mode.freq > 0
  {
  }

  /** One feedback value. */
  method TryPair(curDiv: nat, curFb: nat, curClkMult: nat, f: nat, parentFreq: nat, mode: Mode, error: nat)
    returns (bestPick: Mode, bestError: nat, freqFound: bool)
    requires 0 < parentFreq && MMCM_FREQ_OUTMIN <= f <= MMCM_FREQ_OUTMAX
    requires InRange(curDiv, curFb, parentFreq)
    requires curDiv > 0 && curClkMult == ClkMult(curDiv, parentFreq, f)
    requires BestSoFar(mode, error, parentFreq, f, curDiv, curFb)
    ensures BestSoFar(bestPick, bestError, parentFreq, f, curDiv, curFb + 1)
    ensures freqFound ==> bestError == 0 && bestPick.freq > 0
  {
    hide BestSoFar, InRange, ClkMult, W;
    bestPick, bestError, freqFound := mode, error, false;
    ConsiderPair(mode, error, parentFreq, f, curDiv, curFb);
    var curClkDiv := W(W(curClkMult * curFb) + 500) / 1000;
    if curClkDiv > MMCM_CLKDIV_MAX {
      curClkDiv := MMCM_CLKDIV_MAX;
    }
    if curClkDiv < MMCM_CLKDIV_MIN {
      curClkDiv := MMCM_CLKDIV_MIN;
    }
    assert curClkDiv == ClkDiv(curDiv, curFb, parentFreq, f);
    hide ClkDiv;
    var curFreq := W(parentFreq * curFb) / curDiv / curClkDiv;
    assert curFreq == OutFreq(curDiv, curFb, parentFreq, f);
    hide OutFreq;
    var curError: nat := if curFreq >= f then curFreq - f else f - curFreq;
    if curError < bestError {
      bestError := curError;
      bestPick := Mode(curFreq, curFb, curClkDiv, curDiv);
    }
    if curError == 0 {
      freqFound := true;
      ExactMeansFound(bestPick, parentFreq, f, curDiv, curFb + 1);
    }
  }

  lemma DivInRange(div: nat, parent: nat)
    requires FirstDiv(parent) <= div <= LastDiv(parent)
    ensures 0 < div <= MMCM_DIV_MAX
  {
  }

  lemma PairInRange(div: nat, fb: nat, parent: nat)
    requires parent > 0 && FirstDiv(parent) <= div <= LastDiv(parent)
    requires MinFb(div, parent) <= fb <= MaxFb(div, parent)
    ensures InRange(div, fb, parent)
  {
  }

  lemma ClkMultIs(div: nat, parent: nat, f: nat)
    requires W(div * f) > 0
    ensures ClkMult(div, parent, f) == W(W(parent * 1000) + W(div * f) / 2) / W(div * f)
  {
  }

  method FeedbackRange(curDiv: nat, parentFreq: nat) returns (minFb: nat, maxFb: nat)
    requires parentFreq > 0
    ensures minFb == MinFb(curDiv, parentFreq) && maxFb == MaxFb(curDiv, parentFreq)
  {
    hide W;
    var lo := W(MMCM_FREQ_VCOMIN + parentFreq - 1) / parentFreq;
    var hi := MMCM_FREQ_VCOMAX / parentFreq;
    assert lo == VcoMinFb(parentFreq) && hi == VcoMaxFb(parentFreq);
    hide VcoMinFb, VcoMaxFb;
    minFb := W(curDiv * lo);
    maxFb := W(curDiv * hi);
    if maxFb > MMCM_FB_MAX {
      maxFb := MMCM_FB_MAX;
    }
    if minFb < MMCM_FB_MIN {
      minFb := MMCM_FB_MIN;
    }
  }

  /** The inner loop: every feedback value for one divider, until an exact match. */
  method SearchFeedback(curDiv: nat, f: nat, parentFreq: nat, mode: Mode, error: nat)
    returns (bestPick: Mode, bestError: nat, freqFound: bool)
    requires 0 < parentFreq < U32 && MMCM_FREQ_OUTMIN <= f <= MMCM_FREQ_OUTMAX
    requires FirstDiv(parentFreq) <= curDiv <= LastDiv(parentFreq)
    requires BestSoFar(mode, error, parentFreq, f, curDiv, 0)
    ensures BestSoFar(bestPick, bestError, parentFreq, f, curDiv + 1, 0)
    ensures freqFound ==> bestError == 0 && bestPick.freq > 0
  {
    hide BestSoFar, InRange, MinFb, MaxFb, ClkMult, W, FirstDiv, LastDiv;
    bestPick, bestError, freqFound := mode, error, false;
    DivInRange(curDiv, parentFreq);
    var minFb, maxFb := FeedbackRange(curDiv, parentFreq);
    DivValPositive(curDiv, f);
    var divVal := W(curDiv * f);
    var curClkMult := W(W(parentFreq * 1000) + divVal / 2) / divVal;
    assert curClkMult == ClkMult(curDiv, parentFreq, f) by { ClkMultIs(curDiv, parentFreq, f); }
    var curFb: int := minFb;
    RowStart(mode, error, parentFreq, f, curDiv);
    while curFb <= maxFb && !freqFound
      invariant minFb <= curFb
      invariant BestSoFar(bestPick, bestError, parentFreq, f, curDiv, curFb)
      invariant freqFound ==> bestError == 0 && bestPick.freq > 0
      decreases maxFb - curFb
    {
      PairInRange(curDiv, curFb, parentFreq);
      bestPick, bestError, freqFound := TryPair(curDiv, curFb, curClkMult, f, parentFreq, bestPick, bestError);
      curFb := curFb + 1;
    }
    if freqFound {
      SkipWhenExact(bestPick, parentFreq, f, curDiv, curFb, curDiv + 1, 0);
    } else {
      RowEnd(bestPick, bestError, parentFreq, f, curDiv, curFb);
    }
  }

  // ----- What the search does and does not respect -----

  /** No u32 operation of the search overflows on a pair in range. */
  lemma PairNoOverflow(div: nat, fb: nat, parent: nat, f: nat)
    requires parent > 0 && InRange(div, fb, parent) && MMCM_FREQ_OUTMIN <= f <= MMCM_FREQ_OUTMAX
    ensures W(div * f) == div * f > 0
    ensures var d, m := div * f, ClkMult(div, parent, f);
      parent * 1000 + d / 2 < U32 && m * fb + 500 < U32
    ensures parent * fb < U32
  {
    hide W, InRange, ClkMult;
    RangeLimits(div, fb, parent);
    MulLe(div, MMCM_DIV_MAX, f);
    MultTimesFb(div, fb, parent, f);
  }

  /** The search starts at divider 2 above the maximum phase-detector frequency of 450 MHz, which
      is enough only up to 900 MHz: all pairs respect that maximum exactly for such parents. */
  lemma PfdMaximumIff(parent: nat)
    requires MMCM_FREQ_PFDMIN <= parent <= MMCM_FREQ_VCOMAX
    ensures (forall d: nat, b: nat :: InRange(d, b, parent) ==> parent <= MMCM_FREQ_PFDMAX * d)
       <==> parent <= 2 * MMCM_FREQ_PFDMAX
  {
    FirstPairInRange(parent);
    hide MinFb, MaxFb;
  }

  /** The excess reaches the result: a 1 GHz parent asked for 500 MHz gets divider 2. */
  lemma PfdMaximumExceeded(mode: Mode)
    requires Optimal(mode, 1000000, 500000)
    ensures mode.maindiv == 2 && 1000000 > MMCM_FREQ_PFDMAX * mode.maindiv
  {
    ExamplePair();
    assert FirstDiv(1000000) == 2;
    hide Error, OutFreq, ClkDiv, MinFb, MaxFb, W;
    assert !Before(2, 2, mode.maindiv, mode.fbmult);
  }

  lemma ExampleRange()
    ensures InRange(2, 2, 1000000)
  {
    assert VcoMinFb(1000000) == 1;
    assert VcoMaxFb(1000000) == 1;
    assert W(2 * 1) == 2;
  }

  lemma ExampleClkDiv()
    ensures W(2 * 500000) == 1000000 && ClkDiv(2, 2, 1000000, 500000) == 2
  {
    assert W(2 * 500000) == 1000000;
    assert W(1000000 * 1000) == 1000000000;
    assert W(1000000000 + 500000) == 1000500000;
    assert 1000500000 / 1000000 == 1000;
    assert ClkMult(2, 1000000, 500000) == 1000;
    assert RawClkDiv(1000, 2) == 2;
  }

  lemma ExamplePair()
    ensures InRange(2, 2, 1000000) && Error(2, 2, 1000000, 500000) == 0
  {
    ExampleRange();
    ExampleClkDiv();
    assert W(1000000 * 2) == 2000000;
    hide InRange, ClkDiv, W;
    assert VcoFreq(2, 2, 1000000) == 1000000;
  }
}
