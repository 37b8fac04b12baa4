/** The divider registers of the AXI dynamic clock and dglnt_dynclk_set_rate of ddynclk.c. */
module DynClk {
  import opened Words
  import opened ModeSearch

  const CLK_BIT_WEDGE: bv32 := 0x2000
  const CLK_BIT_NOCOUNT: bv32 := 0x1000
  const ERR_CLKCOUNTCALC: bv32 := 0xFFFF_FFFF
  const ERR_CLKDIVIDER: bv32 := 0x3000
  const DYNCLK_DIV_1_REGMASK: bv32 := 0x1041

  // ----- Encoding -----

  /** dglnt_dynclk_divider. */
  function DividerWord(divide: bv32): bv32 {
    if divide < 1 || divide > 128 then ERR_CLKDIVIDER
    else if divide == 1 then DYNCLK_DIV_1_REGMASK
    else
      var highTime := divide / 2;
      var odd := divide & 0x1 != 0;
      var lowTime := if odd then highTime + 1 else highTime;
      (if odd then CLK_BIT_WEDGE else 0) | (0x03F & lowTime) | (0xFC0 & (highTime << 6))
  }

  /** dglnt_dynclk_count_calc: the same fields, with the two flag bits moved up by ten. */
  function CountWord(divide: bv32): bv32 {
    var divCalc := DividerWord(divide);
    if divCalc == ERR_CLKDIVIDER then ERR_CLKCOUNTCALC
    else (0xFFF & divCalc) | ((divCalc << 10) & 0x00C0_0000)
  }

  // ----- Decoding, as the MMCM reads the fields: a zero count field stands for 64 -----

  function Field(v: bv32): bv32 { if v & 0x3F == 0 then 64 else v & 0x3F }

  function Decode(noCount: bool, word: bv32): bv32 {
    if noCount then 1 else Field(word) + Field(word >> 6)
  }

  function DecodeDivider(word: bv32): bv32 { Decode(word & CLK_BIT_NOCOUNT != 0, word) }
  function DecodeCount(word: bv32): bv32 { Decode(word & (CLK_BIT_NOCOUNT << 10) != 0, word) }

  /** Every divider from 1 to 128 survives both encodings, and no such word is taken for an error. */
  lemma DividerRoundTrip(divide: bv32)
    requires 1 <= divide <= 128
    ensures DividerWord(divide) != ERR_CLKDIVIDER && CountWord(divide) != ERR_CLKCOUNTCALC
    ensures DecodeDivider(DividerWord(divide)) == divide
  {
  }

  lemma CountRoundTrip(divide: bv32)
    requires 1 <= divide <= 128
    ensures DecodeCount(CountWord(divide)) == divide
  {
  }

  /** The edge flag tells an odd divider from an even one. */
  lemma EdgeIsParity(divide: bv32)
    requires 2 <= divide <= 128
    ensures DividerWord(divide) & CLK_BIT_WEDGE != 0 <==> divide % 2 == 1
    ensures CountWord(divide) & (CLK_BIT_WEDGE << 10) != 0 <==> divide % 2 == 1
  {
  }

  // ----- Registers -----

  const XST_FAILURE := 1

  /** The divider part of `struct dglnt_dynclk_reg`. */
  datatype Reg = Reg(clk0L: bv32, clkFBL: bv32, clkFBH_clk0H: bv32, divclk: bv32)

  function Word(n: nat): bv32
    requires n <= 128
  {
    (n as bv8) as bv32
  }

  function DividerOf(n: nat): bv32 { if n < 1 || n > 128 then ERR_CLKDIVIDER else DividerWord(Word(n)) }
  function CountOf(n: nat): bv32 { if n < 1 || n > 128 then ERR_CLKCOUNTCALC else CountWord(Word(n)) }

  /** A register word as a number. */
  function Value(w: bv32): nat { ((w & 0xFF) as bv8) as nat }

  lemma WordRange(n: nat)
    requires 1 <= n <= 128
    ensures 1 <= Word(n) <= 128 && Value(Word(n)) == n
  {
    assert (n as bv8) as nat == n;
    assert ((((n as bv8) as bv32) & 0xFF) as bv8) == n as bv8;
    assert 1 <= n as bv8 <= 128;
  }

  /** dglnt_dynclk_find_reg. */
  method FindReg(clkParams: Mode) returns (rv: int, reg: Reg)
    ensures rv == 0 <==> 2 <= clkParams.fbmult <= 64 && 1 <= clkParams.clkdiv <= 128 && 1 <= clkParams.maindiv <= 128
    ensures rv == 0 ==> Holds(reg, clkParams)
    ensures rv != 0 ==> rv == XST_FAILURE
  {
    reg := Reg(0, 0, 0, 0);
    if clkParams.fbmult < 2 || clkParams.fbmult > 64 {
      return XST_FAILURE, reg;
    }
    CountDecodes(clkParams.clkdiv);
    CountDecodes(clkParams.fbmult);
    DividerDecodes(clkParams.maindiv);
    hide CountOf, DividerOf, DecodeCount, DecodeDivider, Value;
    reg := reg.(clk0L := CountOf(clkParams.clkdiv));
    if reg.clk0L == ERR_CLKCOUNTCALC {
      return XST_FAILURE, reg;
    }
    reg := reg.(clkFBL := CountOf(clkParams.fbmult));
    if reg.clkFBL == ERR_CLKCOUNTCALC {
      return XST_FAILURE, reg;
    }
    reg := reg.(clkFBH_clk0H := 0, divclk := DividerOf(clkParams.maindiv));
    if reg.divclk == ERR_CLKDIVIDER {
      return XST_FAILURE, reg;
    }
    rv := 0;
  }

  /** The registers decode to the dividers of the mode. */
  predicate Holds(reg: Reg, mode: Mode) {
    && Value(DecodeCount(reg.clk0L)) == mode.clkdiv
    && Value(DecodeCount(reg.clkFBL)) == mode.fbmult
    && Value(DecodeDivider(reg.divclk)) == mode.maindiv
  }

  lemma CountDecodes(n: nat)
    ensures CountOf(n) != ERR_CLKCOUNTCALC <==> 1 <= n <= 128
    ensures 1 <= n <= 128 ==> Value(DecodeCount(CountOf(n))) == n
  {
    hide Value, Word, DecodeCount, CountWord, DecodeDivider, DividerWord;
    if 1 <= n <= 128 {
      WordRange(n);
      DividerRoundTrip(Word(n));
      CountRoundTrip(Word(n));
    }
  }

  lemma DividerDecodes(n: nat)
    ensures DividerOf(n) != ERR_CLKDIVIDER <==> 1 <= n <= 128
    ensures 1 <= n <= 128 ==> Value(DecodeDivider(DividerOf(n))) == n
  {
    hide Value, Word, DecodeDivider, DividerWord, CountWord;
    if 1 <= n <= 128 {
      WordRange(n);
      DividerRoundTrip(Word(n));
    }
  }

  /** A mode the search returns always has register values. */
  lemma OptimalModeFits(mode: Mode, parent: nat, f: nat)
    requires parent > 0 && Optimal(mode, parent, f)
    ensures 2 <= mode.fbmult <= 64 && 1 <= mode.clkdiv <= 128 && 1 <= mode.maindiv <= 106
  {
    RangeLimits(mode.maindiv, mode.fbmult, parent);
    hide InRange, OutFreq;
  }

  // ----- The driver instance -----

  /** The driver instance and the registers of its device. Rates in Hz. */
  class Instance {
    var freq: nat
    var reg: Reg
    var running: bool
    const isReady: bool

    constructor (isReady: bool)
      ensures this.isReady == isReady && freq == 0 && !running
    {
      this.isReady, freq, running := isReady, 0, false;
      reg := Reg(0, 0, 0, 0);
    }

    /** dglnt_dynclk_enable, which waits for the device to lock before it returns. */
    method Enable()
      modifies this`running
      ensures running == (old(running) || (isReady && freq != 0))
    {
      if isReady && freq != 0 {
        running := true;
      }
    }

    method Disable()
      modifies this`running
      ensures !running
    {
      running := false;
    }

    /** dglnt_dynclk_set_rate. It fails, changing nothing, exactly for a zero rate, or for a new
        rate when the reference clock is outside 10 MHz to 1.2 GHz. Setting the rate already in
        force changes nothing. Otherwise the registers decode to a mode closest to five times the
        rate, and the recorded frequency is what that mode delivers. */
    method SetRate(rate: nat, parentRate: nat) returns (rv: int)
      requires rate < U32 && parentRate < U32
      modifies this
      ensures var parent := W(parentRate + 500) / 1000;
        rv == 0 <==>
          && parentRate != 0 && rate != 0
          && (rate == old(freq) || MMCM_FREQ_PFDMIN <= parent <= MMCM_FREQ_VCOMAX)
      ensures rv != 0 ==> rv == XST_FAILURE
      ensures rv != 0 || rate == old(freq) ==> freq == old(freq) && reg == old(reg) && running == old(running)
      ensures rv == 0 && rate != old(freq) ==>
        var parent := W(parentRate + 500) / 1000;
        && running == isReady
        && parent > 0
        && exists mode: Mode ::
             && Optimal(mode, parent, Target(W(rate + 100) / 200))
             && Holds(reg, mode) && freq == mode.freq * 200
    {
      hide Optimal, Holds;
      if parentRate == 0 || rate == 0 {
        return XST_FAILURE;
      }
      if rate == freq {
        return 0;
      }
      var kiloRate := W(rate + 100) / 200;
      var kiloParent := W(parentRate + 500) / 1000;
      var found, clkMode := FindMode(kiloRate, kiloParent);
      if found == 0 {
        return XST_FAILURE;
      }
      OptimalModeFits(clkMode, kiloParent, Target(kiloRate));
      var status, clkReg := FindReg(clkMode);
      reg := clkReg;
      freq := W(clkMode.freq * 200);
      FreqFits(clkMode, kiloParent, Target(kiloRate));
      Disable();
      Enable();
      rv := 0;
    }
  }

  lemma FreqFits(mode: Mode, parent: nat, f: nat)
    requires parent > 0 && Optimal(mode, parent, f)
    ensures 0 < mode.freq && W(mode.freq * 200) == mode.freq * 200
  {
    var d, b := mode.maindiv, mode.fbmult;
    hide W, VcoFreq, ClkDiv, InRange;
    VcoInWindow(d, b, parent);
    QuotientAtMost(VcoFreq(d, b, parent), ClkDiv(d, b, parent, f));
    WSmall(mode.freq * 200);
  }

  lemma QuotientAtMost(v: nat, c: nat)
    requires c > 0
    ensures v / c <= v
  {
    FloorMul(v, c);
    MulLe(1, c, v / c);
  }
}
