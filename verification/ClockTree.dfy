/** The clock tree: how the clock driver and the system file each compute the core clock from
    the same registers, and when the two agree. */
module ClockTree {
  import opened Bits

  const WORD := 0x1_0000_0000
  const MHZ24 := 24_000_000

  /** The control fields of a PLL.  `src` 0 is the 24 MHz oscillator; the other reference is
      the CLK1 pins, which the board does not drive. */
  datatype Pll = Pll(enable: bool, bypass: bool, powerDown: bool, src: int, div: int, lock: bool)

  /** The registers that determine the core clock, as fields. */
  datatype Regs = Regs(
    xtal: int, rcOsc: bool,                    // oscillator frequency, and RC oscillator selected
    periphSel: int, clk2Podf: int, ahbPodf: int, ipgPodf: int,  // bus clock divider register
    clk2Sel: int, prePeriphSel: int,           // bus clock multiplexer register
    armPodf: int,                              // ARM clock root register
    arm: Pll, sys: Pll, usb1: Pll,
    sysNum: int, sysDenom: int,                // fraction of the system PLL
    pfd0: int, pfd2: int,                      // fractions of two of its dividers
    coreClock: int)                            // the SystemCoreClock variable

  /** Every field is within the width of its register bits.  The denominator of the system PLL
      is not zero: both computations divide by it in 64 bits, which is undefined for zero. */
  predicate Valid(r: Regs) {
    && 0 <= r.xtal < WORD && 0 <= r.periphSel < 2 && 0 <= r.clk2Podf < 8 && 0 <= r.ahbPodf < 8
    && 0 <= r.ipgPodf < 4 && 0 <= r.clk2Sel < 4 && 0 <= r.prePeriphSel < 4 && 0 <= r.armPodf < 8
    && 0 <= r.arm.div < 128 && 0 <= r.sys.div < 2 && 0 <= r.usb1.div < 2
    && 0 <= r.arm.src < 4 && 0 <= r.sys.src < 4 && 0 <= r.usb1.src < 4
    && 0 <= r.sysNum < 0x4000_0000 && 0 < r.sysDenom < 0x4000_0000
    && 0 <= r.pfd0 < 64 && 0 <= r.pfd2 < 64
  }

  /** The core's 32-bit division instruction: by zero it gives zero. */
  function Udiv(x: int, y: int): int
    requires 0 <= x && 0 <= y
  {
    if y == 0 then 0 else x / y
  }

  function OscFreq(r: Regs): int { if r.rcOsc then MHZ24 else r.xtal }

  function Multiplier(div: int): int { if div != 0 then 22 else 20 }

  // ----- The clock driver -----

  function RefFreq(r: Regs, p: Pll): int { if p.src == 0 then OscFreq(r) else 0 }

  /** CLOCK_GetPllFreq of the ARM, system and USB1 PLL. */
  function ArmFreq(r: Regs): int {
    if !r.arm.enable then 0
    else if r.arm.bypass then RefFreq(r, r.arm)
    else RefFreq(r, r.arm) * r.arm.div % WORD / 2
  }

  function SysFreq(r: Regs): int
    requires Valid(r)
  {
    if !r.sys.enable then 0
    else if r.sys.bypass then RefFreq(r, r.sys)
    else
      var ref := RefFreq(r, r.sys);
      (ref * Multiplier(r.sys.div) % WORD + ref * r.sysNum / r.sysDenom % WORD) % WORD
  }

  function Usb1Freq(r: Regs): int {
    if !r.usb1.enable then 0
    else if r.usb1.bypass then RefFreq(r, r.usb1)
    else RefFreq(r, r.usb1) * Multiplier(r.usb1.div) % WORD
  }

  /** CLOCK_GetSysPfdFreq: a fractional divider of the system PLL. */
  function PfdFreq(source: int, frac: int): int
    requires 0 <= source && 0 <= frac
  {
    Udiv(source, frac) * 18 % WORD
  }

  /** The source that the multiplexers select, before the dividers, as the driver sees it. */
  function DriverSource(r: Regs): (f: int)
    requires Valid(r)
    ensures 0 <= f < WORD
  {
    if r.periphSel != 0 then
      match r.clk2Sel case 0 => Usb1Freq(r) case 1 => OscFreq(r) case 2 => SysFreq(r) case _ => 0
    else
      match r.prePeriphSel case 0 | 1 | 2 => SysFreq(r) case _ => ArmFreq(r)
  }

  /** What the selected path does to its source. */
  function Divided(r: Regs, source: int): (f: int)
    requires Valid(r) && 0 <= source
    ensures 0 <= f
  {
    if r.periphSel != 0 then source / (r.clk2Podf + 1)
    else
      match r.prePeriphSel
      case 0 => source
      case 1 => PfdFreq(source, r.pfd2)
      case 2 => PfdFreq(source, r.pfd0)
      case _ => source / (r.armPodf + 1)
  }

  /** CLOCK_GetFreq(kCLOCK_CpuClk) and CLOCK_GetFreq(kCLOCK_IpgClk). */
  function CpuFreq(r: Regs): int
    requires Valid(r)
  {
    Divided(r, DriverSource(r)) / (r.ahbPodf + 1)
  }

  function IpgFreq(r: Regs): int
    requires Valid(r)
  {
    CpuFreq(r) / (r.ipgPodf + 1)
  }

  // ----- The system file -----

  function FixedRef(p: Pll): int { if p.src == 0 then MHZ24 else 0 }

  function Fraction(r: Regs): int
    requires Valid(r)
  {
    MHZ24 * r.sysNum / r.sysDenom
  }

  /** The source before the dividers, as SystemCoreClockUpdate computes it.  The case for
      selector 2 falls through to zero. */
  function SystemSource(r: Regs): (f: int)
    requires Valid(r)
    ensures 0 <= f < WORD
  {
    if r.periphSel != 0 then
      match r.clk2Sel
      case 0 => if r.usb1.bypass then FixedRef(r.usb1) else MHZ24 * Multiplier(r.usb1.div)
      case 1 => MHZ24
      case _ => 0
    else
      match r.prePeriphSel
      case 0 | 1 | 2 =>
        var pll2 := if r.sys.bypass then FixedRef(r.sys) else MHZ24 * Multiplier(r.sys.div);
        (pll2 + Fraction(r)) % WORD
      case _ => if r.arm.bypass then FixedRef(r.arm) else MHZ24 * r.arm.div / 2
  }

  /** The value SystemCoreClockUpdate stores. */
  function SystemClock(r: Regs): int
    requires Valid(r)
  {
    Divided(r, SystemSource(r)) / (r.ahbPodf + 1)
  }

  // ----- Agreement -----

  /** A PLL whose bypass, enable and reference bits the two computations read alike. */
  predicate ReadAlike(p: Pll) {
    if p.bypass then p.enable || p.src != 0 else p.enable && p.src == 0
  }

  /** When the two computations see the same source. */
  predicate SourcesAgreeWhen(r: Regs)
    requires Valid(r)
  {
    if r.periphSel != 0 then
      match r.clk2Sel
      case 0 => ReadAlike(r.usb1)
      case 1 => true
      case 2 => !r.sys.enable || r.sys.src != 0
      case _ => true
    else
      match r.prePeriphSel
      case 0 | 1 | 2 => ReadAlike(r.sys) && (r.sys.bypass ==> Fraction(r) == 0)
      case _ => ReadAlike(r.arm) || (!r.arm.bypass && r.arm.div == 0)
  }

  /** A proper fraction adds less than one reference frequency. */
  lemma FractionSmall(num: int, den: int)
    requires 0 <= num < den
    ensures 0 <= MHZ24 * num / den < MHZ24
  {
    var q := MHZ24 * num / den;
    assert q * den <= MHZ24 * num by { assert MHZ24 * num == den * q + MHZ24 * num % den; }
    MulLess(q, MHZ24, den);
  }

  lemma ModSum(x: int, y: int)
    ensures (x % WORD + y % WORD) % WORD == (x + y) % WORD
  {
  }

  /** The system PLL's frequency as the driver computes it, from a 24 MHz oscillator. */
  lemma SysFreqIs(r: Regs)
    requires Valid(r) && OscFreq(r) == MHZ24
    ensures SysFreq(r) ==
            if !r.sys.enable || r.sys.src != 0 then 0
            else if r.sys.bypass then MHZ24
            else (MHZ24 * Multiplier(r.sys.div) + Fraction(r)) % WORD
  {
    if r.sys.src == 0 {
      ModSum(MHZ24 * Multiplier(r.sys.div), Fraction(r));
    } else {
      assert 0 * r.sysNum / r.sysDenom == 0;
    }
  }

  /** The frequencies in plain numbers: an enabled, unbypassed PLL on a 24 MHz reference multiplies
      by 20 or by 22, the ARM PLL by half its divider, and only the system PLL adds a fraction. */
  lemma RunningPllFreqs(r: Regs)
    requires Valid(r) && OscFreq(r) == 24_000_000
    ensures r.usb1.enable && !r.usb1.bypass && r.usb1.src == 0 ==>
              Usb1Freq(r) == 24_000_000 * (20 + 2 * r.usb1.div)
    ensures r.sys.enable && !r.sys.bypass && r.sys.src == 0 ==>
              SysFreq(r) == (24_000_000 * (20 + 2 * r.sys.div)
                             + 24_000_000 * r.sysNum / r.sysDenom) % 0x1_0000_0000
    ensures r.arm.enable && !r.arm.bypass && r.arm.src == 0 ==>
              ArmFreq(r) == 12_000_000 * r.arm.div
  {
    SysFreqIs(r);
  }

  /** A disabled PLL gives nothing, a bypassed one its reference: the oscillator, or the CLK1
      pins, which carry nothing.  The oscillator is the RC one when that is selected. */
  lemma IdlePllFreqs(r: Regs)
    requires Valid(r)
    ensures !r.usb1.enable ==> Usb1Freq(r) == 0
    ensures !r.sys.enable ==> SysFreq(r) == 0
    ensures !r.arm.enable ==> ArmFreq(r) == 0
    ensures var osc := if r.rcOsc then 24_000_000 else r.xtal;
            && (r.usb1.enable && r.usb1.bypass ==> Usb1Freq(r) == if r.usb1.src == 0 then osc else 0)
            && (r.sys.enable && r.sys.bypass ==> SysFreq(r) == if r.sys.src == 0 then osc else 0)
            && (r.arm.enable && r.arm.bypass ==> ArmFreq(r) == if r.arm.src == 0 then osc else 0)
  {
  }

  /** Which frequency reaches the core, and through which dividers, for every setting of the
      multiplexers. */
  lemma CoreClockPath(r: Regs)
    requires Valid(r)
    ensures var a := r.ahbPodf + 1;
            CpuFreq(r) ==
            if r.periphSel == 1 then
              (match r.clk2Sel
               case 0 => Usb1Freq(r) / (r.clk2Podf + 1) / a
               case 1 => (if r.rcOsc then 24_000_000 else r.xtal) / (r.clk2Podf + 1) / a
               case 2 => SysFreq(r) / (r.clk2Podf + 1) / a
               case _ => 0)
            else
              match r.prePeriphSel
              case 0 => SysFreq(r) / a
              case 1 => (if r.pfd2 == 0 then 0 else SysFreq(r) / r.pfd2) * 18 % 0x1_0000_0000 / a
              case 2 => (if r.pfd0 == 0 then 0 else SysFreq(r) / r.pfd0) * 18 % 0x1_0000_0000 / a
              case _ => ArmFreq(r) / (r.armPodf + 1) / a
    ensures IpgFreq(r) == CpuFreq(r) / (r.ipgPodf + 1)
  {
    assert 0 / (r.clk2Podf + 1) == 0 && 0 / (r.ahbPodf + 1) == 0;
  }

  lemma Usb1Agrees(r: Regs)
    requires Valid(r) && OscFreq(r) == MHZ24 && r.periphSel != 0 && r.clk2Sel == 0
    ensures DriverSource(r) == SystemSource(r) <==> ReadAlike(r.usb1)
  {
  }

  lemma ArmAgrees(r: Regs)
    requires Valid(r) && OscFreq(r) == MHZ24 && r.periphSel == 0 && r.prePeriphSel == 3
    ensures DriverSource(r) == SystemSource(r) <==> SourcesAgreeWhen(r)
  {
  }

  /** The system PLL, with everything but its fraction `f` spelled out. */
  lemma SysAgrees(p: Pll, k: int, f: int)
    requires (k == 20 || k == 22) && 0 <= f
    ensures var driver := if !p.enable || p.src != 0 then 0
                          else if p.bypass then MHZ24 else (MHZ24 * k + f) % WORD;
            var system := ((if p.bypass then FixedRef(p) else MHZ24 * k) + f) % WORD;
            && (ReadAlike(p) && (p.bypass ==> f == 0) ==> driver == system)
            && (f < MHZ24 && driver == system ==> ReadAlike(p) && (p.bypass ==> f == 0))
  {
  }

  /** With a 24 MHz oscillator the two computations start from the same source under the
      stated condition, and, if the fraction is proper, only then. */
  lemma SourcesAgreeExactlyWhen(r: Regs)
    requires Valid(r) && OscFreq(r) == MHZ24
    ensures SourcesAgreeWhen(r) ==> DriverSource(r) == SystemSource(r)
    ensures r.sysNum < r.sysDenom && DriverSource(r) == SystemSource(r) ==>
              SourcesAgreeWhen(r)
  {
    if r.periphSel != 0 && r.clk2Sel == 0 {
      Usb1Agrees(r);
    } else if r.periphSel == 0 && r.prePeriphSel == 3 {
      ArmAgrees(r);
    } else {
      SysFreqIs(r);
      SysAgrees(r.sys, Multiplier(r.sys.div), Fraction(r));
      if r.sysNum < r.sysDenom {
        FractionSmall(r.sysNum, r.sysDenom);
      }
    }
  }

  /** Under that condition the stored core clock is the one the driver reports. */
  lemma CoreClocksAgree(r: Regs)
    requires Valid(r) && OscFreq(r) == MHZ24 && SourcesAgreeWhen(r)
    ensures SystemClock(r) == CpuFreq(r)
  {
    SourcesAgreeExactlyWhen(r);
  }

  /** A running system PLL from a 24 MHz reference gives that at least, and nothing wraps. */
  lemma RunningSysFreq(r: Regs)
    requires Valid(r) && OscFreq(r) == MHZ24 && r.sysNum < r.sysDenom
    requires r.sys.enable && r.sys.src == 0
    ensures SysFreq(r) >= MHZ24
  {
    SysFreqIs(r);
    FractionSmall(r.sysNum, r.sysDenom);
    NoWrapAbove(Multiplier(r.sys.div), Fraction(r));
  }

  lemma NoWrapAbove(k: int, f: int)
    requires (k == 20 || k == 22) && 0 <= f < MHZ24
    ensures (MHZ24 * k + f) % WORD == MHZ24 * k + f >= 20 * MHZ24
    ensures MHZ24 * k + f < 23 * MHZ24
  {
  }

  /** Two dividers of up to eight divide by at most 64. */
  lemma DivideTwice(f: int, a: int, b: int, q: int)
    requires 0 < a <= 8 && 0 < b <= 8 && 0 <= q && f >= 64 * q
    ensures f / a / b >= q
  {
    DivAtLeast(f, a, 8 * q);
    DivAtLeast(f / a, b, q);
  }

  lemma DivAtLeast(x: int, d: int, q: int)
    requires 0 < d <= 8 && 0 <= q && 8 * q <= x
    ensures x / d >= q
  {
    assert q * d <= 8 * q by { MulLessEq(d, 8, q); }
    if x / d < q {
      assert x == d * (x / d) + x % d;
      MulLessEq(x / d + 1, q, d);
    }
  }
}
