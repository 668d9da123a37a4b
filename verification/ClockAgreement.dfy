/** Exactly when the core clock that the system file stores is the one the clock driver
    reports, dividers included. */
module ClockAgreement {
  import opened Bits
  import opened ClockTree

  /** The system PLL is selected, directly or through one of its fractional dividers. */
  predicate FromSysPll(r: Regs) { r.periphSel == 0 && 0 <= r.prePeriphSel < 3 }

  /** What divides the system PLL's frequency first on the selected path. */
  function FirstDivisor(r: Regs): int
    requires Valid(r)
  {
    match r.prePeriphSel case 1 => r.pfd2 case 2 => r.pfd0 case _ => r.ahbPodf + 1
  }

  /** The condition on the registers.  A bypassed system PLL gets the fraction added by the
      system file only, which is harmless where the first divider swallows it. */
  predicate ClocksAgreeWhen(r: Regs)
    requires Valid(r)
  {
    if !FromSysPll(r) then SourcesAgreeWhen(r)
    else
      var d := FirstDivisor(r);
      || d == 0
      || if !r.sys.bypass then r.sys.enable && r.sys.src == 0
         else if r.sys.src != 0 then Fraction(r) < d
         else r.sys.enable && MHZ24 % d + Fraction(r) < d
  }

  /** The fraction is proper, and a selected fractional divider does not multiply by 18 or 9
      (the hardware allows 12 to 35). */
  predicate Sane(r: Regs)
    requires Valid(r)
  {
    && OscFreq(r) == MHZ24
    && r.sysNum < r.sysDenom
    && (FromSysPll(r) && r.prePeriphSel != 0 ==> FirstDivisor(r) != 1 && FirstDivisor(r) != 2)
  }

  /** Adding `f` leaves the quotient exactly when the remainder has room for it. */
  lemma QuotientKept(x: int, f: int, d: int)
    requires 0 <= x && 0 <= f && 0 < d
    ensures x / d == (x + f) / d <==> x % d + f < d
  {
    assert x == d * (x / d) + x % d;
    var q := x / d;
    if x % d + f < d {
      assert q * d <= x + f < (q + 1) * d;
      DivUnique(x + f, d, q);
    } else {
      assert x + f == d * ((x + f) / d) + (x + f) % d;
    }
  }

  /** Different numbers stay different when multiplied by 18 and divided by at most eight. */
  lemma EighteenOverEight(p: int, q: int, a: int)
    requires 0 <= p <= q && 0 < a <= 8
    ensures p * 18 / a == q * 18 / a <==> p == q
  {
    if p < q {
      var x := p * 18 / a;
      assert p * 18 == a * x + p * 18 % a;
      assert q * 18 == a * (q * 18 / a) + q * 18 % a;
    }
  }

  lemma PfdBound(x: int, d: int)
    requires 0 <= x < 23 * MHZ24 && 3 <= d
    ensures PfdFreq(x, d) == x / d * 18
  {
    var q := x / d;
    assert x == d * q + x % d;
    MulLessEq(3, d, q);
  }

  lemma SeenThrough(u: int, v: int, p: int, q: int, a: int)
    requires u == p * 18 && v == q * 18 && 0 <= p <= q && 0 < a <= 8
    ensures u / a == v / a <==> p == q
  {
    EighteenOverEight(p, q, a);
  }

  lemma PfdSeesQuotient(x: int, y: int, d: int, a: int)
    requires 0 <= x <= y < 23 * MHZ24 && 3 <= d && 0 < a <= 8
    ensures PfdFreq(x, d) / a == PfdFreq(y, d) / a <==> x / d == y / d
  {
    PfdBound(x, d);
    PfdBound(y, d);
    DivMonotone(x, y, d);
    SeenThrough(PfdFreq(x, d), PfdFreq(y, d), x / d, y / d, a);
  }

  /** Two sources of the system PLL's path look alike behind its dividers exactly when they do
      behind the first of them. */
  lemma DividersSeeQuotient(r: Regs, x: int, y: int)
    requires Valid(r) && Sane(r) && FromSysPll(r) && FirstDivisor(r) != 0
    requires 0 <= x <= y < 23 * MHZ24
    ensures var d, a := FirstDivisor(r), r.ahbPodf + 1;
            Divided(r, x) / a == Divided(r, y) / a <==> x / d == y / d
  {
    var d, a := FirstDivisor(r), r.ahbPodf + 1;
    if r.prePeriphSel != 0 {
      assert Divided(r, x) == PfdFreq(x, d) && Divided(r, y) == PfdFreq(y, d);
      PfdSeesQuotient(x, y, d, a);
    }
  }

  lemma DivMonotone(x: int, y: int, d: int)
    requires 0 <= x <= y && 0 < d
    ensures x / d <= y / d
  {
    assert x == d * (x / d) + x % d && y == d * (y / d) + y % d;
    if y / d < x / d {
      MulLessEq(y / d + 1, x / d, d);
    }
  }

  /** The two sources on that path, case by case. */
  lemma SysSources(r: Regs)
    requires Valid(r) && Sane(r) && FromSysPll(r)
    ensures var x, y, f := DriverSource(r), SystemSource(r), Fraction(r);
            && 0 <= x <= y < 23 * MHZ24 && 0 <= f
            && (!r.sys.bypass ==>
                  if r.sys.enable && r.sys.src == 0 then x == y else x == 0 && y >= 20 * MHZ24)
            && (r.sys.bypass && r.sys.src != 0 ==> x == 0 && y == f)
            && (r.sys.bypass && r.sys.src == 0 ==>
                  x == (if r.sys.enable then MHZ24 else 0) && y == MHZ24 + f)
  {
    SysFreqIs(r);
    FractionSmall(r.sysNum, r.sysDenom);
    NoWrapAbove(Multiplier(r.sys.div), Fraction(r));
  }

  lemma SysPathAgrees(r: Regs)
    requires Valid(r) && Sane(r) && FromSysPll(r)
    ensures SystemClock(r) == CpuFreq(r) <==> ClocksAgreeWhen(r)
  {
    var x, y, d := DriverSource(r), SystemSource(r), FirstDivisor(r);
    SysSources(r);
    if d != 0 {
      DividersSeeQuotient(r, x, y);
      QuotientKept(x, y - x, d);
      ConditionIsRoom(r.sys, Fraction(r), x, y, d);
    }
  }

  /** The condition says that the remainder has room for what the system file adds. */
  lemma ConditionIsRoom(p: Pll, f: int, x: int, y: int, d: int)
    requires 0 < d < 64 && 0 <= f && 0 <= x <= y
    requires !p.bypass ==>
               if p.enable && p.src == 0 then x == y else x == 0 && y >= 20 * MHZ24
    requires p.bypass && p.src != 0 ==> x == 0 && y == f
    requires p.bypass && p.src == 0 ==> x == (if p.enable then MHZ24 else 0) && y == MHZ24 + f
    ensures x % d + (y - x) < d <==>
              if !p.bypass then p.enable && p.src == 0
              else if p.src != 0 then f < d
              else p.enable && MHZ24 % d + f < d
  {
    assert 0 % d == 0;
  }

  /** Off that path one of two different sources is zero and the other at least 12 MHz, which
      the dividers cannot hide. */
  lemma OtherSources(r: Regs)
    requires Valid(r) && Sane(r) && !FromSysPll(r)
    ensures var x, y := DriverSource(r), SystemSource(r);
            && (x == y <==> SourcesAgreeWhen(r))
            && (x != y ==> (x == 0 && y >= MHZ24 / 2) || (y == 0 && x >= MHZ24 / 2))
  {
    SourcesAgreeExactlyWhen(r);
    if r.periphSel != 0 && r.clk2Sel == 2 && r.sys.enable && r.sys.src == 0 {
      RunningSysFreq(r);
    }
  }

  lemma OtherPathAgrees(r: Regs)
    requires Valid(r) && Sane(r) && !FromSysPll(r)
    ensures SystemClock(r) == CpuFreq(r) <==> ClocksAgreeWhen(r)
  {
    var x, y := DriverSource(r), SystemSource(r);
    var a, b := (if r.periphSel != 0 then r.clk2Podf else r.armPodf) + 1, r.ahbPodf + 1;
    OtherSources(r);
    if x != y {
      DivideTwice(if x == 0 then y else x, a, b, 187_500);
      assert 0 / a == 0 && 0 / b == 0;
    }
  }

  /** With a 24 MHz oscillator, SystemCoreClockUpdate stores what CLOCK_GetFreq(kCLOCK_CpuClk)
      returns exactly when the registers meet the condition, whatever the dividers. */
  lemma CoreClocksAgreeExactlyWhen(r: Regs)
    requires Valid(r) && Sane(r)
    ensures SystemClock(r) == CpuFreq(r) <==> ClocksAgreeWhen(r)
  {
    if FromSysPll(r) {
      SysPathAgrees(r);
    } else {
      OtherPathAgrees(r);
    }
  }

  /** The fall-through: with the system PLL selected through PERIPH_CLK2 and running, the
      stored core clock is zero while the driver reports at least 375 kHz. */
  lemma FallThroughLosesClock(r: Regs)
    requires Valid(r) && OscFreq(r) == MHZ24 && r.sysNum < r.sysDenom
    requires r.periphSel != 0 && r.clk2Sel == 2 && r.sys.enable && r.sys.src == 0
    ensures SystemClock(r) == 0 && CpuFreq(r) >= 375_000
  {
    RunningSysFreq(r);
    var a, b := r.clk2Podf + 1, r.ahbPodf + 1;
    assert CpuFreq(r) == SysFreq(r) / a / b;
    DivideTwice(SysFreq(r), a, b, 375_000);
    assert 0 / a == 0 && 0 / b == 0;
  }
}
