/** The boot-time clock set-up: the order of its register writes, what holds between them and
    where they end.  Writes that do not concern the core clock (the RTC frequency, the core
    voltage, the unused PLLs, the clock gates) are left out of the sequence. */
module ClockBoot {
  import opened ClockTree

  datatype PllName = Arm | Sys | Usb1

  datatype Write =
    | Xtal(freq: int)
    | Clk2Mux(v: int) | PeriphMux(v: int) | PrePeriphMux(v: int)
    | ArmDiv(v: int) | AhbDiv(v: int) | IpgDiv(v: int)
    | PllStep(pll: PllName, step: PllWrite)
    | UpdateCoreClock

  /** The four steps of a PLL's initialisation. */
  datatype PllWrite = Bypass(src: int) | Configure(div: int) | WaitLock | Release

  predicate ValidWrite(w: Write) {
    match w
    case Xtal(f) => 0 <= f < WORD
    case Clk2Mux(v) => 0 <= v < 4
    case PeriphMux(v) => 0 <= v < 2
    case PrePeriphMux(v) => 0 <= v < 4
    case ArmDiv(v) => 0 <= v < 8
    case AhbDiv(v) => 0 <= v < 8
    case IpgDiv(v) => 0 <= v < 4
    case PllStep(p, Bypass(src)) => 0 <= src < 4
    case PllStep(p, Configure(div)) => 0 <= div < (if p.Arm? then 128 else 2)
    case _ => true
  }

  function ApplyPll(p: Pll, w: PllWrite): Pll {
    match w
    case Bypass(src) => p.(bypass := true, src := src)
    case Configure(div) => p.(div := div, powerDown := false, enable := true, lock := false)
    case WaitLock => p.(lock := true)
    case Release => p.(bypass := false)
  }

  function Apply(r: Regs, w: Write): (t: Regs)
    requires Valid(r) && ValidWrite(w)
    ensures Valid(t)
  {
    match w
    case Xtal(f) => r.(xtal := f)
    case Clk2Mux(v) => r.(clk2Sel := v)
    case PeriphMux(v) => r.(periphSel := v)
    case PrePeriphMux(v) => r.(prePeriphSel := v)
    case ArmDiv(v) => r.(armPodf := v)
    case AhbDiv(v) => r.(ahbPodf := v)
    case IpgDiv(v) => r.(ipgPodf := v)
    case PllStep(Arm, s) => r.(arm := ApplyPll(r.arm, s))
    case PllStep(Sys, s) => r.(sys := ApplyPll(r.sys, s))
    case PllStep(Usb1, s) => r.(usb1 := ApplyPll(r.usb1, s))
    case UpdateCoreClock => r.(coreClock := SystemClock(r))
  }

  predicate AllValid(ws: seq<Write>) {
    forall i :: 0 <= i < |ws| ==> ValidWrite(ws[i])
  }

  function ApplyAll(r: Regs, ws: seq<Write>): (t: Regs)
    requires Valid(r) && AllValid(ws)
    ensures Valid(t)
    decreases |ws|
  {
    if ws == [] then r else ApplyAll(Apply(r, ws[0]), ws[1..])
  }

  lemma {:induction false} ApplyAppend(r: Regs, ws: seq<Write>, us: seq<Write>)
    requires Valid(r) && AllValid(ws) && AllValid(us)
    ensures AllValid(ws + us) && ApplyAll(r, ws + us) == ApplyAll(ApplyAll(r, ws), us)
    decreases |ws|
  {
    if ws == [] {
      assert ws + us == us;
    } else {
      assert (ws + us)[0] == ws[0] && (ws + us)[1..] == ws[1..] + us;
      ApplyAppend(Apply(r, ws[0]), ws[1..], us);
    }
  }

  // ----- The sequence -----

  function InitPll(p: PllName, div: int): (ws: seq<Write>)
    requires 0 <= div < (if p.Arm? then 128 else 2)
    ensures AllValid(ws)
  {
    [PllStep(p, Bypass(0)), PllStep(p, Configure(div)), PllStep(p, WaitLock), PllStep(p, Release)]
  }

  /** Onto the oscillator. */
  function Park(): (ws: seq<Write>)
    ensures AllValid(ws)
  {
    [Xtal(MHZ24), Clk2Mux(1), PeriphMux(1)]
  }

  function Dividers(): (ws: seq<Write>)
    ensures AllValid(ws)
  {
    [ArmDiv(1), AhbDiv(0), IpgDiv(3), PrePeriphMux(3)]
  }

  /** Everything that happens while parked. */
  function WhileParked(): (ws: seq<Write>)
    ensures AllValid(ws) && forall i :: 0 <= i < |ws| ==> !MovesCore(ws[i])
  {
    InitPll(Arm, 100) + (InitPll(Sys, 1) + (InitPll(Usb1, 0) + Dividers()))
  }

  function Unpark(): (ws: seq<Write>)
    ensures AllValid(ws)
  {
    [PeriphMux(0), UpdateCoreClock]
  }

  function Boot(): (ws: seq<Write>)
    ensures AllValid(ws)
  {
    Park() + (WhileParked() + Unpark())
  }

  // ----- While parked -----

  /** The core runs from the 24 MHz oscillator through PERIPH_CLK2. */
  predicate Parked(r: Regs) {
    r.periphSel == 1 && r.clk2Sel == 1 && OscFreq(r) == MHZ24
  }

  predicate MovesCore(w: Write) { w.Clk2Mux? || w.PeriphMux? || w.Xtal? }

  /** Whatever is written to the PLLs and dividers, a parked core stays parked: its clock is
      the oscillator's and never depends on a PLL that is being reprogrammed. */
  lemma {:induction false} ParkedStays(r: Regs, ws: seq<Write>)
    requires Valid(r) && Parked(r) && AllValid(ws)
    requires forall i :: 0 <= i < |ws| ==> !MovesCore(ws[i])
    ensures var t := ApplyAll(r, ws);
            Parked(t) && CpuFreq(t) == MHZ24 / (t.clk2Podf + 1) / (t.ahbPodf + 1)
    decreases |ws|
  {
    if ws != [] {
      ParkedStays(Apply(r, ws[0]), ws[1..]);
    }
  }

  // ----- Where it ends -----

  lemma OneStep(r: Regs, a: Write, ws: seq<Write>)
    requires Valid(r) && AllValid([a] + ws)
    ensures ValidWrite(a) && AllValid(ws)
    ensures ApplyAll(r, [a] + ws) == ApplyAll(Apply(r, a), ws)
  {
    assert ([a] + ws)[0] == a && ([a] + ws)[1..] == ws;
    assert ValidWrite(([a] + ws)[0]);
    assert forall i :: 0 <= i < |ws| ==> ws[i] == ([a] + ws)[i + 1];
  }

  lemma FourSteps(r: Regs, a: Write, b: Write, c: Write, d: Write)
    requires Valid(r) && ValidWrite(a) && ValidWrite(b) && ValidWrite(c) && ValidWrite(d)
    ensures ApplyAll(r, [a, b, c, d]) == Apply(Apply(Apply(Apply(r, a), b), c), d)
  {
    assert [a, b, c, d] == [a] + [b, c, d] && [b, c, d] == [b] + [c, d];
    assert [c, d] == [c] + [d] && [d] == [d] + [];
    OneStep(r, a, [b, c, d]);
    OneStep(Apply(r, a), b, [c, d]);
    OneStep(Apply(Apply(r, a), b), c, [d]);
    OneStep(Apply(Apply(Apply(r, a), b), c), d, []);
  }

  /** A locked PLL that runs from the oscillator with the given divider. */
  function Running(div: int): Pll { Pll(true, false, false, 0, div, true) }

  lemma InitPllRuns(r: Regs, p: PllName, div: int)
    requires Valid(r) && 0 <= div < (if p.Arm? then 128 else 2)
    ensures ApplyAll(r, InitPll(p, div)) ==
            match p
            case Arm => r.(arm := Running(div))
            case Sys => r.(sys := Running(div))
            case Usb1 => r.(usb1 := Running(div))
  {
    FourSteps(r, PllStep(p, Bypass(0)), PllStep(p, Configure(div)), PllStep(p, WaitLock),
              PllStep(p, Release));
  }

  /** The state at the end of the parked phase. */
  lemma ParkedPhaseIs(r: Regs)
    requires Valid(r)
    ensures ApplyAll(r, WhileParked()) ==
            r.(arm := Running(100), sys := Running(1), usb1 := Running(0),
               armPodf := 1, ahbPodf := 0, ipgPodf := 3, prePeriphSel := 3)
  {
    var r1 := r.(arm := Running(100));
    var r2 := r1.(sys := Running(1));
    var r3 := r2.(usb1 := Running(0));
    ApplyAppend(r, InitPll(Arm, 100), InitPll(Sys, 1) + (InitPll(Usb1, 0) + Dividers()));
    InitPllRuns(r, Arm, 100);
    ApplyAppend(r1, InitPll(Sys, 1), InitPll(Usb1, 0) + Dividers());
    InitPllRuns(r1, Sys, 1);
    ApplyAppend(r2, InitPll(Usb1, 0), Dividers());
    InitPllRuns(r2, Usb1, 0);
    FourSteps(r3, ArmDiv(1), AhbDiv(0), IpgDiv(3), PrePeriphMux(3));
  }

  lemma ParkIs(r: Regs)
    requires Valid(r)
    ensures ApplyAll(r, Park()) == r.(xtal := MHZ24, clk2Sel := 1, periphSel := 1)
  {
    var a, b, c := Xtal(MHZ24), Clk2Mux(1), PeriphMux(1);
    assert Park() == [a] + [b, c] && [b, c] == [b] + [c] && [c] == [c] + [];
    OneStep(r, a, [b, c]);
    OneStep(Apply(r, a), b, [c]);
    OneStep(Apply(Apply(r, a), b), c, []);
  }

  lemma UnparkIs(r: Regs)
    requires Valid(r)
    ensures ApplyAll(r, Unpark()) == Apply(Apply(r, PeriphMux(0)), UpdateCoreClock)
  {
    assert Unpark() == [PeriphMux(0)] + [UpdateCoreClock];
    assert [UpdateCoreClock] == [UpdateCoreClock] + [];
    OneStep(r, PeriphMux(0), [UpdateCoreClock]);
    OneStep(Apply(r, PeriphMux(0)), UpdateCoreClock, []);
  }

  lemma FinalFrequencies(r: Regs)
    requires Valid(r) && OscFreq(r) == MHZ24 && r.periphSel == 0 && r.prePeriphSel == 3
    requires r.arm == Running(100) && r.armPodf == 1 && r.ahbPodf == 0 && r.ipgPodf == 3
    ensures SystemClock(r) == CpuFreq(r) == 600_000_000 && IpgFreq(r) == 150_000_000
  {
    CoreClocksAgree(r);
  }

  /** The state in which the boot sequence ends. */
  predicate Booted(r: Regs)
    requires Valid(r)
  {
    && r.periphSel == 0
    && r.coreClock == CpuFreq(r) == 600_000_000 && IpgFreq(r) == 150_000_000
    && Usb1Freq(r) == 480_000_000
    && (r.sysNum < r.sysDenom ==> 528_000_000 <= SysFreq(r) < 552_000_000)
    && (r.sysNum == 0 ==> SysFreq(r) == 528_000_000)
    && r.arm == Running(100) && r.sys == Running(1) && r.usb1 == Running(0)
  }

  /** From any register state the boot sequence ends with the core at 600 MHz, stored and
      reported alike, the peripheral bus at 150 MHz, the USB PLL at 480 MHz and the system PLL
      at 528 MHz and what an earlier fraction adds, all three PLLs locked. */
  lemma BootReaches600MHz(r: Regs)
    requires Valid(r)
    ensures Booted(ApplyAll(r, Boot()))
  {
    ApplyAppend(r, Park(), WhileParked() + Unpark());
    ParkIs(r);
    var p := r.(xtal := MHZ24, clk2Sel := 1, periphSel := 1);
    ApplyAppend(p, WhileParked(), Unpark());
    ParkedPhaseIs(p);
    UnparkReaches600MHz(ApplyAll(p, WhileParked()));
  }

  lemma SysRuns(r: Regs, f: int)
    requires Valid(r) && OscFreq(r) == MHZ24 && r.sys == Running(1) && f == Fraction(r)
    ensures SysFreq(r) == (MHZ24 * 22 + f) % WORD
  {
    RunningPllFreqs(r);
  }

  lemma FractionRange(r: Regs)
    requires Valid(r)
    ensures r.sysNum < r.sysDenom ==> 0 <= Fraction(r) < MHZ24
    ensures r.sysNum == 0 ==> Fraction(r) == 0
  {
    if r.sysNum < r.sysDenom {
      FractionSmall(r.sysNum, r.sysDenom);
    }
  }

  lemma SysAt528(freq: int, fraction: int)
    requires freq == (MHZ24 * 22 + fraction) % WORD
    ensures 0 <= fraction < MHZ24 ==> freq == 528_000_000 + fraction
  {
  }

  lemma OtherPlls(r: Regs)
    requires Valid(r) && OscFreq(r) == MHZ24 && r.sys == Running(1) && r.usb1 == Running(0)
    ensures Usb1Freq(r) == 480_000_000
    ensures r.sysNum < r.sysDenom ==> 528_000_000 <= SysFreq(r) < 552_000_000
    ensures r.sysNum == 0 ==> SysFreq(r) == 528_000_000
  {
    var freq, f := SysFreq(r), Fraction(r);
    SysRuns(r, f);
    FractionRange(r);
    SysAt528(freq, f);
  }

  lemma UnparkReaches600MHz(r: Regs)
    requires Valid(r) && OscFreq(r) == MHZ24 && r.prePeriphSel == 3
    requires r.arm == Running(100) && r.armPodf == 1 && r.ahbPodf == 0 && r.ipgPodf == 3
    requires r.sys == Running(1) && r.usb1 == Running(0)
    ensures Booted(ApplyAll(r, Unpark()))
  {
    OtherPlls(ApplyAll(r, Unpark()));
    UnparkIs(r);
    FinalFrequencies(Apply(r, PeriphMux(0)));
    FinalFrequencies(ApplyAll(r, Unpark()));
  }

  lemma OscillatorLimit(r: Regs)
    requires Valid(r) && Parked(r)
    ensures CpuFreq(r) <= MHZ24
  {
  }

  /** Between parking and the last switch the core never leaves the oscillator. */
  lemma BootIsSafe(r: Regs, k: int)
    requires Valid(r) && 0 <= k <= |WhileParked()|
    ensures var t := ApplyAll(r, Park() + WhileParked()[..k]);
            Parked(t) && CpuFreq(t) <= MHZ24
  {
    ApplyAppend(r, Park(), WhileParked()[..k]);
    ParkIs(r);
    ParkedStays(ApplyAll(r, Park()), WhileParked()[..k]);
    OscillatorLimit(ApplyAll(r, Park() + WhileParked()[..k]));
  }

  /** After every write of the boot sequence from the third on, the core runs from the
      oscillator at no more than 24 MHz, until the last multiplexer write takes it to 600 MHz at
      once: it never runs from a PLL or through dividers that are still to be set. */
  lemma BootClockSteps(r: Regs, k: int)
    requires Valid(r) && 3 <= k <= |Boot()|
    ensures var t := ApplyAll(r, Boot()[..k]);
            if k < |Boot()| - 1 then Parked(t) && CpuFreq(t) <= MHZ24
            else t.periphSel == 0 && CpuFreq(t) == 600_000_000
  {
    if k < |Boot()| - 1 {
      PrefixParked(k);
      BootIsSafe(r, k - 3);
    } else if k < |Boot()| {
      LastSwitch(r);
      assert Boot()[..k] == Park() + (WhileParked() + [PeriphMux(0)]);
    } else {
      assert Boot()[..k] == Boot();
      BootReaches600MHz(r);
    }
  }

  lemma PrefixParked(k: int)
    requires 3 <= k < |Boot()| - 1
    ensures k - 3 <= |WhileParked()| && Boot()[..k] == Park() + WhileParked()[..k - 3]
  {
    assert (Park() + (WhileParked() + Unpark()))[..k] == Park() + (WhileParked() + Unpark())[..k - 3];
    assert (WhileParked() + Unpark())[..k - 3] == WhileParked()[..k - 3];
  }

  /** Everything but the update of the stored clock. */
  lemma LastSwitch(r: Regs)
    requires Valid(r)
    ensures AllValid(Park() + (WhileParked() + [PeriphMux(0)]))
    ensures var t := ApplyAll(r, Park() + (WhileParked() + [PeriphMux(0)]));
            t.periphSel == 0 && CpuFreq(t) == 600_000_000
  {
    var p := r.(xtal := MHZ24, clk2Sel := 1, periphSel := 1);
    var last := [PeriphMux(0)];
    ApplyAppend(r, Park(), WhileParked() + last);
    ParkIs(r);
    ApplyAppend(p, WhileParked(), last);
    ParkedPhaseIs(p);
    SwitchTo600MHz(ApplyAll(p, WhileParked()));
  }

  lemma SwitchTo600MHz(r: Regs)
    requires Valid(r) && OscFreq(r) == MHZ24 && r.prePeriphSel == 3
    requires r.arm == Running(100) && r.armPodf == 1 && r.ahbPodf == 0 && r.ipgPodf == 3
    ensures AllValid([PeriphMux(0)])
    ensures var t := ApplyAll(r, [PeriphMux(0)]); t.periphSel == 0 && CpuFreq(t) == 600_000_000
  {
    assert [PeriphMux(0)] == [PeriphMux(0)] + [];
    OneStep(r, PeriphMux(0), []);
    FinalFrequencies(Apply(r, PeriphMux(0)));
  }

  /** Whatever a PLL was doing, from the first step of its initialisation on it is bypassed or
      locked: its consumers never see it run unlocked. */
  lemma InitPllIsSafe(r: Regs, p: PllName, div: int, k: int)
    requires Valid(r) && 0 <= div < (if p.Arm? then 128 else 2) && 1 <= k <= 4
    ensures var t := ApplyAll(r, InitPll(p, div)[..k]);
            var pll := match p case Arm => t.arm case Sys => t.sys case Usb1 => t.usb1;
            pll.src == 0 && (pll.bypass || (pll.lock && pll.enable && !pll.powerDown))
  {
    var a, b, c, d := PllStep(p, Bypass(0)), PllStep(p, Configure(div)), PllStep(p, WaitLock),
                      PllStep(p, Release);
    match k
    case 1 =>
      assert InitPll(p, div)[..1] == [a] + [];
      OneStep(r, a, []);
    case 2 =>
      assert InitPll(p, div)[..2] == [a] + [b] && [b] == [b] + [];
      OneStep(r, a, [b]);
      OneStep(Apply(r, a), b, []);
    case 3 =>
      assert InitPll(p, div)[..3] == [a] + [b, c] && [b, c] == [b] + [c] && [c] == [c] + [];
      OneStep(r, a, [b, c]);
      OneStep(Apply(r, a), b, [c]);
      OneStep(Apply(Apply(r, a), b), c, []);
    case 4 =>
      assert InitPll(p, div)[..4] == InitPll(p, div);
      InitPllRuns(r, p, div);
  }
}
