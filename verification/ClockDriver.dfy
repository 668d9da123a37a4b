/** The clock routines that write registers step by step, over a mutable register block. */
module ClockDriver {
  import opened ClockTree
  import opened ClockBoot

  class Controller {
    var regs: Regs

    constructor (regs: Regs)
      ensures this.regs == regs
    {
      this.regs := regs;
    }

    method SystemCoreClockUpdate()
      requires Valid(regs)
      modifies this
      ensures regs == old(regs).(coreClock := SystemClock(old(regs)))
    {
      var freq := 0;
      if regs.periphSel != 0 {
        if regs.clk2Sel == 0 {
          if regs.usb1.bypass {
            freq := if regs.usb1.src == 0 then MHZ24 else 0;
          } else {
            freq := MHZ24 * Multiplier(regs.usb1.div);
          }
        } else if regs.clk2Sel == 1 {
          freq := MHZ24;
        } else {
          if regs.clk2Sel == 2 {
            freq := if regs.sys.src == 0 then MHZ24 else 0;
          }
          freq := 0;  // selector 2 falls through
        }
        freq := freq / (regs.clk2Podf + 1);
      } else {
        var pll1, pll2 := 0, 0;
        if regs.arm.bypass {
          pll1 := if regs.arm.src == 0 then MHZ24 else 0;
        } else {
          pll1 := MHZ24 * regs.arm.div / 2;
        }
        if regs.sys.bypass {
          pll2 := if regs.sys.src == 0 then MHZ24 else 0;
        } else {
          pll2 := MHZ24 * Multiplier(regs.sys.div);
        }
        pll2 := (pll2 + MHZ24 * regs.sysNum / regs.sysDenom) % WORD;
        if regs.prePeriphSel == 0 {
          freq := pll2;
        } else if regs.prePeriphSel == 1 {
          freq := Udiv(pll2, regs.pfd2) * 18 % WORD;
        } else if regs.prePeriphSel == 2 {
          freq := Udiv(pll2, regs.pfd0) * 18 % WORD;
        } else {
          freq := pll1 / (regs.armPodf + 1);
        }
      }
      regs := regs.(coreClock := freq / (regs.ahbPodf + 1));
    }

    /** One register write of the set-up sequence. */
    method Write(w: Write)
      requires Valid(regs) && ValidWrite(w) && !w.UpdateCoreClock?
      modifies this
      ensures Valid(regs) && regs == Apply(old(regs), w)
    {
      regs := Apply(regs, w);
    }

    /** Bypass, configure, wait for the lock, release. */
    method InitPll(p: PllName, div: int)
      requires Valid(regs) && 0 <= div < (if p.Arm? then 128 else 2)
      modifies this
      ensures Valid(regs) && regs == ApplyAll(old(regs), ClockBoot.InitPll(p, div))
    {
      FourSteps(regs, PllStep(p, Bypass(0)), PllStep(p, Configure(div)), PllStep(p, WaitLock),
                PllStep(p, Release));
      Write(PllStep(p, Bypass(0)));
      Write(PllStep(p, Configure(div)));
      Write(PllStep(p, WaitLock));
      Write(PllStep(p, Release));
    }

    /** BOARD_BootClockRUN. */
    method BootClockRun()
      requires Valid(regs)
      modifies this
      ensures Valid(regs) && regs == ApplyAll(old(regs), Boot())
      ensures Booted(regs)
    {
      BootReaches600MHz(regs);
      ApplyAppend(regs, Park(), WhileParked() + Unpark());
      ParkOnOscillator();
      ApplyAppend(regs, WhileParked(), Unpark());
      ConfigureWhileParked();
      SwitchToPll();
    }

    method SwitchToPll()
      requires Valid(regs)
      modifies this
      ensures Valid(regs) && regs == ApplyAll(old(regs), Unpark())
    {
      UnparkIs(regs);
      Write(PeriphMux(0));
      SystemCoreClockUpdate();
    }

    method ParkOnOscillator()
      requires Valid(regs)
      modifies this
      ensures Valid(regs) && regs == ApplyAll(old(regs), Park())
    {
      ParkIs(regs);
      Write(Xtal(MHZ24));
      Write(Clk2Mux(1));
      Write(PeriphMux(1));
    }

    method ConfigureWhileParked()
      requires Valid(regs)
      modifies this
      ensures Valid(regs) && regs == ApplyAll(old(regs), WhileParked())
    {
      ParkedPhaseIs(regs);
      InitPllRuns(regs, Arm, 100);
      InitPll(Arm, 100);
      InitPllRuns(regs, Sys, 1);
      InitPll(Sys, 1);
      InitPllRuns(regs, Usb1, 0);
      InitPll(Usb1, 0);
      Write(ArmDiv(1));
      Write(AhbDiv(0));
      Write(IpgDiv(3));
      Write(PrePeriphMux(3));
    }
  }
}
