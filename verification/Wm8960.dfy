/** The WM8960 audio codec driver: the codec's registers cannot be read back, so the driver
    keeps a shadow copy of each and updates it by masked read-modify-write. */
module Wm8960 {
  import opened Bits
  import opened Words

  type Regs = seq<Word>

  const REG_COUNT := 56
  const RESET: int := 0x0F
  const LINVOL: int := 0x00
  const RINVOL: int := 0x01
  const LOUT1: int := 0x02
  const ROUT1: int := 0x03
  const IFACE1: int := 0x07
  const LDAC: int := 0x0A
  const RDAC: int := 0x0B
  const LADC: int := 0x15
  const RADC: int := 0x16
  const POWER1: int := 0x19
  const POWER2: int := 0x1A
  const LOUT2: int := 0x28
  const ROUT2: int := 0x29
  const CLASSD1: int := 0x31
  const CLASSD1_ON: Word := {0, 1, 2, 4, 5, 6, 7}

  type NineBit = n: int | 0 <= n < 0x200

  /** The reset value of each register. */
  const DEFAULT_TABLE: seq<NineBit> :=
    [0x097, 0x097, 0x000, 0x000, 0x000, 0x008, 0x000, 0x00A, 0x1C0, 0x000, 0x0FF, 0x0FF, 0x000, 0x000,
     0x000, 0x000, 0x000, 0x07B, 0x100, 0x032, 0x000, 0x0C3, 0x0C3, 0x1C0, 0x000, 0x000, 0x000, 0x000,
     0x000, 0x000, 0x000, 0x000, 0x100, 0x100, 0x050, 0x050, 0x050, 0x050, 0x000, 0x000, 0x000, 0x000,
     0x040, 0x000, 0x000, 0x050, 0x050, 0x000, 0x002, 0x037, 0x04D, 0x080, 0x008, 0x031, 0x026, 0x0E9]

  function WordsOf(table: seq<NineBit>): Regs {
    seq(|table|, r requires 0 <= r < |table| => FromInt(table[r]))
  }

  function Defaults(): (d: Regs)
    ensures |d| == REG_COUNT
  {
    WordsOf(DEFAULT_TABLE)
  }

  // ----- The two bytes on the wire -----

  /** The nine data bits that the codec has. */
  function Nine(): Word { Ones(0, 9) }

  /** Seven bits of register number, then nine bits of data: the first byte ends in the
      ninth data bit, the second byte holds the other eight. */
  function Pack(reg: int, val: Word): (int, Word) {
    (reg * 2 % 256 + (if 8 in val then 1 else 0), val * Ones(0, 8))
  }

  function Unpack(cmd: int, buff: Word): (int, Word) {
    (cmd / 2, buff + (if cmd % 2 == 1 then {8} else {}))
  }

  /** The codec decodes the register and the nine low bits that were written. */
  lemma UnpackPack(reg: int, val: Word)
    requires 0 <= reg < 128
    ensures Unpack(Pack(reg, val).0, Pack(reg, val).1) == (reg, val * Nine())
  {
    assert val * Ones(0, 8) + (if 8 in val then {8} else {}) == val * Nine();
  }

  /** The two bytes are the register number and the nine-bit value as one sixteen-bit number,
      high byte first. */
  lemma WireFormat(reg: int, val: NineBit)
    requires 0 <= reg < 128
    ensures var frame := reg * 512 + val;
            Pack(reg, FromInt(val)) == (frame / 256, FromInt(frame % 256))
  {
    FrameBytes(reg, val);
    ValueBytes(val);
  }

  lemma FrameBytes(reg: int, val: int)
    requires 0 <= reg < 128 && 0 <= val < 512
    ensures var frame := reg * 512 + val;
            && frame / 256 == reg * 2 % 256 + (if val >= 256 then 1 else 0)
            && frame % 256 == val % 256
  {
  }

  lemma ValueBytes(val: NineBit)
    ensures 8 in FromInt(val) <==> val >= 256
    ensures FromInt(val) * Ones(0, 8) == FromInt(val % 256)
  {
    assert Pow2(8) == 256 by { assert Pow2(4) == 16; }
    LowBits(val, 8);
    TopBit(val, 8);
  }

  // ----- Shadow and codec -----

  datatype State = State(cache: Regs, codec: Regs)

  predicate Valid(s: State) { |s.cache| == |s.codec| == REG_COUNT }

  /** The codec takes a register write; the reset register restores every default. */
  function Deliver(codec: Regs, cmd: int, buff: Word): Regs
    requires |codec| == REG_COUNT
  {
    var (reg, val) := Unpack(cmd, buff);
    if reg == RESET then Defaults()
    else if 0 <= reg < REG_COUNT then codec[reg := val]
    else codec
  }

  /** Every shadow register agrees with the codec on the nine bits the codec has. */
  predicate Agree(s: State)
    requires Valid(s)
  {
    forall r :: 0 <= r < REG_COUNT ==> s.codec[r] == s.cache[r] * Nine()
  }

  /** A register write; `ok` says whether the transfer succeeds.  The shadow is updated
      either way. */
  function WriteReg(s: State, reg: int, val: Word, ok: bool): (t: State)
    requires Valid(s) && 0 <= reg < REG_COUNT
    ensures Valid(t)
  {
    UnpackPack(reg, val);
    var (cmd, buff) := Pack(reg, val);
    State(s.cache[reg := val], if ok then Deliver(s.codec, cmd, buff) else s.codec)
  }

  function ReadReg(s: State, reg: int): Word
    requires Valid(s) && 0 <= reg < REG_COUNT
  {
    s.cache[reg]
  }

  /** Masked read-modify-write with a transfer that succeeds. */
  function ModifyReg(s: State, reg: int, mask: Word, val: Word): (t: State)
    requires Valid(s) && 0 <= reg < REG_COUNT
    ensures Valid(t)
  {
    WriteReg(s, reg, (ReadReg(s, reg) - mask) + val, true)
  }

  lemma WriteKeepsAgree(s: State, reg: int, val: Word)
    requires Valid(s) && Agree(s) && 0 <= reg < REG_COUNT && reg != RESET
    ensures Agree(WriteReg(s, reg, val, true))
  {
    UnpackPack(reg, val);
  }

  /** A failed transfer keeps the agreement exactly when it would not have changed the codec. */
  lemma FailedWriteAgreesExactlyWhenSame(s: State, reg: int, val: Word)
    requires Valid(s) && Agree(s) && 0 <= reg < REG_COUNT
    ensures Agree(WriteReg(s, reg, val, false)) <==> val * Nine() == s.codec[reg]
  {
  }

  lemma ResetIs(s: State, val: Word)
    requires Valid(s)
    ensures WriteReg(s, RESET, val, true) == State(s.cache[RESET := val], Defaults())
  {
    UnpackPack(RESET, val);
  }

  lemma TableFits(table: seq<NineBit>)
    ensures forall r :: 0 <= r < |table| ==> WordsOf(table)[r] * Nine() == WordsOf(table)[r]
  {
    forall r | 0 <= r < |table|
      ensures WordsOf(table)[r] * Nine() == WordsOf(table)[r]
    {
      assert Pow2(8) == 256 && Pow2(9) == 512;
      FromIntFits(table[r], 9);
    }
  }

  lemma DefaultsFit()
    ensures forall r :: 0 <= r < REG_COUNT ==> Defaults()[r] * Nine() == Defaults()[r]
    ensures Defaults()[RESET] == {}
  {
    TableFits(DEFAULT_TABLE);
    assert DEFAULT_TABLE[RESET] == 0;
  }

  /** Writing the reset register keeps the agreement exactly when the shadow already holds the
      defaults everywhere else and the value written is zero on its nine bits. */
  lemma ResetAgreesExactlyAtDefaults(s: State, val: Word)
    requires Valid(s)
    ensures Agree(WriteReg(s, RESET, val, true)) <==>
              val * Nine() == {} &&
              forall r :: 0 <= r < REG_COUNT && r != RESET ==> s.cache[r] * Nine() == Defaults()[r]
  {
    ResetIs(s, val);
    DefaultsFit();
    AgreeAfterReset(s.cache, val, Defaults());
  }

  lemma AgreeAfterReset(cache: Regs, val: Word, defaults: Regs)
    requires |cache| == |defaults| == REG_COUNT && defaults[RESET] == {}
    ensures Agree(State(cache[RESET := val], defaults)) <==>
              val * Nine() == {} &&
              forall r :: 0 <= r < REG_COUNT && r != RESET ==> cache[r] * Nine() == defaults[r]
  {
    var t := State(cache[RESET := val], defaults);
    if Agree(t) {
      assert t.codec[RESET] == t.cache[RESET] * Nine();
      forall r | 0 <= r < REG_COUNT && r != RESET
        ensures cache[r] * Nine() == defaults[r]
      {
        assert t.codec[r] == t.cache[r] * Nine();
      }
    }
  }

  // ----- Modules -----

  datatype Module = ADC | DAC | VREF | HP | LineIn | LineOut | Speaker

  /** Set or clear all bits of a mask. */
  function Switched(v: Word, mask: Word, on: bool): Word {
    (v - mask) + (if on then mask else {})
  }

  function Switch(s: State, reg: int, mask: Word, on: bool): (t: State)
    requires Valid(s) && 0 <= reg < REG_COUNT
    ensures Valid(t)
  {
    ModifyReg(s, reg, mask, if on then mask else {})
  }

  /** A module's power switches: for most, a left bit and then a right bit. */
  function SetModule(s: State, m: Module, on: bool): (t: State)
    requires Valid(s)
    ensures Valid(t)
  {
    match m
    case ADC => Switch(Switch(s, POWER1, {3}, on), POWER1, {2}, on)
    case DAC => Switch(Switch(s, POWER2, {8}, on), POWER2, {7}, on)
    case VREF => Switch(s, POWER1, {6}, on)
    case LineIn => Switch(Switch(s, POWER1, {5}, on), POWER1, {4}, on)
    case LineOut => Switch(Switch(s, POWER2, {6}, on), POWER2, {5}, on)
    case Speaker =>
      WriteReg(Switch(Switch(s, POWER2, {4}, on), POWER2, {3}, on), CLASSD1, CLASSD1_ON, true)
    case HP => s  // invalid argument
  }

  /** Where a module's switches live. */
  function ModuleReg(m: Module): int {
    match m case ADC | VREF | LineIn | HP => POWER1 case DAC | LineOut | Speaker => POWER2
  }

  function ModuleMask(m: Module): Word {
    match m
    case ADC => {3} + {2} case DAC => {8} + {7} case VREF => {6} case LineIn => {5} + {4}
    case LineOut => {6} + {5} case Speaker => {4} + {3} case HP => {}
  }

  /** What a write does to both register files, away from the reset register. */
  function Put(s: State, reg: int, val: Word): State
    requires Valid(s) && 0 <= reg < REG_COUNT
  {
    State(s.cache[reg := val], s.codec[reg := val * Nine()])
  }

  lemma WriteIs(s: State, reg: int, val: Word)
    requires Valid(s) && 0 <= reg < REG_COUNT && reg != RESET
    ensures WriteReg(s, reg, val, true) == Put(s, reg, val)
  {
    UnpackPack(reg, val);
  }

  lemma SwitchIs(s: State, reg: int, mask: Word, on: bool)
    requires Valid(s) && 0 <= reg < REG_COUNT && reg != RESET
    ensures Switch(s, reg, mask, on) == Put(s, reg, Switched(s.cache[reg], mask, on))
  {
    WriteIs(s, reg, Switched(s.cache[reg], mask, on));
  }

  lemma PutTwice(s: State, reg: int, v: Word, w: Word)
    requires Valid(s) && 0 <= reg < REG_COUNT
    ensures Put(Put(s, reg, v), reg, w) == Put(s, reg, w)
  {
  }

  lemma PutsCommute(s: State, r: int, v: Word, q: int, w: Word)
    requires Valid(s) && 0 <= r < REG_COUNT && 0 <= q < REG_COUNT && r != q
    ensures Put(Put(s, r, v), q, w) == Put(Put(s, q, w), r, v)
  {
    var x, y := Put(Put(s, r, v), q, w), Put(Put(s, q, w), r, v);
    assert x.cache == y.cache;
    assert x.codec == y.codec;
  }

  lemma SwitchedTwice(v: Word, a: Word, b: Word, on: bool)
    ensures Switched(Switched(v, a, on), b, on) == Switched(v, a + b, on)
  {
  }

  lemma SwitchTwice(s: State, reg: int, a: Word, b: Word, on: bool)
    requires Valid(s) && 0 <= reg < REG_COUNT && reg != RESET
    ensures Switch(Switch(s, reg, a, on), reg, b, on) == Switch(s, reg, a + b, on)
  {
    SwitchIs(s, reg, a, on);
    SwitchIs(Switch(s, reg, a, on), reg, b, on);
    SwitchIs(s, reg, a + b, on);
    SwitchedTwice(s.cache[reg], a, b, on);
    var v := Switched(s.cache[reg], a, on);
    PutTwice(s, reg, v, Switched(v, b, on));
  }

  /** The speaker's extra write, nothing for the other modules. */
  function Extra(s: State, m: Module): (t: State)
    requires Valid(s)
    ensures Valid(t)
  {
    if m.Speaker? then WriteReg(s, CLASSD1, CLASSD1_ON, true) else s
  }

  lemma SetModuleIs(s: State, m: Module, on: bool)
    requires Valid(s) && m != HP
    ensures SetModule(s, m, on) == Extra(Switch(s, ModuleReg(m), ModuleMask(m), on), m)
  {
    match m
    case ADC => SwitchTwice(s, POWER1, {3}, {2}, on);
    case DAC => SwitchTwice(s, POWER2, {8}, {7}, on);
    case VREF =>
    case LineIn => SwitchTwice(s, POWER1, {5}, {4}, on);
    case LineOut => SwitchTwice(s, POWER2, {6}, {5}, on);
    case Speaker =>
      SwitchTwice(s, POWER2, {4}, {3}, on);
      WriteIs(Switch(s, POWER2, {4} + {3}, on), CLASSD1, CLASSD1_ON);
  }

  /** Where a module's switches are, in plain numbers. */
  function SwitchBits(m: Module): (int, Word) {
    match m
    case ADC => (0x19, {2, 3}) case VREF => (0x19, {6}) case LineIn => (0x19, {4, 5})
    case DAC => (0x1A, {7, 8}) case LineOut => (0x1A, {5, 6}) case Speaker => (0x1A, {3, 4})
    case HP => (0x19, {})
  }

  /** Switching a module sets or clears its bits, in the shadow and in the codec, and changes no
      other bit of any register, but for the speaker's amplifier, which is always set up. */
  lemma ModuleSwitches(s: State, m: Module, on: bool)
    requires Valid(s)
    ensures var (reg, bits) := SwitchBits(m);
            var was := s.cache[reg];
            var val := if m == HP then was else if on then was + bits else was - bits;
            var t := if m.Speaker? then
                       State(s.cache[0x31 := {0, 1, 2, 4, 5, 6, 7}],
                             s.codec[0x31 := {0, 1, 2, 4, 5, 6, 7}])
                     else s;
            SetModule(s, m, on) ==
            if m == HP then s
            else State(t.cache[reg := val], t.codec[reg := val * Ones(0, 9)])
  {
    if m != HP {
      ModuleIsPut(s, m, on);
    }
  }

  /** Where the amplifier's register comes into it, its write can come first. */
  lemma ModuleIsPut(s: State, m: Module, on: bool)
    requires Valid(s) && m != HP
    ensures var (reg, bits) := SwitchBits(m);
            var val := if on then s.cache[reg] + bits else s.cache[reg] - bits;
            SetModule(s, m, on) ==
            Put(if m.Speaker? then Put(s, CLASSD1, CLASSD1_ON) else s, reg, val)
    ensures CLASSD1_ON * Nine() == CLASSD1_ON
  {
    var (reg, bits) := SwitchBits(m);
    var val := if on then s.cache[reg] + bits else s.cache[reg] - bits;
    SetModuleIs(s, m, on);
    PowerIsPut(s, m, on);
    if m.Speaker? {
      AmplifierFirst(s, reg, val);
    }
  }

  lemma PowerIsPut(s: State, m: Module, on: bool)
    requires Valid(s) && m != HP
    ensures var (reg, bits) := SwitchBits(m);
            Switch(s, ModuleReg(m), ModuleMask(m), on)
            == Put(s, reg, if on then s.cache[reg] + bits else s.cache[reg] - bits)
  {
    SwitchIs(s, ModuleReg(m), ModuleMask(m), on);
    SwitchedIs(s.cache[ModuleReg(m)], ModuleMask(m), on);
    assert ModuleMask(m) == SwitchBits(m).1;
  }

  lemma AmplifierFirst(s: State, reg: int, val: Word)
    requires Valid(s) && 0 <= reg < REG_COUNT && reg != CLASSD1
    ensures WriteReg(Put(s, reg, val), CLASSD1, CLASSD1_ON, true)
            == Put(Put(s, CLASSD1, CLASSD1_ON), reg, val)
  {
    WriteIs(Put(s, reg, val), CLASSD1, CLASSD1_ON);
    PutsCommute(s, reg, val, CLASSD1, CLASSD1_ON);
  }

  lemma SwitchedIs(v: Word, mask: Word, on: bool)
    ensures Switched(v, mask, on) == if on then v + mask else v - mask
  {
  }

  lemma SwitchedCommute(v: Word, a: Word, x: bool, b: Word, y: bool)
    requires a !! b
    ensures Switched(Switched(v, a, x), b, y) == Switched(Switched(v, b, y), a, x)
  {
  }

  lemma SwitchesCommute(s: State, r: int, a: Word, x: bool, q: int, b: Word, y: bool)
    requires Valid(s) && 0 <= r < REG_COUNT && 0 <= q < REG_COUNT && r != RESET && q != RESET
    requires r == q ==> a !! b
    ensures Switch(Switch(s, r, a, x), q, b, y) == Switch(Switch(s, q, b, y), r, a, x)
  {
    SwitchIs(s, r, a, x);
    SwitchIs(Switch(s, r, a, x), q, b, y);
    SwitchIs(s, q, b, y);
    SwitchIs(Switch(s, q, b, y), r, a, x);
    var v, w := Switched(s.cache[r], a, x), Switched(s.cache[q], b, y);
    if r == q {
      SwitchedCommute(s.cache[r], a, x, b, y);
      PutTwice(s, r, v, Switched(v, b, y));
      PutTwice(s, r, w, Switched(w, a, x));
    } else {
      PutsCommute(s, r, v, q, w);
    }
  }

  lemma ExtraCommutes(s: State, m: Module, r: int, a: Word, x: bool)
    requires Valid(s) && 0 <= r < REG_COUNT && r != RESET && r != CLASSD1
    ensures Switch(Extra(s, m), r, a, x) == Extra(Switch(s, r, a, x), m)
  {
    if m.Speaker? {
      WriteIs(s, CLASSD1, CLASSD1_ON);
      SwitchIs(s, r, a, x);
      SwitchIs(Extra(s, m), r, a, x);
      WriteIs(Switch(s, r, a, x), CLASSD1, CLASSD1_ON);
      PutsCommute(s, r, Switched(s.cache[r], a, x), CLASSD1, CLASSD1_ON);
    }
  }

  lemma MasksDisjoint(m: Module, n: Module)
    requires m != n && ModuleReg(m) == ModuleReg(n)
    ensures ModuleMask(m) !! ModuleMask(n)
  {
  }

  lemma SwitchAndExtraCommute(s: State, m: Module, x: bool, n: Module, y: bool)
    requires Valid(s) && m != n
    ensures var sm := Extra(Switch(s, ModuleReg(m), ModuleMask(m), x), m);
            var sn := Extra(Switch(s, ModuleReg(n), ModuleMask(n), y), n);
            Extra(Switch(sm, ModuleReg(n), ModuleMask(n), y), n)
            == Extra(Switch(sn, ModuleReg(m), ModuleMask(m), x), m)
  {
    var sm := Switch(s, ModuleReg(m), ModuleMask(m), x);
    var sn := Switch(s, ModuleReg(n), ModuleMask(n), y);
    ExtraCommutes(sm, m, ModuleReg(n), ModuleMask(n), y);
    ExtraCommutes(sn, n, ModuleReg(m), ModuleMask(m), x);
    if ModuleReg(m) == ModuleReg(n) {
      MasksDisjoint(m, n);
    }
    SwitchesCommute(s, ModuleReg(m), ModuleMask(m), x, ModuleReg(n), ModuleMask(n), y);
  }

  /** Switching two different modules gives the same registers in either order. */
  lemma ModulesCommute(s: State, m: Module, x: bool, n: Module, y: bool)
    requires Valid(s) && m != n
    ensures SetModule(SetModule(s, m, x), n, y) == SetModule(SetModule(s, n, y), m, x)
  {
    if m != HP && n != HP {
      SetModuleIs(s, m, x);
      SetModuleIs(SetModule(s, m, x), n, y);
      SetModuleIs(s, n, y);
      SetModuleIs(SetModule(s, n, y), m, x);
      SwitchAndExtraCommute(s, m, x, n, y);
    }
  }

  /** Switch a list of modules off, in order. */
  function AllOff(s: State, ms: seq<Module>): (t: State)
    requires Valid(s)
    ensures Valid(t)
    decreases |ms|
  {
    if ms == [] then s else AllOff(SetModule(s, ms[0], false), ms[1..])
  }

  function Deinit(s: State): State
    requires Valid(s)
  {
    AllOff(s, [ADC, DAC, VREF, LineIn, LineOut, Speaker])
  }

  predicate IsOff(s: State, m: Module)
    requires Valid(s)
  {
    s.cache[ModuleReg(m)] !! ModuleMask(m)
  }

  lemma SwitchedOff(v: Word, a: Word, b: Word)
    ensures Switched(v, a, false) !! a
    ensures v !! b ==> Switched(v, a, false) !! b
  {
  }

  /** Switching one module off leaves it off, and leaves off those that were. */
  lemma OffStaysOff(s: State, m: Module, n: Module)
    requires Valid(s) && m != HP
    ensures IsOff(SetModule(s, m, false), m)
    ensures IsOff(s, n) ==> IsOff(SetModule(s, m, false), n)
  {
    SetModuleIs(s, m, false);
    var t := Switch(s, ModuleReg(m), ModuleMask(m), false);
    SwitchIs(s, ModuleReg(m), ModuleMask(m), false);
    WriteIs(t, CLASSD1, CLASSD1_ON);
    SwitchedOff(s.cache[ModuleReg(m)], ModuleMask(m), ModuleMask(m));
    SwitchedOff(s.cache[ModuleReg(m)], ModuleMask(m), ModuleMask(n));
  }

  lemma {:induction false} AllOffTurnsOff(s: State, ms: seq<Module>, m: Module)
    requires Valid(s) && (m in ms || IsOff(s, m)) && HP !in ms
    ensures IsOff(AllOff(s, ms), m)
    decreases |ms|
  {
    if ms != [] {
      assert ms[0] != HP;
      OffStaysOff(s, ms[0], m);
      assert m in ms ==> m == ms[0] || m in ms[1..];
      AllOffTurnsOff(SetModule(s, ms[0], false), ms[1..], m);
    }
  }

  /** After a deinit every module's switches are clear. */
  lemma DeinitTurnsAllOff(s: State, m: Module)
    requires Valid(s)
    ensures IsOff(Deinit(s), m)
  {
    var ms := [ADC, DAC, VREF, LineIn, LineOut, Speaker];
    assert m != HP ==> m in ms;
    AllOffTurnsOff(s, ms, m);
  }

  // ----- Whole runs -----

  datatype Event =
    | Write(reg: int, val: Word)
    | Modify(reg: int, mask: Word, val: Word)
    | Power(m: Module, on: bool)

  /** Register numbers below 56, and no reset behind the shadow's back. */
  predicate CanHappen(e: Event) {
    (e.Write? || e.Modify?) ==> 0 <= e.reg < REG_COUNT && e.reg != RESET
  }

  function Step(s: State, e: Event): (t: State)
    requires Valid(s) && CanHappen(e)
    ensures Valid(t)
  {
    match e
    case Write(reg, val) => WriteReg(s, reg, val, true)
    case Modify(reg, mask, val) => ModifyReg(s, reg, mask, val)
    case Power(m, on) => SetModule(s, m, on)
  }

  function Run(s: State, es: seq<Event>): (t: State)
    requires Valid(s) && forall i :: 0 <= i < |es| ==> CanHappen(es[i])
    ensures Valid(t)
    decreases |es|
  {
    if es == [] then s else Run(Step(s, es[0]), es[1..])
  }

  lemma SwitchKeepsAgree(s: State, reg: int, mask: Word, on: bool)
    requires Valid(s) && Agree(s) && 0 <= reg < REG_COUNT && reg != RESET
    ensures Agree(Switch(s, reg, mask, on))
  {
    WriteKeepsAgree(s, reg, Switched(s.cache[reg], mask, on));
  }

  lemma ExtraKeepsAgree(s: State, m: Module)
    requires Valid(s) && Agree(s)
    ensures Agree(Extra(s, m))
  {
    WriteKeepsAgree(s, CLASSD1, CLASSD1_ON);
  }

  lemma ModuleKeepsAgree(s: State, m: Module, on: bool)
    requires Valid(s) && Agree(s)
    ensures Agree(SetModule(s, m, on))
  {
    if m != HP {
      SetModuleIs(s, m, on);
      SwitchKeepsAgree(s, ModuleReg(m), ModuleMask(m), on);
      ExtraKeepsAgree(Switch(s, ModuleReg(m), ModuleMask(m), on), m);
    }
  }

  lemma ModifyKeepsAgree(s: State, reg: int, mask: Word, val: Word)
    requires Valid(s) && Agree(s) && 0 <= reg < REG_COUNT && reg != RESET
    ensures Agree(ModifyReg(s, reg, mask, val))
  {
    WriteKeepsAgree(s, reg, (ReadReg(s, reg) - mask) + val);
  }

  lemma StepKeepsAgree(s: State, e: Event)
    requires Valid(s) && Agree(s) && CanHappen(e)
    ensures Agree(Step(s, e))
  {
    match e
    case Write(reg, val) => WriteKeepsAgree(s, reg, val);
    case Modify(reg, mask, val) => ModifyKeepsAgree(s, reg, mask, val);
    case Power(m, on) => ModuleKeepsAgree(s, m, on);
  }

  lemma {:induction false} RunKeepsAgree(s: State, es: seq<Event>)
    requires Valid(s) && Agree(s) && forall i :: 0 <= i < |es| ==> CanHappen(es[i])
    ensures Agree(Run(s, es))
    decreases |es|
  {
    if es != [] {
      StepKeepsAgree(s, es[0]);
      RunKeepsAgree(Step(s, es[0]), es[1..]);
    }
  }

  /** Register and value of every write that follows the reset in a default initialisation. */
  const INIT_TABLE: seq<(int, NineBit)> :=
    [(0x09, 0x40), (POWER1, 0xCA), (POWER2, 0x1E0), (0x2F, 0x0C), (0x04, 0x00), (IFACE1, 0x0D),
     (0x20, 0x18), (0x21, 0x18), (0x2B, 0x70), (0x2C, 0x70), (0x22, 0x100), (0x25, 0x100),
     (0x2D, 0x00), (0x2E, 0x00), (0x26, 0x00), (0x27, 0x00), (0x17, 0x0C4), (0x30, 0x40),
     (LADC, 0x1F3), (RADC, 0x1F3), (LDAC, 0x1E0), (RDAC, 0x1E0), (LOUT1, 0x16F), (ROUT1, 0x16F),
     (0x05, 0x00)]

  /** Registers below 56, none of them the reset register. */
  predicate Writable(table: seq<(int, NineBit)>) {
    forall i :: 0 <= i < |table| ==> 0 <= table[i].0 < REG_COUNT && table[i].0 != RESET
  }

  lemma InitTableWritable()
    ensures Writable(INIT_TABLE)
  {
  }

  function WritesOf(table: seq<(int, NineBit)>): (es: seq<Event>)
    requires Writable(table)
    ensures forall i :: 0 <= i < |es| ==> CanHappen(es[i])
  {
    seq(|table|, i requires 0 <= i < |table| => Write(table[i].0, FromInt(table[i].1)))
  }

  /** The last value that a table writes to register `r`, which held `was`. */
  function LastWritten(table: seq<(int, NineBit)>, r: int, was: Word): Word
    decreases |table|
  {
    if table == [] then was
    else LastWritten(table[1..], r, if table[0].0 == r then FromInt(table[0].1) else was)
  }

  lemma {:induction false} WritesLeaveTable(s: State, table: seq<(int, NineBit)>, r: int)
    requires Valid(s) && Writable(table) && 0 <= r < REG_COUNT
    ensures Run(s, WritesOf(table)).cache[r] == LastWritten(table, r, s.cache[r])
    decreases |table|
  {
    if table != [] {
      assert WritesOf(table)[1..] == WritesOf(table[1..]);
      WritesLeaveTable(WriteReg(s, table[0].0, FromInt(table[0].1), true), table[1..], r);
    }
  }

  /** The state a default initialisation passes through right after its reset. */
  function AfterReset(codec: Regs): (t: State)
    requires |codec| == REG_COUNT
    ensures Valid(t)
  {
    WriteReg(State(Defaults(), codec), RESET, {}, true)
  }

  lemma ResetAgrees(codec: Regs)
    requires |codec| == REG_COUNT
    ensures Agree(AfterReset(codec))
  {
    DefaultsFit();
    ResetAgreesExactlyAtDefaults(State(Defaults(), codec), {});
  }

  /** Whatever the codec held before, after an initialisation that resets it and writes a table
      (as the default one does with INIT_TABLE), and along every run of writes, modifications
      and module switches, shadow and codec agree. */
  lemma ShadowAlwaysAgrees(codec: Regs, table: seq<(int, NineBit)>, es: seq<Event>)
    requires |codec| == REG_COUNT && Writable(table)
    requires forall i :: 0 <= i < |es| ==> CanHappen(es[i])
    ensures Agree(Run(Run(AfterReset(codec), WritesOf(table)), es))
  {
    ResetAgrees(codec);
    RunKeepsAgree(AfterReset(codec), WritesOf(table));
    RunKeepsAgree(Run(AfterReset(codec), WritesOf(table)), es);
  }

  lemma {:induction false} LastWrittenFits(table: seq<(int, NineBit)>, r: int, was: Word)
    requires was * Nine() == was
    ensures LastWritten(table, r, was) * Nine() == LastWritten(table, r, was)
    decreases |table|
  {
    if table != [] {
      NineBitsKept(table[0].1);
      LastWrittenFits(table[1..], r, if table[0].0 == r then FromInt(table[0].1) else was);
    }
  }

  lemma NineBitsKept(n: NineBit)
    ensures FromInt(n) * Nine() == FromInt(n)
  {
    assert Pow2(8) == 256 && Pow2(9) == 512;
    FromIntFits(n, 9);
  }

  /** So after such an initialisation, whatever the codec held, each of its registers holds the
      last value the table writes to it, and its reset value where the table writes none. */
  lemma InitLeavesTable(codec: Regs, table: seq<(int, NineBit)>, r: int)
    requires |codec| == REG_COUNT && Writable(table) && 0 <= r < REG_COUNT
    ensures Run(AfterReset(codec), WritesOf(table)).codec[r]
            == LastWritten(table, r, FromInt(DEFAULT_TABLE[r]))
  {
    var s := AfterReset(codec);
    ResetAgrees(codec);
    ResetIs(State(Defaults(), codec), {});
    DefaultsFit();
    assert s.cache[r] == Defaults()[r];
    RunKeepsAgree(s, WritesOf(table));
    WritesLeaveTable(s, table, r);
    LastWrittenFits(table, r, Defaults()[r]);
  }
}
