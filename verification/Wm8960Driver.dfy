/** The codec driver's calls over the mutable shadow array, and what volume and protocol
    settings come to. */
module Wm8960Driver {
  import opened Words
  import opened Wm8960

  // ----- Volume -----

  /** The left and right volume registers a volume call writes, if the module has any. */
  function VolumeRegs(m: Module): (int, int) {
    match m
    case ADC => (LADC, RADC)
    case DAC => (LDAC, RDAC)
    case HP => (LOUT1, ROUT1)
    case LineIn => (LINVOL, RINVOL)
    case Speaker => (LOUT2, ROUT2)
    case VREF | LineOut => (RESET, RESET)  // no volume: invalid argument
  }

  predicate HasVolume(m: Module) { !m.VREF? && !m.LineOut? }

  /** The nine-bit value: the update bit and the caller's volume, cut to sixteen bits. */
  function VolumeValue(volume: Word): Word {
    ({8} + volume) * Ones(0, 16)
  }

  function AfterVolume(s: State, m: Module, volume: Word): State
    requires Valid(s)
  {
    if HasVolume(m) then
      WriteReg(WriteReg(s, VolumeRegs(m).0, VolumeValue(volume), true),
               VolumeRegs(m).1, VolumeValue(volume), true)
    else s
  }

  function VolumeOf(s: State, m: Module): Word
    requires Valid(s)
  {
    match m
    case ADC => s.cache[LADC] * Ones(0, 8)
    case DAC => s.cache[LDAC] * Ones(0, 8)
    case HP => s.cache[LOUT1] * Ones(0, 7)
    case LineOut => s.cache[LINVOL] * Ones(0, 6)
    case _ => {}
  }

  lemma VolumeBits(volume: Word, width: nat)
    requires width <= 8
    ensures VolumeValue(volume) * Ones(0, width) == volume <==> volume <= Ones(0, width)
  {
    var got := VolumeValue(volume) * Ones(0, width);
    assert forall i :: i in got <==> i in volume && i in Ones(0, width);
  }

  lemma VolumeStored(s: State, m: Module, volume: Word)
    requires Valid(s) && HasVolume(m)
    ensures Valid(AfterVolume(s, m, volume))
    ensures AfterVolume(s, m, volume).cache[VolumeRegs(m).0] == VolumeValue(volume)
  {
  }

  /** A volume reads back as set exactly for an ADC or DAC volume of eight bits, a headphone
      volume of seven bits, or a zero on the modules whose volume is never read. */
  lemma VolumeRoundTrip(s: State, m: Module, volume: Word)
    requires Valid(s) && HasVolume(m)
    ensures Valid(AfterVolume(s, m, volume))
    ensures VolumeOf(AfterVolume(s, m, volume), m) == volume <==>
              match m
              case ADC | DAC => volume <= Ones(0, 8)
              case HP => volume <= Ones(0, 7)
              case _ => volume == {}
  {
    VolumeStored(s, m, volume);
    VolumeBits(volume, 8);
    VolumeBits(volume, 7);
  }

  /** The line output, which has no volume to set, reads back six bits of the line input's. */
  lemma LineOutReadsLineIn(s: State, volume: Word)
    requires Valid(s) && volume <= Ones(0, 6)
    ensures Valid(AfterVolume(s, LineIn, volume))
    ensures VolumeOf(AfterVolume(s, LineIn, volume), LineOut) == volume
  {
    VolumeStored(s, LineIn, volume);
    VolumeBits(volume, 6);
  }

  /** The two registers of a module's volume, in plain numbers. */
  function Channels(m: Module): (int, int) {
    match m
    case ADC => (0x15, 0x16) case DAC => (0x0A, 0x0B) case HP => (0x02, 0x03)
    case LineIn => (0x00, 0x01) case Speaker => (0x28, 0x29) case _ => (0x0F, 0x0F)
  }

  /** A volume goes to both channels: each register gets the update bit and the volume, in the
      shadow cut to sixteen bits and in the codec to nine, and no other register changes.  The
      modules without a volume change nothing. */
  lemma VolumeReachesBothChannels(s: State, m: Module, volume: Word)
    requires Valid(s)
    ensures var (left, right) := Channels(m);
            var shadow, nine := ({8} + volume) * Ones(0, 16), ({8} + volume) * Ones(0, 9);
            AfterVolume(s, m, volume) ==
            if m.VREF? || m.LineOut? then s
            else State(s.cache[left := shadow][right := shadow],
                       s.codec[left := nine][right := nine])
    ensures volume <= Ones(0, 8) ==> ({8} + volume) * Ones(0, 16) == {8} + volume
                                     && ({8} + volume) * Ones(0, 9) == {8} + volume
  {
    if HasVolume(m) {
      var (left, right) := Channels(m);
      var val := VolumeValue(volume);
      assert val * Nine() == ({8} + volume) * Ones(0, 9);
      WriteIs(s, left, val);
      WriteIs(Put(s, left, val), right, val);
    }
  }

  // ----- Protocol -----

  datatype Protocol = I2S | LeftJustified | RightJustified | PCMA | PCMB

  predicate Pcm(p: Protocol) { p.PCMA? || p.PCMB? }

  function FormatBits(p: Protocol): Word {
    match p
    case I2S => {1} case LeftJustified => {0} case RightJustified => {} case PCMA | PCMB => {0, 1}
  }

  function PolarityBit(p: Protocol): Word { if p.PCMB? then {4} else {} }

  /** What the interface register becomes: format, the polarity bit for the two PCM modes
      only, and 32-bit words. */
  function ProtocolValue(v: Word, p: Protocol): Word {
    var v1 := (v - {0, 1}) + FormatBits(p);
    var v2 := if Pcm(p) then (v1 - {4}) + PolarityBit(p) else v1;
    (v2 - {2, 3}) + {2, 3}
  }

  /** Setting a protocol forgets the one set before exactly when the new one fixes the
      polarity bit, the old one did not touch it, or it already was as the old one left it. */
  lemma ProtocolForgetsExactlyWhen(v: Word, q: Protocol, p: Protocol)
    ensures ProtocolValue(ProtocolValue(v, q), p) == ProtocolValue(v, p) <==>
              Pcm(p) || !Pcm(q) || (4 in v <==> q.PCMB?)
  {
    var x, y := ProtocolValue(ProtocolValue(v, q), p), ProtocolValue(v, p);
    forall i | i != 4
      ensures i in x <==> i in y
    {
    }
    assert 4 in x <==> 4 in (if Pcm(p) then PolarityBit(p) else if Pcm(q) then PolarityBit(q) else v);
    assert 4 in y <==> 4 in (if Pcm(p) then PolarityBit(p) else v);
    if 4 in x <==> 4 in y {
      assert x == y;
    }
  }

  /** The interface register's fields after a protocol is set: the format code, 32-bit words, the
      polarity bit for the PCM modes (set for mode B), and every other bit as it was. */
  lemma ProtocolFields(v: Word, p: Protocol)
    ensures var t := ProtocolValue(v, p);
            && t * Ones(0, 2) == FromInt(match p
                                         case RightJustified => 0 case LeftJustified => 1
                                         case I2S => 2 case PCMA | PCMB => 3)
            && 2 in t && 3 in t
            && (4 in t <==> if p.PCMA? || p.PCMB? then p.PCMB? else 4 in v)
            && forall i :: i !in Ones(0, 5) ==> (i in t <==> i in v)
  {
    assert FromInt(0) == {} && FromInt(1) == {0};
    assert FromInt(2) == {1} && FromInt(3) == {0, 1};
  }

  // ----- The calls -----

  class Driver {
    const regCache: array<Word>
    var codec: Regs

    ghost function View(): State
      reads this, regCache
    {
      State(regCache[..], codec)
    }

    ghost predicate Ready()
      reads this, regCache
    {
      Valid(View())
    }

    /** The shadow starts from the reset values; the codec holds what it holds. */
    constructor (codec: Regs)
      requires |codec| == REG_COUNT
      ensures Ready() && fresh(regCache) && View() == State(Defaults(), codec)
    {
      regCache := new Word[REG_COUNT](r requires 0 <= r < REG_COUNT => Defaults()[r]);
      this.codec := codec;
      new;
      assert regCache[..] == Defaults();
    }

    method Write(reg: int, val: Word, ok: bool) returns (success: bool)
      requires Ready() && 0 <= reg < REG_COUNT
      modifies this, regCache
      ensures Ready() && View() == WriteReg(old(View()), reg, val, ok) && success == ok
    {
      var (cmd, buff) := Pack(reg, val);
      regCache[reg] := val;
      UnpackPack(reg, val);
      if ok {
        codec := Deliver(codec, cmd, buff);
      }
      success := ok;
    }

    method Read(reg: int) returns (success: bool, val: Word)
      requires Ready() && 0 <= reg
      ensures success <==> reg < REG_COUNT
      ensures success ==> val == ReadReg(View(), reg)
    {
      if reg >= REG_COUNT {
        return false, {};
      }
      return true, regCache[reg];
    }

    /** A register number out of range fails before anything is written. */
    method Modify(reg: int, mask: Word, val: Word, ok: bool) returns (success: bool)
      requires Ready() && 0 <= reg
      modifies this, regCache
      ensures Ready() && (success <==> reg < REG_COUNT && ok)
      ensures reg >= REG_COUNT ==> View() == old(View())
      ensures reg < REG_COUNT ==>
                View() == WriteReg(old(View()), reg, (old(regCache[reg]) - mask) + val, ok)
      ensures success ==> View() == ModifyReg(old(View()), reg, mask, val)
    {
      var found, regVal := Read(reg);
      if !found {
        return false;
      }
      regVal := regVal - mask;
      regVal := regVal + val;
      success := Write(reg, regVal, ok);
    }

    /** One masked switch; the result of its transfer is ignored. */
    method SwitchBits(reg: int, mask: Word, on: bool, ok: bool)
      requires Ready() && 0 <= reg < REG_COUNT
      modifies this, regCache
      ensures Ready() && regCache[..] == Switch(old(View()), reg, mask, on).cache
      ensures View() == WriteReg(old(View()), reg,
                                 (old(regCache[reg]) - mask) + (if on then mask else {}), ok)
      ensures ok ==> View() == Switch(old(View()), reg, mask, on)
    {
      var _ := Modify(reg, mask, if on then mask else {}, ok);
    }

    /** Sets a volume; the two flags say which transfers succeed.  The result is that of the
        second one alone, and a module without a volume is an invalid argument. */
    method SetVolume(m: Module, volume: Word, ok1: bool, ok2: bool) returns (success: bool)
      requires Ready()
      modifies this, regCache
      ensures Ready() && (success <==> HasVolume(m) && ok2)
      ensures regCache[..] == AfterVolume(old(View()), m, volume).cache
      ensures ok1 && ok2 ==> View() == AfterVolume(old(View()), m, volume)
    {
      var vol := ({8} + volume) * Ones(0, 16);
      success := false;
      match m
      case ADC =>
        success := Write(LADC, vol, ok1);
        success := Write(RADC, vol, ok2);
      case DAC =>
        success := Write(LDAC, vol, ok1);
        success := Write(RDAC, vol, ok2);
      case HP =>
        success := Write(LOUT1, vol, ok1);
        success := Write(ROUT1, vol, ok2);
      case LineIn =>
        success := Write(LINVOL, vol, ok1);
        success := Write(RINVOL, vol, ok2);
      case Speaker =>
        success := Write(LOUT2, vol, ok1);
        success := Write(ROUT2, vol, ok2);
      case _ =>
    }

    method GetVolume(m: Module) returns (vol: Word)
      requires Ready()
      ensures vol == VolumeOf(View(), m)
    {
      var found, read := false, {};
      match m
      case ADC =>
        found, read := Read(LADC);
        vol := read * Ones(0, 8);
      case DAC =>
        found, read := Read(LDAC);
        vol := read * Ones(0, 8);
      case HP =>
        found, read := Read(LOUT1);
        vol := read * Ones(0, 7);
      case LineOut =>
        found, read := Read(LINVOL);
        vol := read * Ones(0, 6);
      case _ =>
        vol := {};
    }

    /** Sets a protocol, whose transfers succeed: only the interface register changes. */
    method SetProtocol(p: Protocol)
      requires Ready()
      modifies this, regCache
      ensures Ready()
      ensures View() == Put(old(View()), IFACE1, ProtocolValue(old(regCache[IFACE1]), p))
    {
      ghost var s := View();
      var v1 := (regCache[IFACE1] - {0, 1}) + FormatBits(p);
      ModifyOk(IFACE1, {0, 1}, FormatBits(p));
      if p.PCMA? || p.PCMB? {
        ModifyOk(IFACE1, {4}, PolarityBit(p));
        PutTwice(s, IFACE1, v1, (v1 - {4}) + PolarityBit(p));
      }
      ghost var v2 := if Pcm(p) then (v1 - {4}) + PolarityBit(p) else v1;
      ModifyOk(IFACE1, {2, 3}, {2, 3});
      PutTwice(s, IFACE1, v2, (v2 - {2, 3}) + {2, 3});
    }

    /** Master or slave: only bit 6 of the interface register changes. */
    method SetMasterSlave(master: bool)
      requires Ready()
      modifies this, regCache
      ensures Ready()
      ensures View() == Put(old(View()), IFACE1,
                            if master then old(regCache[IFACE1]) + {6}
                            else old(regCache[IFACE1]) - {6})
    {
      ghost var was := regCache[IFACE1];
      if master {
        ModifyOk(IFACE1, {6}, {6});
        assert (was - {6}) + {6} == was + {6};
      } else {
        ModifyOk(IFACE1, {6}, {});
        assert (was - {6}) + {} == was - {6};
      }
    }

    /** A masked change away from the reset register, whose transfer succeeds. */
    method ModifyOk(reg: int, mask: Word, val: Word)
      requires Ready() && 0 <= reg < REG_COUNT && reg != RESET
      modifies this, regCache
      ensures Ready() && View() == Put(old(View()), reg, (old(regCache[reg]) - mask) + val)
    {
      WriteIs(View(), reg, (regCache[reg] - mask) + val);
      var _ := Modify(reg, mask, val, true);
    }

    /** Switches a module; `oks` tells which of its up to three transfers succeed.  The shadow
        is switched and success is reported whether they do or not. */
    method SetModulePower(m: Module, on: bool, oks: (bool, bool, bool)) returns (success: bool)
      requires Ready()
      modifies this, regCache
      ensures Ready() && regCache[..] == SetModule(old(View()), m, on).cache
      ensures oks == (true, true, true) ==> View() == SetModule(old(View()), m, on)
      ensures success <==> m != HP
    {
      success := true;
      match m
      case ADC =>
        SwitchBits(POWER1, {3}, on, oks.0);
        SwitchBits(POWER1, {2}, on, oks.1);
      case DAC =>
        SwitchBits(POWER2, {8}, on, oks.0);
        SwitchBits(POWER2, {7}, on, oks.1);
      case VREF =>
        SwitchBits(POWER1, {6}, on, oks.0);
      case LineIn =>
        SwitchBits(POWER1, {5}, on, oks.0);
        SwitchBits(POWER1, {4}, on, oks.1);
      case LineOut =>
        SwitchBits(POWER2, {6}, on, oks.0);
        SwitchBits(POWER2, {5}, on, oks.1);
      case Speaker =>
        SwitchBits(POWER2, {4}, on, oks.0);
        SwitchBits(POWER2, {3}, on, oks.1);
        var _ := Write(CLASSD1, CLASSD1_ON, oks.2);
      case HP =>
        success := false;
    }
  }
}
