/** Packed descriptors of clock-controller bit fields, and field access through them. */
module CcmTuple {
  import opened Bits
  import opened Words

  // ----- Descriptors -----

  /** A field: register offset, first bit, number of bits, and the busy bit to wait for. */
  datatype Field = Field(reg: int, shift: int, width: nat, busy: int)

  const NO_BUSY_WAIT := 0x20

  /** At most thirteen contiguous bits inside a word, and a byte of offset. */
  predicate Fits(f: Field) {
    && 0 <= f.reg < 0x100 && 0 <= f.shift && 0 < f.width <= 13 && f.shift + f.width <= 32
    && 0 <= f.busy <= NO_BUSY_WAIT
  }

  /** CCM_TUPLE: offset, shift, the mask brought down to bit zero, and the busy bit. */
  function Encode(f: Field): int {
    f.reg + f.shift * 0x100 + (Pow2(f.width) - 1) * 0x2000 + f.busy * 0x400_0000
  }

  function RegOf(t: int): int { t % 0x100 }
  function ShiftOf(t: int): int { t / 0x100 % 0x20 }
  function LowMaskOf(t: int): int { t / 0x2000 % 0x2000 }
  function BusyOf(t: int): int { t / 0x400_0000 % 0x40 }

  /** The four parts do not overlap. */
  lemma PartsApart(r: int, s: int, m: int, b: int)
    requires 0 <= r < 0x100 && 0 <= s < 0x20 && 0 <= m < 0x2000 && 0 <= b < 0x40
    ensures var t := r + s * 0x100 + m * 0x2000 + b * 0x400_0000;
            RegOf(t) == r && ShiftOf(t) == s && LowMaskOf(t) == m && BusyOf(t) == b
  {
    var t := r + s * 0x100 + m * 0x2000 + b * 0x400_0000;
    assert t / 0x100 == s + m * 0x20 + b * 0x4_0000;
    assert t / 0x2000 == m + b * 0x2000;
    assert t / 0x400_0000 == b;
  }

  lemma {:induction false} Pow2Injective(j: nat, k: nat)
    requires Pow2(j) == Pow2(k)
    ensures j == k
    decreases j
  {
    if j != 0 && k != 0 {
      Pow2Injective(j - 1, k - 1);
    }
  }

  /** Every field that fits is recovered from its descriptor, and no other field has it. */
  lemma DecodeEncode(f: Field)
    requires Fits(f)
    ensures var t := Encode(f);
            && RegOf(t) == f.reg && ShiftOf(t) == f.shift && BusyOf(t) == f.busy
            && LowMaskOf(t) == Pow2(f.width) - 1
            && 0 <= t < 0x1_0000_0000
    ensures forall g :: Fits(g) && Encode(g) == Encode(f) ==> g == f
  {
    WidthBound(f);
    PartsApart(f.reg, f.shift, Pow2(f.width) - 1, f.busy);
    forall g | Fits(g) && Encode(g) == Encode(f)
      ensures g == f
    {
      WidthBound(g);
      PartsApart(g.reg, g.shift, Pow2(g.width) - 1, g.busy);
      Pow2Injective(g.width, f.width);
    }
  }

  /** The descriptor of the AHB divider, bits 10 to 12 of the register at 0x14 with busy bit 1:
      each part in its place in the word. */
  lemma AhbDividerDescriptor()
    ensures Encode(Field(0x14, 10, 3, 1)) == 0x14 + 10 * 256 + 7 * 8192 + 1 * 67108864
  {
    assert Pow2(3) == 8;
  }

  lemma WidthBound(f: Field)
    requires Fits(f)
    ensures Pow2(f.width) <= 0x2000
  {
    Pow2Monotone(f.width, 13);
    assert Pow2(5) == 32 && Pow2(9) == 512 && Pow2(13) == 0x2000;
  }

  // ----- Field access -----

  /** The register file, by offset. */
  type Regs = map<int, Word>

  predicate Has(regs: Regs, f: Field) { Fits(f) && f.reg in regs }

  function Mask(f: Field): Word { Ones(f.shift, f.width) }

  /** The descriptor's mask: its low mask moved up to the field. */
  function MaskOf(t: int): Word
    requires 0 <= t
  {
    Shl(FromInt(LowMaskOf(t)), ShiftOf(t))
  }

  /** CLOCK_SetMux and CLOCK_SetDiv, once the handshake is over. */
  function Set(regs: Regs, t: int, v: Word): Regs
    requires 0 <= t && RegOf(t) in regs
  {
    regs[RegOf(t) := (regs[RegOf(t)] - MaskOf(t)) + Shl(v, ShiftOf(t)) * MaskOf(t)]
  }

  /** CLOCK_GetMux and CLOCK_GetDiv. */
  function Get(regs: Regs, t: int): Word
    requires 0 <= t && RegOf(t) in regs
  {
    Shr(regs[RegOf(t)] * MaskOf(t), ShiftOf(t))
  }

  /** The descriptor of a field that fits leads to exactly the field's bits. */
  lemma DescriptorLeadsToField(f: Field)
    requires Fits(f)
    ensures 0 <= Encode(f) && RegOf(Encode(f)) == f.reg && ShiftOf(Encode(f)) == f.shift
    ensures MaskOf(Encode(f)) == Mask(f)
  {
    DecodeEncode(f);
    MovedMask(Encode(f), f.shift, f.width);
  }

  lemma MovedMask(t: int, shift: int, width: nat)
    requires 0 <= t && ShiftOf(t) == shift && shift + width <= 32
    requires LowMaskOf(t) == Pow2(width) - 1
    ensures MaskOf(t) == Ones(shift, width)
  {
    OnesFromInt(width, LowMaskOf(t));
    OnesMoved(shift, width);
  }

  /** What is set through a field's descriptor is read back, cut to the field's width; no other
      bit of the register and no other register changes. */
  lemma GetAfterSet(regs: Regs, f: Field, v: Word)
    requires Has(regs, f)
    ensures 0 <= Encode(f) && RegOf(Encode(f)) in regs
    ensures var t := Encode(f);
            && Get(Set(regs, t, v), t) == v * Ones(0, f.width)
            && Set(regs, t, v)[f.reg] - Mask(f) == regs[f.reg] - Mask(f)
            && forall r :: r in regs && r != f.reg ==> Set(regs, t, v)[r] == regs[r]
  {
    DescriptorLeadsToField(f);
    FieldBack(regs[f.reg], v, f.shift, f.width);
  }

  /** The same on one word. */
  lemma FieldBack(was: Word, v: Word, shift: int, width: nat)
    requires 0 <= shift && shift + width <= 32
    ensures var mask := Ones(shift, width);
            var now := (was - mask) + Shl(v, shift) * mask;
            Shr(now * mask, shift) == v * Ones(0, width) && now - mask == was - mask
  {
    var mask := Ones(shift, width);
    var got := Shr(((was - mask) + Shl(v, shift) * mask) * mask, shift);
    forall i
      ensures i in got <==> i in v * Ones(0, width)
    {
      assert i in got <==> 0 <= i && i + shift in mask && i + shift in Shl(v, shift);
    }
  }

  /** Sets of fields in different registers, or on disjoint bits of one, commute. */
  lemma SetsCommute(regs: Regs, f: Field, v: Word, g: Field, w: Word)
    requires Has(regs, f) && Has(regs, g)
    requires f.reg == g.reg ==> Mask(f) !! Mask(g)
    ensures 0 <= Encode(f) && RegOf(Encode(f)) in regs && 0 <= Encode(g) && RegOf(Encode(g)) in regs
    ensures var t, u := Encode(f), Encode(g);
            Set(Set(regs, t, v), u, w) == Set(Set(regs, u, w), t, v)
  {
    DescriptorLeadsToField(f);
    DescriptorLeadsToField(g);
    if f.reg == g.reg {
      var was := regs[f.reg];
      var x, y := Shl(v, f.shift) * Mask(f), Shl(w, g.shift) * Mask(g);
      assert ((was - Mask(f)) + x - Mask(g)) + y == ((was - Mask(g)) + y - Mask(f)) + x;
    }
  }

  // ----- Phase fractional dividers: four eight-bit lanes in one register -----

  /** CLOCK_InitSysPfd: the lane's gate (bit 7) and fraction (bits 0 to 5) are cleared and the
      new fraction is put in. */
  function InitPfd(reg: Word, lane: int, frac: Word): Word {
    var lost := Shl(Ones(0, 6) + {7}, 8 * lane);
    (reg - lost) + Shl(frac * Ones(0, 6), 8 * lane)
  }

  /** The fraction is read back, the lane's clock runs, and the other lanes are untouched. */
  lemma PfdReadsBack(reg: Word, lane: int, frac: Word, other: int)
    requires 0 <= lane < 4 && 0 <= other < 4
    ensures var r := InitPfd(reg, lane, frac);
            && Shr(r * Shl(Ones(0, 6), 8 * lane), 8 * lane) == frac * Ones(0, 6)
            && 8 * lane + 7 !in r && (8 * lane + 6 in r <==> 8 * lane + 6 in reg)
            && (other != lane ==> r * Ones(8 * other, 8) == reg * Ones(8 * other, 8))
  {
    var r := InitPfd(reg, lane, frac);
    var got := Shr(r * Shl(Ones(0, 6), 8 * lane), 8 * lane);
    forall i
      ensures i in got <==> i in frac * Ones(0, 6)
    {
      assert i in got <==> 0 <= i && i + 8 * lane in r && i + 8 * lane in Shl(Ones(0, 6), 8 * lane);
    }
    forall i | i in Ones(8 * other, 8)
      ensures other != lane ==> (i in r <==> i in reg)
    {
    }
  }
}
