/** The audio and video PLLs: the same set-up and the same read-back, with the post divider
    split over two registers. */
module AvPll {
  import opened Bits

  const WORD := 0x1_0000_0000
  const MHZ24 := 24_000_000

  /** Control bits, fraction, and the two parts of the post divider: POST_DIV_SELECT of the
      PLL's own register and the divider field of the shared MISC2 register. */
  datatype Pll = Pll(
    enable: bool, bypass: bool, powerDown: bool, src: int, div: int, lock: bool,
    num: int, denom: int, postSelect: bv2, misc2: bv2)

  datatype Config = Config(loop: int, post: int, num: int, denom: int, src: int)

  /** The two divider parts for a post divider; anything else is taken as one. */
  function SelectFor(post: int): bv2 {
    if post == 16 then 0 else if post == 8 || post == 2 then 1 else 2
  }

  function Misc2For(post: int): bv2 {
    if post == 16 || post == 8 || post == 4 then 3 else 0
  }

  /** De-initialisation writes the power-down bit alone; fraction and MISC2 stay. */
  function Deinit(p: Pll): Pll {
    p.(enable := false, bypass := false, powerDown := true, src := 0, div := 0, lock := false,
       postSelect := 0)
  }

  /** Initialisation, once the PLL has locked.  The select bits are ORed into what is there;
      the MISC2 bits are replaced. */
  function Init(p: Pll, c: Config): Pll {
    p.(enable := true, bypass := false, powerDown := false, src := c.src, div := c.loop, lock := true,
       num := c.num, denom := c.denom,
       postSelect := p.postSelect | SelectFor(c.post), misc2 := Misc2For(c.post))
  }

  function SelectDivider(s: bv2): int { if s == 0 then 4 else if s == 1 then 2 else 1 }

  function Misc2Divider(m: bv2): int { if m == 3 then 4 else if m == 1 then 2 else 1 }

  /** The frequency read back: reference times loop divider plus fraction, then the two parts
      of the post divider one after the other. */
  function Freq(p: Pll, osc: int): int
    requires 0 <= osc < WORD && 0 <= p.num && 0 < p.denom && 0 <= p.div
  {
    if !p.enable then 0
    else
      var ref := if p.src == 0 then osc else 0;
      if p.bypass then ref
      else
        var fraction := ref * p.num / p.denom;
        (ref * p.div + fraction % WORD) % WORD / SelectDivider(p.postSelect) / Misc2Divider(p.misc2)
  }

  /** What the configuration asks for. */
  function Wanted(c: Config): int
    requires 0 <= c.loop && 0 <= c.num && 0 < c.denom && 0 < c.post
  {
    (MHZ24 * c.loop + MHZ24 * c.num / c.denom) / c.post
  }

  /** The documented ranges: loop divider 27 to 54, proper fraction, post divider a power of
      two up to sixteen, and the oscillator as the reference. */
  predicate Documented(c: Config) {
    && 27 <= c.loop <= 54 && 0 <= c.num < c.denom < 0x4000_0000 && c.src == 0
    && (c.post == 1 || c.post == 2 || c.post == 4 || c.post == 8 || c.post == 16)
  }

  /** The two parts multiply to the post divider. */
  lemma PartsMultiply(post: int)
    requires post == 1 || post == 2 || post == 4 || post == 8 || post == 16
    ensures SelectDivider(SelectFor(post)) * Misc2Divider(Misc2For(post)) == post
  {
  }

  lemma FractionBound(num: int, den: int)
    requires 0 <= num < den
    ensures 0 <= MHZ24 * num / den < MHZ24
  {
    var q := MHZ24 * num / den;
    assert q * den <= MHZ24 * num by { assert MHZ24 * num == den * q + MHZ24 * num % den; }
    MulLess(q, MHZ24, den);
  }

  /** The frequency of an initialised PLL before its post divider, with no wrap-around. */
  function BeforePost(c: Config): int
    requires 0 <= c.loop && 0 <= c.num && 0 < c.denom
  {
    MHZ24 * c.loop + MHZ24 * c.num / c.denom
  }

  lemma BeforePostBound(c: Config)
    requires Documented(c)
    ensures 600_000_000 < BeforePost(c) < WORD && 0 <= MHZ24 * c.num / c.denom < WORD
  {
    FractionBound(c.num, c.denom);
  }

  lemma FreqIs(p: Pll, c: Config)
    requires Documented(c)
    ensures Freq(Init(p, c), MHZ24) ==
              BeforePost(c) / SelectDivider(p.postSelect | SelectFor(c.post))
                / Misc2Divider(Misc2For(c.post))
    ensures 600_000_000 < BeforePost(c) < WORD
  {
    BeforePostBound(c);
    var fraction := MHZ24 * c.num / c.denom;
    assert fraction % WORD == fraction && (MHZ24 * c.loop + fraction) % WORD == BeforePost(c);
  }

  /** A deinit powers the PLL down and stops its clock; an init leaves it powered, locked and
      driving its output. */
  lemma PowerAndClock(p: Pll, c: Config, osc: int)
    requires 0 <= osc < WORD && 0 <= p.num && 0 < p.denom && Documented(c)
    ensures var off := Deinit(p); off.powerDown && Freq(off, osc) == 0
    ensures var on := Init(p, c); !on.powerDown && on.lock && Freq(on, MHZ24) >= 37_500_000
  {
    FreqIs(p, c);
    SixteenthAtLeast(BeforePost(c), SelectDivider(p.postSelect | SelectFor(c.post)),
                     Misc2Divider(Misc2For(c.post)));
  }

  lemma SixteenthAtLeast(x: int, a: int, b: int)
    requires x > 600_000_000 && (a == 1 || a == 2 || a == 4) && (b == 1 || b == 2 || b == 4)
    ensures x / a / b >= 37_500_000
  {
  }

  /** What is read back from a PLL that does not run freely: nothing while disabled, and while
      bypassed its reference, undivided. */
  lemma NotRunning(p: Pll, osc: int)
    requires 0 <= osc < WORD && 0 <= p.num && 0 < p.denom && 0 <= p.div
    ensures !p.enable ==> Freq(p, osc) == 0
    ensures p.enable && p.bypass ==> Freq(p, osc) == if p.src == 0 then osc else 0
  {
  }

  /** After a deinit, an init with any documented configuration is read back as the exact
      floor of what it asks for: the two floors of the split divider are one. */
  lemma InitReadsBack(p: Pll, c: Config)
    requires Documented(c)
    ensures Freq(Init(Deinit(p), c), MHZ24) == Wanted(c)
  {
    FreqIs(Deinit(p), c);
    OrZero(SelectFor(c.post));
    PartsMultiply(c.post);
    DivDiv(BeforePost(c), SelectDivider(SelectFor(c.post)), Misc2Divider(Misc2For(c.post)));
  }

  lemma OrZero(s: bv2)
    ensures 0 | s == s
  {
  }

  lemma SelectMerge(was: bv2, s: bv2)
    requires s != 3
    ensures SelectDivider(was | s) == SelectDivider(s) <==> s == 2 || was | s == s
  {
  }

  lemma DifferentDividers(x: int, a: int, b: int)
    requires x > 600_000_000 && (a == 1 || a == 2 || a == 4) && (b == 1 || b == 2 || b == 4)
    ensures x / a != x / b <==> a != b
    ensures a < b ==> x / b + 1000 < x / a
  {
  }

  lemma DifferentAfterMore(x: int, y: int, m: int)
    requires 0 <= x && x + 1000 < y && (m == 1 || m == 2 || m == 4)
    ensures x / m != y / m
  {
  }

  /** Without the deinit the configuration is read back exactly when the stale select bits do
      not change the meaning of the new ones. */
  lemma InitWithoutDeinit(p: Pll, c: Config)
    requires Documented(c)
    ensures Freq(Init(p, c), MHZ24) == Wanted(c) <==>
              SelectFor(c.post) == 2 || p.postSelect | SelectFor(c.post) == SelectFor(c.post)
  {
    InitReadsBack(p, c);
    FreqIs(p, c);
    FreqIs(Deinit(p), c);
    OrZero(SelectFor(c.post));
    SelectMerge(p.postSelect, SelectFor(c.post));
    var x := BeforePost(c);
    var a := SelectDivider(p.postSelect | SelectFor(c.post));
    var b := SelectDivider(SelectFor(c.post));
    DifferentDividers(x, a, b);
    var m := Misc2Divider(Misc2For(c.post));
    if a < b {
      DifferentAfterMore(x / b, x / a, m);
    }
  }
}
