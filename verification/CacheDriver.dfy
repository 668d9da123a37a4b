/** The cache driver's by-range loops, in 32-bit arithmetic, over all the lines of memory. */
module CacheDriver {
  import opened Bits
  import opened CacheSpec
  import opened Ring

  /** Where a loop that counts a signed size down stands after `i` lines. */
  ghost predicate CountsDown(first: int, i: int, addr: int, size: int, dsize: int) {
    && 0 <= first < LINES && 0 <= i <= LINES / 2
    && addr == LINE * Wrap(first + i, LINES)
    && size == dsize - LINE * i && dsize < WORD / 2
    && (i > 0 ==> size > -LINE)
  }

  /** The line visited next is the only one at distance `i`. */
  lemma LinesVisited(first: int, i: int)
    requires 0 <= first < LINES && 0 <= i < LINES
    ensures forall l :: 0 <= l < LINES ==>
              (l == Wrap(first + i, LINES) <==> Dist(first, l, LINES) == i)
  {
    forall l | 0 <= l < LINES
      ensures l == Wrap(first + i, LINES) <==> Dist(first, l, LINES) == i
    {
      LineVisited(first, i, l);
    }
  }

  class Caches {
    const slots: array<Slot>
    const l2Present: bool
    const associativity: int  // field of the auxiliary control register: 8 or 16 ways
    const waySize: int        // field of the auxiliary control register
    var icache: set<int>      // lines valid in the L1 instruction cache

    ghost predicate Valid()
      reads this
    {
      slots.Length == LINES && 0 <= associativity < 2 && 0 <= waySize < 8
    }

    /** Empty caches over a given memory. */
    constructor (ram: int -> Data, l2Present: bool, associativity: int, waySize: int)
      requires 0 <= associativity < 2 && 0 <= waySize < 8
      ensures Valid() && Sound() && fresh(slots)
      ensures forall l :: 0 <= l < LINES ==> View(slots[l]) == ram(l)
    {
      slots := new Slot[LINES](l => Slot(Absent, Absent, ram(l)));
      this.l2Present := l2Present;
      this.associativity := associativity;
      this.waySize := waySize;
      icache := {};
    }

    /** The three L1 data-cache calls by range. */
    method L1ByRange(op: Op, address: int, sizeByte: int)
      requires Valid() && 0 <= address < WORD && 0 <= sizeByte < WORD
      modifies slots
      ensures forall l :: 0 <= l < LINES ==>
                slots[l] == if L1Touches(address, sizeByte, l) then Apply1(op, old(slots[l]))
                            else old(slots[l])
    {
      var startAddr := AlignDown(address);
      var size := (sizeByte + address - startAddr) % WORD;
      var opSize := if size < WORD / 2 then size else size - WORD;  // converted to a signed word
      L1Loop(op, startAddr, opSize);
    }

    /** The loop below them, which counts a signed size down. */
    method L1Loop(op: Op, startAddr: int, dsize: int)
      requires Valid() && 0 <= startAddr < WORD && startAddr % LINE == 0
      requires -WORD / 2 <= dsize < WORD / 2
      modifies slots
      ensures forall l :: 0 <= l < LINES ==>
                slots[l] == if LINE * Dist(startAddr / LINE, l, LINES) < dsize
                            then Apply1(op, old(slots[l])) else old(slots[l])
    {
      var opAddr, opSize := startAddr, dsize;
      ghost var first, i := startAddr / LINE, 0;
      while opSize > 0
        invariant CountsDown(first, i, opAddr, opSize, dsize)
        invariant forall l :: 0 <= l < LINES ==>
                    slots[l] == if Dist(first, l, LINES) < i then Apply1(op, old(slots[l]))
                                else old(slots[l])
        decreases opSize
      {
        NextLine(first, i);
        LinesVisited(first, i);
        slots[opAddr / LINE] := Apply1(op, slots[opAddr / LINE]);
        opAddr := (opAddr + LINE) % WORD;
        opSize := opSize - LINE;
        i := i + 1;
      }
    }

    method InvalidateICacheByRange(address: int, sizeByte: int)
      requires Valid() && 0 <= address < WORD && 0 <= sizeByte < WORD
      modifies this`icache
      ensures forall l :: l in icache <==>
                l in old(icache) && !(0 <= l < LINES && L1Touches(address, sizeByte, l))
    {
      var addr := AlignDown(address);
      var raw := (sizeByte + address - addr) % WORD;
      assert raw == Adjusted(address, sizeByte);
      var size := if raw < WORD / 2 then raw else raw - WORD;
      ghost var first, i, dsize := address / LINE, 0, size;
      while size > 0
        invariant CountsDown(first, i, addr, size, dsize)
        invariant forall l :: l in icache <==>
                    l in old(icache) && !(0 <= l < LINES && Dist(first, l, LINES) < i)
        decreases size
      {
        NextLine(first, i);
        LinesVisited(first, i);
        icache := icache - {addr / LINE};
        addr := (addr + LINE) % WORD;
        size := size - LINE;
        i := i + 1;
      }
    }

    /** Bytes of the whole L2 cache. */
    function CacheBytes(): int
      requires 0 <= waySize
    {
      (if associativity == 0 then 8 else 16) * Pow2(if waySize == 0 then 0 else waySize - 1)
      * 16 * 1024
    }

    /** Number of ways and bytes per way. */
    method GetWayNumSize() returns (numWays: int, sizeWay: int)
      requires Valid()
      ensures numWays == if associativity == 0 then 8 else 16
      ensures sizeWay == Pow2(if waySize == 0 then 0 else waySize - 1) * 16 * 1024
      ensures numWays * sizeWay == CacheBytes()
      ensures 16 * 1024 <= sizeWay <= 1024 * 1024 && numWays * sizeWay < WORD
    {
      numWays := (associativity + 1) * 8;
      var size := if waySize == 0 then 1 else waySize;
      var unit := 1;
      for k := 1 to size
        invariant 1 <= unit <= 64 && unit == Pow2(k - 1)
      {
        assert k - 1 < 6 ==> Pow2(k - 1) <= 32 by { Pow2Monotone(k - 1, 5); Pow2Values(); }
        unit := unit * 2;
      }
      sizeWay := unit * 16 * 1024;
    }

    /** An operation on all ways: the hardware runs over the whole L2 cache. */
    method L2All(op: Op)
      requires Valid()
      modifies slots
      ensures forall l :: 0 <= l < LINES ==> slots[l] == Apply2(op, old(slots[l]))
    {
      for l := 0 to LINES
        invariant forall k :: 0 <= k < LINES ==>
                    slots[k] == if k < l then Apply2(op, old(slots[k])) else old(slots[k])
      {
        slots[l] := Apply2(op, slots[l]);
      }
    }

    /** The three L2 calls by range. */
    method L2ByRange(op: Op, address: int, sizeByte: int)
      requires Valid() && 0 <= address < WORD && 0 <= sizeByte < WORD
      requires L2CallEnds(op, address, sizeByte, CacheBytes())
      modifies slots
      ensures forall l :: 0 <= l < LINES ==>
                slots[l] == if L2Touches(op, address, sizeByte, CacheBytes(), l)
                            then Apply2(op, old(slots[l])) else old(slots[l])
    {
      var endAddr := (address + sizeByte) % WORD;
      if !op.Invalidate? {
        var numWays, sizeWay := GetWayNumSize();
        assert (endAddr - address) % WORD == sizeByte;
        if (endAddr - address) % WORD > numWays * sizeWay {
          L2All(op);
          return;
        }
      }
      L2Loop(op, address, endAddr);
    }

    method L2Loop(op: Op, address: int, endAddr: int)
      requires Valid() && 0 <= address < WORD && 0 <= endAddr < WORD
      requires L2Ends(op, address, endAddr)
      modifies slots
      ensures forall l :: 0 <= l < LINES ==>
                slots[l] == if L2Guard(op, address, endAddr) && InLines(address, endAddr, l)
                            then Apply2(op, old(slots[l])) else old(slots[l])
    {
      var addr := address;
      ghost var first, i := address / LINE, 0;
      while L2Guard(op, addr, endAddr)
        invariant 0 <= addr < WORD && 0 <= i
        invariant i == 0 ==> addr == address
        invariant i > 0 ==> addr == LINE * (first + i) < endAddr + LINE
        invariant i > 0 ==> L2Guard(op, address, endAddr)
        invariant forall l :: 0 <= l < LINES ==>
                    slots[l] == if first <= l < first + i then Apply2(op, old(slots[l]))
                                else old(slots[l])
        decreases endAddr - AlignDown(addr)
      {
        var aligned := AlignDown(addr);
        slots[aligned / LINE] := Apply2(op, slots[aligned / LINE]);
        addr := L2Next(addr);
        i := i + 1;
      }
    }

    /** No line has an L2 copy on a part without that cache. */
    ghost predicate Sound()
      reads this, slots
      requires Valid()
    {
      forall l :: 0 <= l < LINES ==> Coherent(slots[l]) && (!l2Present ==> slots[l].l2.Absent?)
    }

    /** The lines that a call by range treats at every level the part has. */
    ghost predicate Reaches(op: Op, address: int, sizeByte: int, l: int)
      requires Valid() && 0 <= address < WORD && 0 <= l < LINES
      reads this
    {
      && L1Touches(address, sizeByte, l)
      && (l2Present ==> L2Touches(op, address, sizeByte, CacheBytes(), l))
    }

    /** The lines that a call by range treats in the L2 cache, if the part has one. */
    ghost predicate L2Treats(op: Op, address: int, sizeByte: int, l: int)
      requires Valid() && 0 <= address < WORD
      reads this
    {
      l2Present && L2Touches(op, address, sizeByte, CacheBytes(), l)
    }

    /** DCACHE_CleanByRange and DCACHE_CleanInvalidateByRange, whenever the call ends.  On the
        lines it reaches memory is up to date; a clean keeps the copies there, and a
        clean-invalidate leaves none, so that what a device writes is seen. */
    method WriteBackByRange(op: Op, address: int, sizeByte: int)
      requires Valid() && Sound() && !op.Invalidate?
      requires 0 <= address < WORD && 0 <= sizeByte < WORD
      requires l2Present ==> L2CallEnds(op, address, sizeByte, CacheBytes())
      modifies slots
      ensures Sound()
      ensures forall l :: 0 <= l < LINES ==>
                slots[l] == WrittenBack(op, L1Touches(address, sizeByte, l),
                                        L2Treats(op, address, sizeByte, l), old(slots[l]))
      ensures forall l :: 0 <= l < LINES ==> View(slots[l]) == old(View(slots[l]))
      ensures forall l :: 0 <= l < LINES && Reaches(op, address, sizeByte, l) ==>
                && slots[l].ram == View(slots[l])
                && if op.Clean? then KeptClean(old(slots[l]), slots[l]) else Uncovered(slots[l])
      ensures forall l :: 0 <= l < LINES ==>
                L1Touches(address, sizeByte, l) || L2Treats(op, address, sizeByte, l)
                || slots[l] == old(slots[l])
    {
      L1ByRange(op, address, sizeByte);
      if l2Present {
        L2ByRange(op, address, sizeByte);
      }
      forall l | 0 <= l < LINES
        ensures var t := WrittenBack(op, L1Touches(address, sizeByte, l),
                                     L2Treats(op, address, sizeByte, l), old(slots[l]));
                && slots[l] == t && Coherent(t) && View(t) == old(View(slots[l]))
                && (!l2Present ==> t.l2.Absent?)
                && (Reaches(op, address, sizeByte, l) ==>
                      && t.ram == View(t)
                      && if op.Clean? then KeptClean(old(slots[l]), t) else Uncovered(t))
      {
        WriteBackOfLine(op, L1Touches(address, sizeByte, l), L2Treats(op, address, sizeByte, l),
                        old(slots[l]));
      }
    }

    /** DCACHE_InvalidateByRange, whenever the call ends: memory is uncovered on the lines it
        reaches, and a line that no level treats is left exactly as it was. */
    method InvalidateByRange(address: int, sizeByte: int)
      requires Valid() && forall l :: 0 <= l < LINES && !l2Present ==> slots[l].l2.Absent?
      requires 0 <= address < WORD && 0 <= sizeByte < WORD
      requires l2Present ==> L2CallEnds(Invalidate, address, sizeByte, CacheBytes())
      modifies slots
      ensures forall l :: 0 <= l < LINES && Reaches(Invalidate, address, sizeByte, l) ==>
                Uncovered(slots[l]) && View(slots[l]) == slots[l].ram == old(slots[l].ram)
      ensures forall l :: 0 <= l < LINES ==>
                L1Touches(address, sizeByte, l) || L2Treats(Invalidate, address, sizeByte, l)
                || slots[l] == old(slots[l])
    {
      if l2Present {
        L2ByRange(Invalidate, address, sizeByte);
      }
      L1ByRange(Invalidate, address, sizeByte);
    }
  }
}
