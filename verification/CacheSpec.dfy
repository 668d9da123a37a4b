/** Two data-cache levels over memory, one 32-byte line at a time.

    A slot is everything the system holds about one line: its copy in the L1 cache, its copy
    in the L2 cache and its bytes in memory.  The processor sees the topmost copy; DMA sees
    memory. */
module CacheSpec {
  import opened Bits
  import opened Ring

  const LINE := 32
  const LINES := 0x800_0000
  const WORD := 0x1_0000_0000

  type Data = seq<bv8>

  datatype Copy = Absent | Present(data: Data, dirty: bool)

  datatype Slot = Slot(l1: Copy, l2: Copy, ram: Data)

  /** What lies below the L1 cache. */
  function Below(s: Slot): Data {
    if s.l2.Present? then s.l2.data else s.ram
  }

  /** What the processor reads. */
  function View(s: Slot): Data {
    if s.l1.Present? then s.l1.data else Below(s)
  }

  datatype Op = Clean | Invalidate | CleanInvalidate

  /** Writes an L1 copy back to the L2 cache if the line is there, else to memory. */
  function WriteBack1(s: Slot): Slot {
    if s.l1.Present? && s.l1.dirty then
      var clean := s.l1.(dirty := false);
      if s.l2.Present? then Slot(clean, Present(s.l1.data, true), s.ram)
      else Slot(clean, Absent, s.l1.data)
    else s
  }

  function WriteBack2(s: Slot): Slot {
    if s.l2.Present? && s.l2.dirty then Slot(s.l1, s.l2.(dirty := false), s.l2.data) else s
  }

  /** A maintenance operation of the L1 data cache on one line. */
  function Apply1(op: Op, s: Slot): Slot {
    match op
    case Clean => WriteBack1(s)
    case Invalidate => s.(l1 := Absent)
    case CleanInvalidate => WriteBack1(s).(l1 := Absent)
  }

  /** A maintenance operation of the L2 cache on one line. */
  function Apply2(op: Op, s: Slot): Slot {
    match op
    case Clean => WriteBack2(s)
    case Invalidate => s.(l2 := Absent)
    case CleanInvalidate => WriteBack2(s).(l2 := Absent)
  }

  /** Copies that are not dirty agree with what lies below them. */
  predicate Coherent(s: Slot) {
    && (s.l1.Present? && !s.l1.dirty ==> s.l1.data == Below(s))
    && (s.l2.Present? && !s.l2.dirty ==> s.l2.data == s.ram)
  }

  // ----- One flat memory -----

  /** Everything that happens to a line as long as only the processor writes. */
  datatype Event = Store(data: Data) | Fill1 | Fill2 | Maintain1(op: Op) | Maintain2(op: Op)

  /** Invalidation is the one operation that may forget a store. */
  predicate Keeps(e: Event) {
    (e.Maintain1? || e.Maintain2?) ==> !e.op.Invalidate?
  }

  function Step(s: Slot, e: Event): Slot {
    match e
    case Store(data) => s.(l1 := Present(data, true))
    case Fill1 => if s.l1.Absent? then s.(l1 := Present(Below(s), false)) else s
    case Fill2 => if s.l2.Absent? then s.(l2 := Present(s.ram, false)) else s
    case Maintain1(op) => Apply1(op, s)
    case Maintain2(op) => Apply2(op, s)
  }

  function Run(s: Slot, es: seq<Event>): Slot {
    if es == [] then s else Step(Run(s, es[..|es| - 1]), es[|es| - 1])
  }

  /** The flat memory: the last store, or what was there. */
  function LastStored(was: Data, es: seq<Event>): Data {
    if es == [] then was
    else if es[|es| - 1].Store? then es[|es| - 1].data
    else LastStored(was, es[..|es| - 1])
  }

  /** Whatever fills, evictions, cleans and clean-invalidates happen at either level, in any
      order, the processor reads back its last store. */
  lemma {:induction false} ProcessorSeesFlatMemory(s: Slot, es: seq<Event>)
    requires Coherent(s) && forall i :: 0 <= i < |es| ==> Keeps(es[i])
    ensures Coherent(Run(s, es)) && View(Run(s, es)) == LastStored(View(s), es)
    decreases |es|
  {
    if es != [] {
      ProcessorSeesFlatMemory(s, es[..|es| - 1]);
      StepKeepsView(Run(s, es[..|es| - 1]), es[|es| - 1]);
    }
  }

  lemma StepKeepsView(s: Slot, e: Event)
    requires Coherent(s) && Keeps(e)
    ensures Coherent(Step(s, e)) && View(Step(s, e)) == if e.Store? then e.data else View(s)
  {
  }

  /** Clean-invalidating a level keeps what the processor sees exactly when that level's
      copy is dirty, absent, or not stale. */
  lemma EvictKeepsViewExactlyWhenNotStale(s: Slot)
    ensures View(Apply1(CleanInvalidate, s)) == View(s) <==>
              (s.l1.Present? && !s.l1.dirty ==> s.l1.data == Below(s))
  {
  }

  /** L1 first, then L2: afterwards memory holds what the processor sees. */
  lemma CleanReachesMemory(s: Slot, op: Op)
    requires Coherent(s) && !op.Invalidate?
    ensures var t := Apply2(op, Apply1(op, s)); View(t) == View(s) == t.ram && Coherent(t)
  {
  }

  /** In the other order the data arrives exactly unless a dirty L1 line covers a different
      L2 copy. */
  lemma CleanInOtherOrder(s: Slot)
    requires Coherent(s)
    ensures Apply1(Clean, Apply2(Clean, s)).ram == View(s) <==>
              !(s.l1.Present? && s.l1.dirty && s.l2.Present? && s.l1.data != s.l2.data)
  {
  }

  /** Invalidating both levels uncovers memory. */
  lemma InvalidateUncoversMemory(s: Slot)
    ensures var t := Apply1(Invalidate, Apply2(Invalidate, s)); View(t) == s.ram == t.ram
  {
  }

  // ----- What a call does to one line -----

  /** No level holds a copy. */
  predicate Uncovered(s: Slot) { s.l1.Absent? && s.l2.Absent? }

  /** The processor sees whatever a device writes to memory exactly when no level holds a copy. */
  lemma DeviceWritesSeenExactlyWhen(s: Slot)
    ensures (forall data :: View(s.(ram := data)) == data) <==> Uncovered(s)
  {
    if !Uncovered(s) {
      var other := if s.l1.Present? then s.l1.data + [0] else s.l2.data + [0];
      assert View(s.(ram := other)) != other;
    }
  }

  /** The same copies as before, none of them waiting to be written back. */
  predicate KeptClean(was: Slot, s: Slot) {
    && (s.l1.Present? <==> was.l1.Present?) && (s.l2.Present? <==> was.l2.Present?)
    && (s.l1.Present? ==> !s.l1.dirty) && (s.l2.Present? ==> !s.l2.dirty)
  }

  /** A line under a clean or clean-invalidate, which treats the L1 cache first. */
  function WrittenBack(op: Op, at1: bool, at2: bool, s: Slot): Slot {
    var t := if at1 then Apply1(op, s) else s;
    if at2 then Apply2(op, t) else t
  }

  /** At every level a line is in, a clean brings memory up to date and keeps the copies ready to
      be dropped; a clean-invalidate drops them.  Either leaves what the processor sees. */
  lemma WriteBackOfLine(op: Op, at1: bool, at2: bool, s: Slot)
    requires Coherent(s) && !op.Invalidate?
    ensures var t := WrittenBack(op, at1, at2, s);
            && Coherent(t) && View(t) == View(s)
            && (s.l2.Absent? ==> t.l2.Absent?)
            && (at1 && (at2 || s.l2.Absent?) ==>
                  t.ram == View(s) && if op.Clean? then KeptClean(s, t) else Uncovered(t))
  {
    var t := if at1 then Apply1(op, s) else s;
    assert Coherent(t) && View(t) == View(s) by { StepKeepsView(s, Maintain1(op)); }
    StepKeepsView(t, Maintain2(op));
  }

  // ----- Which lines a range touches -----

  /** The start of the line of `address`. */
  function AlignDown(address: int): int
    requires 0 <= address < WORD
  {
    address / LINE * LINE
  }

  /** It is what the driver's `address & ~31` computes. */
  lemma AlignDownIsMask(address: int)
    requires 0 <= address < WORD
    ensures Pow2(32) == WORD && ClearLow(address, 5) == AlignDown(address)
  {
    Pow2Values();
    ClearLowRoundsDown(address, 5);
  }

  /** Line `l` holds a byte of the range, which may run past the end of the address space. */
  predicate Meets(address: int, size: int, l: int)
    requires 0 <= address < WORD && 0 <= size < WORD
  {
    exists b :: address <= b < address + size && Wrap(b, WORD) / LINE == l
  }

  // ----- The L1 loops: a signed size counts down -----

  /** The 32-bit size from the start of the first line. */
  function Adjusted(address: int, size: int): int {
    (size + address % LINE) % WORD
  }

  /** A size of 2^31 or more is negative to the loops, which then do nothing. */
  predicate L1Touches(address: int, size: int, l: int)
    requires 0 <= address < WORD && 0 <= l < LINES
  {
    && Adjusted(address, size) < WORD / 2
    && LINE * Dist(address / LINE, l, LINES) < Adjusted(address, size)
  }

  /** The line that an L1 loop visits after `i` others. */
  lemma LineVisited(first: int, i: int, l: int)
    requires 0 <= first < LINES && 0 <= l < LINES && 0 <= i < LINES
    ensures l == Wrap(first + i, LINES) <==> Dist(first, l, LINES) == i
  {
  }

  /** Where the next line starts, in 32-bit arithmetic. */
  lemma NextLine(first: int, i: int)
    requires 0 <= first < LINES && 0 <= i < LINES
    ensures (LINE * Wrap(first + i, LINES) + LINE) % WORD == LINE * Wrap(first + i + 1, LINES)
  {
  }

  lemma L1TouchesMet(address: int, size: int, b: int)
    requires 0 <= address < WORD && 0 < size && size + address % LINE < WORD / 2
    requires address <= b < address + size
    ensures L1Touches(address, size, Wrap(b, WORD) / LINE)
  {
    var first, i := address / LINE, b / LINE - address / LINE;
    assert b / LINE == first + i && LINE * i < Adjusted(address, size);
    assert Wrap(b, WORD) / LINE == Wrap(first + i, LINES);
    LineVisited(first, i, Wrap(b, WORD) / LINE);
  }

  lemma MeetsTouched(address: int, size: int, l: int)
    requires 0 <= address < WORD && 0 < size && size + address % LINE < WORD / 2
    requires 0 <= l < LINES && L1Touches(address, size, l)
    ensures Meets(address, size, l)
  {
    var d := Dist(address / LINE, l, LINES);
    var b := if d == 0 then address else AlignDown(address) + LINE * d;
    assert Wrap(b, WORD) / LINE == l;
  }

  /** For an adjusted size below 2^31 the L1 loops visit exactly the lines of the range, also
      when it runs past the end of the address space. */
  lemma L1TouchesRange(address: int, size: int, l: int)
    requires 0 <= address < WORD && 0 < size && size + address % LINE < WORD / 2
    requires 0 <= l < LINES
    ensures L1Touches(address, size, l) <==> Meets(address, size, l)
  {
    if Meets(address, size, l) {
      var b :| address <= b < address + size && Wrap(b, WORD) / LINE == l;
      L1TouchesMet(address, size, b);
    }
    if L1Touches(address, size, l) {
      MeetsTouched(address, size, l);
    }
  }

  /** They reach every line of a range exactly when the adjusted size is below 2^31. */
  lemma L1CoversExactlyWhen(address: int, size: int)
    requires 0 <= address < WORD && 0 < size < WORD
    ensures (forall l :: 0 <= l < LINES && Meets(address, size, l) ==> L1Touches(address, size, l))
              <==> size + address % LINE < WORD / 2
  {
    if size + address % LINE < WORD / 2 {
      forall l | 0 <= l < LINES && Meets(address, size, l)
        ensures L1Touches(address, size, l)
      {
        L1TouchesRange(address, size, l);
      }
    } else {
      L1Misses(address, size);
    }
  }

  /** Too large a size misses the first line, or, where the size wraps around, the second. */
  lemma L1Misses(address: int, size: int)
    requires 0 <= address < WORD && 0 < size < WORD && size + address % LINE >= WORD / 2
    ensures exists l :: 0 <= l < LINES && Meets(address, size, l) && !L1Touches(address, size, l)
  {
    var first := address / LINE;
    if size + address % LINE < WORD {
      assert Wrap(address, WORD) / LINE == first;
      assert Meets(address, size, first) && !L1Touches(address, size, first);
    } else {
      var b, l := AlignDown(address) + LINE, Wrap(first + 1, LINES);
      assert Wrap(b, WORD) / LINE == l;
      LineVisited(first, 1, l);
      assert Meets(address, size, l) && !L1Touches(address, size, l);
    }
  }

  // ----- The L2 loops: an address counts up to an end address -----

  /** Line `l` starts no earlier than the line of `address` and before `end`. */
  predicate InLines(address: int, end: int, l: int) {
    address / LINE <= l && LINE * l < end
  }

  /** For a range that ends within the address space these are the lines that meet it. */
  lemma LinesMeetRange(address: int, size: int, l: int)
    requires 0 <= address < WORD && 0 < size < WORD && address + size <= WORD
    ensures InLines(address, address + size, l) <==> Meets(address, size, l)
  {
    if InLines(address, address + size, l) {
      var b := if LINE * l < address then address else LINE * l;
      assert Wrap(b, WORD) / LINE == l;
    }
  }

  /** The by-range loops of the L2 cache go on exactly while this holds. */
  predicate L2Guard(op: Op, address: int, end: int)
    requires 0 <= address < WORD
  {
    if op.Invalidate? then address < end else AlignDown(address) < end
  }

  /** The address the loop continues with. */
  function L2Next(address: int): (next: int)
    requires 0 <= address < WORD
    ensures 0 <= next < WORD
  {
    (AlignDown(address) + LINE) % WORD
  }

  /** The loop's address after `k` rounds. */
  function L2Iterate(address: int, k: nat): (a: int)
    requires 0 <= address < WORD
    ensures 0 <= a < WORD
  {
    if k == 0 then address else L2Next(L2Iterate(address, k - 1))
  }

  /** After `k` rounds the loop still goes on. */
  predicate L2GoesOn(op: Op, address: int, end: int, k: nat)
    requires 0 <= address < WORD
  {
    L2Guard(op, L2Iterate(address, k), end)
  }

  /** What a caller can check first. */
  predicate L2Ends(op: Op, address: int, end: int)
    requires 0 <= address < WORD
  {
    end <= WORD - LINE || !L2Guard(op, address, end)
  }

  /** For every operation, address and end the loop ends exactly when the end address is not
      inside the last line of the address space or the loop is not entered. */
  lemma L2LoopEndsExactlyWhen(op: Op, address: int, end: int)
    requires 0 <= address < WORD && 0 <= end < WORD
    ensures (exists k: nat :: !L2GoesOn(op, address, end, k)) <==>
              L2Ends(op, address, end)
  {
    if L2Ends(op, address, end) {
      var k := L2EndsAfter(op, address, end);
      assert !L2GoesOn(op, address, end, k);
    } else {
      forall k: nat
        ensures L2GoesOn(op, address, end, k)
      {
        LastLineNeverEnds(op, address, end, k);
      }
    }
  }

  /** The round in which it ends. */
  lemma L2EndsAfter(op: Op, address: int, end: int) returns (k: nat)
    requires 0 <= address < WORD && 0 <= end < WORD && L2Ends(op, address, end)
    ensures !L2GoesOn(op, address, end, k)
  {
    if !L2Guard(op, address, end) {
      k := 0;
      assert L2Iterate(address, 0) == address;
    } else {
      k := (end - AlignDown(address) + LINE - 1) / LINE;
      L2IterateIs(address, end, k);
      PastEnd(op, AlignDown(address), end, k);
    }
  }

  lemma PastEnd(op: Op, start: int, end: int, k: int)
    requires 0 <= start < end <= WORD - LINE && start % LINE == 0
    requires k == (end - start + LINE - 1) / LINE
    ensures 0 <= start + LINE * k < WORD && !L2Guard(op, start + LINE * k, end)
  {
  }

  lemma {:induction false} L2IterateIs(address: int, end: int, k: int)
    requires 0 <= address < WORD && AlignDown(address) < end <= WORD - LINE
    requires 0 < k <= (end - AlignDown(address) + LINE - 1) / LINE
    ensures L2Iterate(address, k) == AlignDown(address) + LINE * k
    decreases k
  {
    if k == 1 {
      assert L2Iterate(address, 0) == address;
    } else {
      L2IterateIs(address, end, k - 1);
    }
  }

  /** An end address inside the last line is never reached: however far it has come, the
      loop's guard holds. */
  lemma {:induction false} LastLineNeverEnds(op: Op, address: int, end: int, k: nat)
    requires 0 <= address < WORD && WORD - LINE < end < WORD && L2Guard(op, address, end)
    ensures L2GoesOn(op, address, end, k)
    decreases k
  {
    if k != 0 {
      LastLineNeverEnds(op, address, end, k - 1);
    }
  }

  /** An input: cleaning nothing at all, five bytes before the end of the address space,
      never ends, and invalidating nothing there does. */
  lemma CleaningNothingNeverEnds(k: nat)
    ensures !L2CallEnds(Clean, WORD - 5, 0, 128 * 1024)
    ensures L2GoesOn(Clean, WORD - 5, WORD - 5, k)
    ensures L2CallEnds(Invalidate, WORD - 5, 0, 128 * 1024)
  {
    LastLineNeverEnds(Clean, WORD - 5, WORD - 5, k);
  }

  /** Clean and clean-invalidate treat the whole cache when the range is larger than it. */
  predicate L2Whole(op: Op, size: int, cacheBytes: int) {
    !op.Invalidate? && size > cacheBytes
  }

  /** When a by-range call ends. */
  predicate L2CallEnds(op: Op, address: int, size: int, cacheBytes: int)
    requires 0 <= address < WORD
  {
    L2Whole(op, size, cacheBytes) || L2Ends(op, address, (address + size) % WORD)
  }

  /** The lines an L2 call by range treats. */
  predicate L2Touches(op: Op, address: int, size: int, cacheBytes: int, l: int)
    requires 0 <= address < WORD
  {
    var end := (address + size) % WORD;
    L2Whole(op, size, cacheBytes) || (L2Guard(op, address, end) && InLines(address, end, l))
  }

  /** A call that ends reaches every line of its range exactly when it treats the whole cache
      or the range ends before the end of the address space. */
  lemma L2CoversExactlyWhen(op: Op, address: int, size: int, cacheBytes: int)
    requires 0 <= address < WORD && 0 < size < WORD
    ensures (forall l :: 0 <= l < LINES && Meets(address, size, l) ==>
               L2Touches(op, address, size, cacheBytes, l))
              <==> L2Whole(op, size, cacheBytes) || address + size < WORD
  {
    if !L2Whole(op, size, cacheBytes) {
      if address + size < WORD {
        forall l | 0 <= l < LINES && Meets(address, size, l)
          ensures L2Touches(op, address, size, cacheBytes, l)
        {
          LinesMeetRange(address, size, l);
        }
      } else {
        L2Misses(op, address, size, cacheBytes);
      }
    }
  }

  /** A range that reaches the end of the address space: its last line there is missed, or,
      where it comes round to the first line again, the one after it. */
  lemma L2Misses(op: Op, address: int, size: int, cacheBytes: int)
    requires 0 <= address < WORD && 0 < size < WORD && address + size >= WORD
    requires !L2Whole(op, size, cacheBytes)
    ensures exists l :: 0 <= l < LINES && Meets(address, size, l)
                        && !L2Touches(op, address, size, cacheBytes, l)
  {
    var first := address / LINE;
    if first < LINES - 1 {
      assert Wrap(WORD - 1, WORD) / LINE == LINES - 1;
      assert Meets(address, size, LINES - 1);
      assert !L2Touches(op, address, size, cacheBytes, LINES - 1);
    } else if address + size <= WORD + LINE * (LINES - 1) {
      assert Wrap(address, WORD) / LINE == first;
      assert Meets(address, size, first) && !L2Touches(op, address, size, cacheBytes, first);
    } else {
      assert Wrap(WORD, WORD) / LINE == 0;
      assert Meets(address, size, 0) && !L2Touches(op, address, size, cacheBytes, 0);
    }
  }

  /** Cleaning by range at both levels (or at L1 only, on a part without L2) reaches every
      line of a range exactly under this condition on its bounds. */
  lemma CallCoversExactlyWhen(op: Op, address: int, size: int, cacheBytes: int, l2: bool)
    requires 0 <= address < WORD && 0 < size < WORD
    ensures (forall l :: 0 <= l < LINES && Meets(address, size, l) ==>
               L1Touches(address, size, l) && (l2 ==> L2Touches(op, address, size, cacheBytes, l)))
              <==> && size + address % LINE < WORD / 2
                   && (l2 ==> L2Whole(op, size, cacheBytes) || address + size < WORD)
  {
    L1CoversExactlyWhen(address, size);
    L2CoversExactlyWhen(op, address, size, cacheBytes);
  }

  /** A call that ends treats every line there is exactly when it is a clean or clean-invalidate
      of more bytes than the cache has. */
  lemma AllTreatedExactlyWhenLarger(op: Op, address: int, size: int, cacheBytes: int)
    requires 0 <= address < WORD && 0 <= size < WORD && L2CallEnds(op, address, size, cacheBytes)
    ensures (forall l :: 0 <= l < LINES ==> L2Touches(op, address, size, cacheBytes, l)) <==>
              !op.Invalidate? && size > cacheBytes
  {
    if !L2Whole(op, size, cacheBytes) {
      assert !L2Touches(op, address, size, cacheBytes, LINES - 1);
    }
  }

  /** An empty range: where its address is not the start of a line, the L1 calls and the L2
      cleans still treat that line; an L2 invalidate does not. */
  lemma EmptyRangeTouches(op: Op, address: int, cacheBytes: int, l: int)
    requires 0 <= address < WORD && 0 <= l < LINES && 0 <= cacheBytes
    ensures L1Touches(address, 0, l) <==> address % LINE != 0 && l == address / LINE
    ensures L2Touches(op, address, 0, cacheBytes, l) <==>
              !op.Invalidate? && address % LINE != 0 && l == address / LINE
  {
  }
}
