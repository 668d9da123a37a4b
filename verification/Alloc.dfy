/** The aligned allocator: a four-byte header in front of each aligned block lets free find
    the pointer that malloc had returned. */
module Alloc {
  import opened Bits

  const WORD := 0x1_0000_0000
  const MAGIC := 12345
  const HEADER := 4
  const MAX_SHIFT := 15  // alignments from 1 to 32768 bytes

  /** `v` rounded up to a multiple of `a`, in 32-bit arithmetic. */
  function SizeAlign(v: int, a: int): int
    requires 0 <= v && 0 < a
  {
    (v + a - 1) % WORD / a * a
  }

  /** For a power of two it is what the SDK_SIZEALIGN mask computes. */
  lemma SizeAlignIsMask(v: int, k: nat)
    requires 0 <= v < WORD && k <= 32
    ensures Pow2(32) == WORD
    ensures SizeAlign(v, Pow2(k)) == ClearLow((v + Pow2(k) - 1) % WORD, k)
  {
    Pow2Values();
    ClearLowRoundsDown((v + Pow2(k) - 1) % WORD, k);
  }

  /** What SDK_Malloc asks of malloc. */
  function Requested(size: int, a: int): int
    requires 0 <= size && 0 < a
  {
    (SizeAlign(size, a) + a + HEADER) % WORD
  }

  /** The request is computed without wrapping around. */
  predicate NoWrap(size: int, a: int)
    requires 0 <= size && 0 < a
  {
    (size + a - 1) / a * a + a + HEADER < WORD
  }

  /** The aligned pointer that SDK_Malloc derives from malloc's answer. */
  function Aligned(raw: int, a: int): int
    requires 0 <= raw && 0 < a
  {
    SizeAlign(raw + HEADER, a)
  }

  // ----- Bytes in memory, little-endian halfwords -----

  function Load16(mem: seq<int>, at: int): int
    requires 0 <= at && at + 1 < |mem|
  {
    mem[at] + 256 * mem[at + 1]
  }

  function Store16(mem: seq<int>, at: int, v: int): seq<int>
    requires 0 <= at && at + 1 < |mem|
  {
    mem[at := v % 256][at + 1 := v / 256 % 256]
  }

  lemma LoadStored(mem: seq<int>, at: int, v: int)
    requires 0 <= at && at + 1 < |mem| && 0 <= v
    ensures Load16(Store16(mem, at, v), at) == v % 0x1_0000
  {
    var stored := Store16(mem, at, v);
    assert stored[at] == v % 256 && stored[at + 1] == v / 256 % 256;
    TwoBytes(v);
  }

  lemma TwoBytes(v: int)
    requires 0 <= v
    ensures v % 256 + 256 * (v / 256 % 256) == v % 0x1_0000
  {
    var q, r := v / 0x1_0000, v % 0x1_0000;
    assert v == 256 * (256 * q + r / 256) + r % 256;
    assert v / 256 == 256 * q + r / 256;
  }

  function WriteHeader(mem: seq<int>, ptr: int, offset: int): seq<int>
    requires HEADER <= ptr <= |mem|
  {
    Store16(Store16(mem, ptr - 4, MAGIC), ptr - 2, offset)
  }

  /** The header in front of `ptr` is valid and leads `offset` bytes back. */
  predicate HasHeader(mem: seq<int>, ptr: int, offset: int)
    requires HEADER <= ptr <= |mem|
  {
    Load16(mem, ptr - 4) == MAGIC && Load16(mem, ptr - 2) == offset
  }

  // ----- Allocator state -----

  /** A live block: what malloc returned and for how many bytes, and what the caller asked. */
  datatype Block = Block(raw: int, rawSize: int, size: int, align: int)

  datatype Heap = Heap(mem: seq<int>, live: map<int, Block>)

  datatype MaybeAddress = Null | Address(a: int)

  /** SDK_Malloc, given malloc's answer. */
  function Malloc(h: Heap, size: int, a: int, answer: MaybeAddress): (r: (Heap, MaybeAddress))
    requires |h.mem| == WORD && 0 <= size && 0 < a
    requires answer.Address? ==> 0 <= answer.a && answer.a + HEADER <= Aligned(answer.a, a) < WORD
  {
    if answer.Null? then (h, Null)
    else
      var ptr := Aligned(answer.a, a);
      (Heap(WriteHeader(h.mem, ptr, ptr - answer.a),
            h.live[ptr := Block(answer.a, Requested(size, a), size, a)]),
       Address(ptr))
  }

  /** The pointer SDK_Free passes to free; `Null` when the header is not valid. */
  function FreeTarget(mem: seq<int>, ptr: int): MaybeAddress
    requires HEADER <= ptr <= |mem|
  {
    if Load16(mem, ptr - 4) != MAGIC then Null
    else Address((ptr - Load16(mem, ptr - 2)) % WORD)
  }

  datatype Event =
    | DoMalloc(size: int, shift: nat, answer: MaybeAddress)
    | DoFree(ptr: int)
    | UserWrite(ptr: int, i: int, v: int)
    | OtherWrite(at: int, v: int)

  predicate Disjoint(b: Block, raw: int, rawSize: int) {
    b.raw + b.rawSize <= raw || raw + rawSize <= b.raw
  }

  /** The callers' and malloc's obligations: requests that do not wrap, answers inside memory
      and apart from live blocks, frees of live blocks, writes inside a block or apart from
      all of them. */
  predicate CanHappen(h: Heap, e: Event) {
    match e
    case DoMalloc(size, shift, answer) =>
      && 0 <= size < WORD && shift <= MAX_SHIFT && NoWrap(size, Pow2(shift))
      && (answer.Address? ==>
            && 0 < answer.a && answer.a + Requested(size, Pow2(shift)) <= WORD
            && forall p :: p in h.live ==> Disjoint(h.live[p], answer.a, Requested(size, Pow2(shift))))
    case DoFree(ptr) => ptr in h.live
    case UserWrite(ptr, i, v) => ptr in h.live && 0 <= i < h.live[ptr].size
    case OtherWrite(at, v) =>
      0 <= at < WORD && forall p :: p in h.live ==> Disjoint(h.live[p], at, 1)
  }

  // ----- Invariant -----

  /** A live block is aligned, it and its header lie inside its raw allocation, and the
      header is intact. */
  predicate GoodBlock(mem: seq<int>, ptr: int, b: Block)
    requires |mem| == WORD
  {
    && 0 < b.align && ptr % b.align == 0
    && 0 < b.raw && b.raw + HEADER <= ptr && 0 <= b.size && ptr + b.size <= b.raw + b.rawSize
    && b.raw + b.rawSize <= WORD && ptr - b.raw < 0x1_0000
    && HasHeader(mem, ptr, ptr - b.raw)
  }

  predicate Apart(live: map<int, Block>) {
    forall p, q :: p in live && q in live && p != q ==>
      Disjoint(live[p], live[q].raw, live[q].rawSize)
  }

  predicate Inv(h: Heap) {
    && |h.mem| == WORD
    && (forall p :: p in h.live ==> GoodBlock(h.mem, p, h.live[p]))
    && Apart(h.live)
  }

  // ----- Where an aligned block lies -----

  lemma RoundUp(v: int, a: int)
    requires 0 <= v && 0 < a
    ensures var r := (v + a - 1) / a * a; v <= r < v + a && r % a == 0
  {
    RoundDownBounds(v + a - 1, a);
    MultipleMod((v + a - 1) / a, a);
  }

  lemma Pow2Limit(k: nat)
    requires k <= MAX_SHIFT
    ensures Pow2(k) <= 0x8000
  {
    Pow2Monotone(k, MAX_SHIFT);
    Pow2Values();
  }

  lemma SizeAlignRoundsUp(v: int, a: int)
    requires 0 <= v && 0 < a && v + a - 1 < WORD
    ensures var r := SizeAlign(v, a); v <= r < v + a && r % a == 0
  {
    SizeAlignSmall(v, a);
    RoundUp(v, a);
  }

  lemma RequestedExact(size: int, a: int)
    requires 0 <= size && 0 < a && NoWrap(size, a)
    ensures size + a + HEADER <= Requested(size, a) < size + 2 * a + HEADER
  {
    RoundUp(size, a);
    assert size + a - 1 < WORD;
    SizeAlignRoundsUp(size, a);
  }

  /** Without wrap-around, block and header fit the request wherever malloc puts it. */
  lemma BlockFits(size: int, a: int, raw: int)
    requires 0 <= size && 0 < a <= 0x8000 && NoWrap(size, a)
    requires 0 < raw && raw + Requested(size, a) <= WORD
    ensures var p := Aligned(raw, a);
            && p % a == 0 && raw + HEADER <= p && p + size <= raw + Requested(size, a)
            && p < WORD && p - raw < 0x1_0000
  {
    RequestedExact(size, a);
    SizeAlignRoundsUp(raw + HEADER, a);
  }

  lemma SizeAlignSmall(v: int, a: int)
    requires 0 <= v && 0 < a && v + a - 1 < WORD
    ensures SizeAlign(v, a) == (v + a - 1) / a * a
  {
  }

  lemma SizeAlignWrapped(v: int, a: int)
    requires 0 <= v < WORD && 0 < a <= 0x8000 && v + a - 1 >= WORD
    ensures 0 <= SizeAlign(v, a) < a
  {
    var w := v + a - 1 - WORD;
    assert (v + a - 1) % WORD == w;
    RoundDownBounds(w, a);
    assert 0 <= w / a by { DivNonneg(w, a); }
    MulLessEq(0, w / a, a);
  }

  lemma DivNonneg(x: int, d: int)
    requires 0 <= x && 0 < d
    ensures 0 <= x / d
  {
  }

  /** A request that wraps comes out smaller than the block. */
  lemma RequestedWrapped(size: int, a: int)
    requires 0 <= size < WORD && 0 < a <= 0x8000 && !NoWrap(size, a)
    ensures Requested(size, a) < size
  {
    RoundUp(size, a);
    if size + a - 1 < WORD {
      SizeAlignSmall(size, a);
      WrappedSum(size, a, SizeAlign(size, a));
    } else {
      SizeAlignWrapped(size, a);
      SmallSum(SizeAlign(size, a), size, a);
    }
  }

  lemma SmallSum(aligned: int, size: int, a: int)
    requires 0 <= aligned < a <= 0x8000 && size < WORD <= size + a - 1
    ensures (aligned + a + HEADER) % WORD < size
  {
  }

  lemma WrappedSum(size: int, a: int, up: int)
    requires 0 <= size < WORD && 0 < a <= 0x8000 && size <= up < size + a
    requires up + a + HEADER >= WORD
    ensures (up + a + HEADER) % WORD < size
  {
  }

  /** The caller's block fits malloc's answer exactly when the request did not wrap. */
  lemma FitsExactlyWhenNoWrap(size: int, k: nat, raw: int)
    requires 0 <= size < WORD && k <= MAX_SHIFT
    requires 0 < raw && raw + Requested(size, Pow2(k)) <= WORD && raw + HEADER + Pow2(k) <= WORD
    ensures var p := Aligned(raw, Pow2(k));
            p + size <= raw + Requested(size, Pow2(k)) <==> NoWrap(size, Pow2(k))
  {
    Pow2Limit(k);
    if NoWrap(size, Pow2(k)) {
      BlockFits(size, Pow2(k), raw);
    } else {
      RequestedWrapped(size, Pow2(k));
      SizeAlignRoundsUp(raw + HEADER, Pow2(k));
    }
  }

  // ----- One step -----

  /** Bytes outside a header leave it as it is. */
  lemma HeaderUntouched(mem: seq<int>, mem': seq<int>, ptr: int, b: Block)
    requires |mem| == |mem'| == WORD && GoodBlock(mem, ptr, b)
    requires forall x :: ptr - 4 <= x < ptr ==> mem'[x] == mem[x]
    ensures GoodBlock(mem', ptr, b)
  {
    assert mem'[ptr - 4] == mem[ptr - 4] && mem'[ptr - 3] == mem[ptr - 3];
    assert mem'[ptr - 2] == mem[ptr - 2] && mem'[ptr - 1] == mem[ptr - 1];
  }

  lemma HeaderWritten(mem: seq<int>, ptr: int, offset: int)
    requires |mem| == WORD && HEADER <= ptr < WORD && 0 <= offset < 0x1_0000
    ensures HasHeader(WriteHeader(mem, ptr, offset), ptr, offset)
  {
    var first := Store16(mem, ptr - 4, MAGIC);
    LoadStored(mem, ptr - 4, MAGIC);
    LoadStored(first, ptr - 2, offset);
  }

  /** A write to one byte that lies in no header. */
  lemma WriteKeepsInv(h: Heap, at: int, v: int)
    requires Inv(h) && 0 <= at < WORD
    requires forall p :: p in h.live ==> !(p - 4 <= at < p)
    ensures Inv(h.(mem := h.mem[at := v]))
  {
    forall p | p in h.live
      ensures GoodBlock(h.mem[at := v], p, h.live[p])
    {
      HeaderUntouched(h.mem, h.mem[at := v], p, h.live[p]);
    }
  }

  lemma UserWriteMissesHeaders(h: Heap, ptr: int, i: int)
    requires Inv(h) && ptr in h.live && 0 <= i < h.live[ptr].size
    ensures forall p :: p in h.live ==> !(p - 4 <= ptr + i < p)
  {
    forall p | p in h.live
      ensures !(p - 4 <= ptr + i < p)
    {
      if p != ptr {
        assert Disjoint(h.live[p], h.live[ptr].raw, h.live[ptr].rawSize);
      }
    }
  }

  lemma PlacedBlocksGood(h: Heap, ptr: int, b: Block)
    requires Inv(h) && HEADER <= ptr < WORD && 0 <= ptr - b.raw
    requires GoodBlock(WriteHeader(h.mem, ptr, ptr - b.raw), ptr, b)
    requires forall p :: p in h.live ==> Disjoint(h.live[p], b.raw, b.rawSize)
    ensures var mem' := WriteHeader(h.mem, ptr, ptr - b.raw);
            forall p :: p in h.live ==> p != ptr && GoodBlock(mem', p, h.live[p])
  {
    var mem' := WriteHeader(h.mem, ptr, ptr - b.raw);
    forall p | p in h.live
      ensures p != ptr && GoodBlock(mem', p, h.live[p])
    {
      assert Disjoint(h.live[p], b.raw, b.rawSize);
      HeaderUntouched(h.mem, mem', p, h.live[p]);
    }
  }

  /** A good block that is apart from the live ones can join them. */
  lemma PlaceBlock(h: Heap, ptr: int, b: Block)
    requires Inv(h) && HEADER <= ptr < WORD && 0 <= ptr - b.raw
    requires GoodBlock(WriteHeader(h.mem, ptr, ptr - b.raw), ptr, b)
    requires forall p :: p in h.live ==> Disjoint(h.live[p], b.raw, b.rawSize)
    ensures Inv(Heap(WriteHeader(h.mem, ptr, ptr - b.raw), h.live[ptr := b]))
  {
    PlacedBlocksGood(h, ptr, b);
  }

  lemma PlaceFitting(h: Heap, ptr: int, b: Block)
    requires Inv(h) && 0 < b.align && ptr % b.align == 0 && 0 < b.raw && b.raw + HEADER <= ptr < WORD
    requires 0 <= b.size && ptr + b.size <= b.raw + b.rawSize <= WORD && ptr - b.raw < 0x1_0000
    requires forall p :: p in h.live ==> Disjoint(h.live[p], b.raw, b.rawSize)
    ensures Inv(Heap(WriteHeader(h.mem, ptr, ptr - b.raw), h.live[ptr := b]))
  {
    HeaderWritten(h.mem, ptr, ptr - b.raw);
    PlaceBlock(h, ptr, b);
  }

  lemma MallocKeepsInv(h: Heap, size: int, k: nat, answer: MaybeAddress)
    requires Inv(h) && CanHappen(h, DoMalloc(size, k, answer)) && answer.Address?
    ensures answer.a + HEADER <= Aligned(answer.a, Pow2(k)) < WORD
    ensures Inv(Malloc(h, size, Pow2(k), answer).0)
  {
    Pow2Limit(k);
    var a := Pow2(k);
    BlockFits(size, a, answer.a);
    PlaceFitting(h, Aligned(answer.a, a), Block(answer.a, Requested(size, a), size, a));
  }

  function Step(h: Heap, e: Event): Heap
    requires Inv(h) && CanHappen(h, e)
  {
    match e
    case DoMalloc(size, k, answer) =>
      assert answer.Address? ==> answer.a + HEADER <= Aligned(answer.a, Pow2(k)) < WORD by {
        if answer.Address? { MallocKeepsInv(h, size, k, answer); }
      }
      Malloc(h, size, Pow2(k), answer).0
    case DoFree(ptr) => h.(live := h.live - {ptr})
    case UserWrite(ptr, i, v) => h.(mem := h.mem[ptr + i := v])
    case OtherWrite(at, v) => h.(mem := h.mem[at := v])
  }

  lemma StepKeepsInv(h: Heap, e: Event)
    requires Inv(h) && CanHappen(h, e)
    ensures Inv(Step(h, e))
  {
    match e
    case DoMalloc(size, k, answer) =>
      if answer.Address? {
        MallocKeepsInv(h, size, k, answer);
      }
    case DoFree(ptr) =>
    case UserWrite(ptr, i, v) =>
      UserWriteMissesHeaders(h, ptr, i);
      WriteKeepsInv(h, ptr + i, v);
    case OtherWrite(at, v) =>
      forall p | p in h.live
        ensures !(p - 4 <= at < p)
      {
        assert Disjoint(h.live[p], at, 1);
      }
      WriteKeepsInv(h, at, v);
  }

  /** What an allocation does: nothing when malloc fails; otherwise exactly one new block of the
      size and alignment asked for, inside malloc's answer, with no byte changed but the four in
      front of it. */
  lemma MallocEffect(h: Heap, size: int, k: nat, answer: MaybeAddress)
    requires Inv(h) && CanHappen(h, DoMalloc(size, k, answer))
    ensures var t := Step(h, DoMalloc(size, k, answer));
            if answer.Null? then t == h
            else
              var ptr := Aligned(answer.a, Pow2(k));
              && ptr !in h.live && ptr % Pow2(k) == 0
              && answer.a + 4 <= ptr && ptr + size <= answer.a + Requested(size, Pow2(k))
              && t.live == h.live[ptr := Block(answer.a, Requested(size, Pow2(k)), size, Pow2(k))]
              && |t.mem| == |h.mem|
              && forall i :: 0 <= i < |h.mem| && !(ptr - 4 <= i < ptr) ==> t.mem[i] == h.mem[i]
  {
    if answer.Address? {
      Pow2Limit(k);
      BlockFits(size, Pow2(k), answer.a);
      NewPointer(h, Aligned(answer.a, Pow2(k)), answer.a, Requested(size, Pow2(k)));
    }
  }

  lemma NewPointer(h: Heap, ptr: int, raw: int, rawSize: int)
    requires Inv(h) && raw + HEADER <= ptr <= raw + rawSize
    requires forall p :: p in h.live ==> Disjoint(h.live[p], raw, rawSize)
    ensures ptr !in h.live
  {
    forall p | p in h.live
      ensures p != ptr
    {
      assert Disjoint(h.live[p], raw, rawSize) && GoodBlock(h.mem, p, h.live[p]);
    }
  }

  /** A free forgets exactly its block, a write changes exactly its byte. */
  lemma OtherEffects(h: Heap, ptr: int, i: int, at: int, v: int)
    requires Inv(h)
    ensures ptr in h.live ==>
              var t := Step(h, DoFree(ptr));
              t.mem == h.mem && ptr !in t.live
              && forall p :: p != ptr ==>
                   (p in t.live <==> p in h.live) && (p in h.live ==> t.live[p] == h.live[p])
    ensures CanHappen(h, UserWrite(ptr, i, v)) ==>
              0 <= ptr + i < WORD
              && Step(h, UserWrite(ptr, i, v)) == Heap(h.mem[ptr + i := v], h.live)
    ensures CanHappen(h, OtherWrite(at, v)) ==>
              Step(h, OtherWrite(at, v)) == Heap(h.mem[at := v], h.live)
  {
  }

  // ----- Whole runs -----

  /** `trace` is a run of events that can happen. */
  predicate IsRun(trace: seq<Heap>, es: seq<Event>) {
    && |trace| == |es| + 1
    && forall i :: 0 <= i < |es| ==> CanHappen(trace[i], es[i]) && Follows(trace[i], es[i], trace[i + 1])
  }

  predicate Follows(h: Heap, e: Event, h': Heap)
    requires CanHappen(h, e)
  {
    Inv(h) ==> h' == Step(h, e)
  }

  lemma {:induction false} RunKeepsInv(trace: seq<Heap>, es: seq<Event>, n: int)
    requires IsRun(trace, es) && 0 <= n <= |es| && Inv(trace[0])
    ensures Inv(trace[n])
  {
    if n > 0 {
      RunKeepsInv(trace, es, n - 1);
      assert Follows(trace[n - 1], es[n - 1], trace[n]);
      StepKeepsInv(trace[n - 1], es[n - 1]);
    }
  }

  /** In every run from an empty heap, at every point, each live block is aligned and lies
      with its header inside its raw allocation, and free would hand back exactly the pointer
      that malloc returned for it. */
  lemma FreeFindsRawPointer(mem: seq<int>, trace: seq<Heap>, es: seq<Event>, n: int, ptr: int)
    requires |mem| == WORD && IsRun(trace, es) && trace[0] == Heap(mem, map[])
    requires 0 <= n <= |es| && ptr in trace[n].live
    ensures var h := trace[n]; var b := h.live[ptr];
            && 0 < b.align && ptr % b.align == 0
            && b.raw <= ptr - HEADER && ptr + b.size <= b.raw + b.rawSize
            && HEADER <= ptr <= |h.mem| && FreeTarget(h.mem, ptr) == Address(b.raw)
  {
    RunKeepsInv(trace, es, n);
    assert GoodBlock(trace[n].mem, ptr, trace[n].live[ptr]);
  }

  /** Whatever the alignment, free finds the raw pointer exactly when the distance to it fits
      the header's sixteen bits. */
  lemma FreeExactlyWhenOffsetFits(mem: seq<int>, raw: int, ptr: int)
    requires |mem| == WORD && 0 <= raw && raw + HEADER <= ptr < WORD
    ensures FreeTarget(WriteHeader(mem, ptr, ptr - raw), ptr) == Address(raw) <==>
              ptr - raw < 0x1_0000
  {
    var first := Store16(mem, ptr - 4, MAGIC);
    LoadStored(mem, ptr - 4, MAGIC);
    LoadStored(first, ptr - 2, ptr - raw);
  }

  /** Free refuses a pointer exactly when the two bytes four and three below it are not the
      identifier 12345. */
  lemma FreeRefusesExactlyWhen(mem: seq<int>, ptr: int)
    requires HEADER <= ptr <= |mem| && 0 <= mem[ptr - 4] < 256 && 0 <= mem[ptr - 3] < 256
    ensures FreeTarget(mem, ptr) == Null <==> !(mem[ptr - 4] == 0x39 && mem[ptr - 3] == 0x30)
  {
  }

  // ----- The two functions over mutable memory -----

  class Memory {
    const mem: array<int>

    constructor (mem: array<int>)
      ensures this.mem == mem
    {
      this.mem := mem;
    }

    /** `request` is what malloc is asked for and `answer` is what it returns. */
    method SdkMalloc(size: int, alignBytes: int, answer: MaybeAddress)
      returns (ptr: MaybeAddress, request: int)
      requires mem.Length == WORD && 0 <= size < WORD && 0 < alignBytes <= 0x8000
      requires answer.Address? ==> 0 < answer.a && answer.a + HEADER + alignBytes <= WORD
      modifies mem
      ensures request == Requested(size, alignBytes)
      ensures ptr.Address? <==> answer.Address?
      ensures answer.Null? ==> mem[..] == old(mem[..])
      ensures answer.Address? ==>
                && ptr.a == Aligned(answer.a, alignBytes) && HEADER <= ptr.a < WORD
                && mem[..] == WriteHeader(old(mem[..]), ptr.a, ptr.a - answer.a)
    {
      request := (SizeAlign(size, alignBytes) + alignBytes + HEADER) % WORD;
      if answer.Null? {
        return Null, request;
      }
      SizeAlignRoundsUp(answer.a + HEADER, alignBytes);
      var alignAddr := SizeAlign(answer.a + HEADER, alignBytes);
      mem[alignAddr - 4], mem[alignAddr - 3] := MAGIC % 256, MAGIC / 256 % 256;
      var offset := alignAddr - answer.a;
      mem[alignAddr - 2], mem[alignAddr - 1] := offset % 256, offset / 256 % 256;
      return Address(alignAddr), request;
    }

    /** Returns what is passed on to free. */
    method SdkFree(ptr: int) returns (target: MaybeAddress)
      requires mem.Length == WORD && HEADER <= ptr < WORD
      ensures target == FreeTarget(mem[..], ptr)
    {
      if mem[ptr - 4] + 256 * mem[ptr - 3] != MAGIC {
        return Null;
      }
      return Address((ptr - (mem[ptr - 2] + 256 * mem[ptr - 1])) % WORD);
    }
  }
}
