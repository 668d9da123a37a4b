/** What every run of the camera queue keeps. */
module CsiProofs {
  import opened Ring
  import opened CsiSpec

  // ----- The three regions -----

  function FullPart(h: Handle): seq<Address>
    requires h.InRange()
  {
    Seg(h.queue, h.userRead, Dist(h.userRead, h.drvWrite, h.N()))
  }

  function ActivePart(h: Handle): seq<Address>
    requires h.InRange()
  {
    Seg(h.queue, h.drvWrite, Dist(h.drvWrite, h.drvRead, h.N()))
  }

  function EmptyPart(h: Handle): seq<Address>
    requires h.InRange()
  {
    Seg(h.queue, h.drvRead, Dist(h.drvRead, h.userWrite, h.N()))
  }

  /** Everything in the queue, oldest first. */
  function Held(h: Handle): seq<Address>
    requires h.InRange()
  {
    Seg(h.queue, h.userRead, Dist(h.userRead, h.userWrite, h.N()))
  }

  // ----- Invariants -----

  /** The four indices are in circular order, and `active` counts the middle region. */
  predicate Ordered(h: Handle) {
    && h.InRange()
    && Dist(h.userRead, h.drvWrite, h.N()) + Dist(h.drvWrite, h.drvRead, h.N())
       + Dist(h.drvRead, h.userWrite, h.N()) == Dist(h.userRead, h.userWrite, h.N())
    && h.active == Dist(h.drvWrite, h.drvRead, h.N()) <= 2
  }

  /** The queue holds exactly what was submitted and not yet handed back. */
  predicate Conserved(s: Csi)
    requires s.h.InRange()
  {
    s.submitted == s.returned + Held(s.h)
  }

  /** The register that holds the oldest active buffer. */
  function Oldest(h: Handle): Slot {
    if h.active == 2 then h.next else Flip(h.next)
  }

  /** The DMA address registers hold the active buffers, oldest first from `Oldest`. */
  predicate RegistersMatch(h: Handle, d: Device)
    requires h.InRange()
  {
    && (1 <= h.active ==> d.Reg(Oldest(h)) == h.queue[h.drvWrite])
    && (h.active == 2 ==> d.Reg(Flip(Oldest(h))) == h.queue[Next(h.drvWrite, h.N())])
  }

  /** How the flags of the handle and of the device go together. */
  predicate FlagsMatch(s: Csi) {
    && s.d.intEn == s.h.started
    && (s.h.ongoing ==> s.h.started)
    && (!s.inIrq ==> (s.h.ongoing <==> s.h.active > 0))
    && (s.inIrq ==> s.h.active <= 1 && s.h.ongoing == s.h.started
                    && (!s.h.started ==> s.h.active == 0))
    && (s.h.started ==> s.d.Pending() <= s.h.active)
  }

  predicate Inv(s: Csi) {
    Ordered(s.h) && Conserved(s) && RegistersMatch(s.h, s.d) && FlagsMatch(s)
  }

  // ----- One step -----

  lemma SubmitKeepsHeld(h: Handle, fb: Address)
    requires h.InRange() && Dist(h.userRead, h.userWrite, h.N()) < h.N() - 1
    ensures var h' := h.(queue := h.queue[h.userWrite := fb],
                         userWrite := Next(h.userWrite, h.N()));
            Held(h') == Held(h) + [fb]
  {
    var d := Dist(h.userRead, h.userWrite, h.N());
    SegExtend(h.queue, h.userRead, d, fb);
    DistUnique(h.userRead, Next(h.userWrite, h.N()), h.N(), d + 1);
  }

  lemma SubmitKeepsOrder(s: Csi, fb: Address)
    requires Ordered(s.h)
    ensures Ordered(SubmitStore(Modular, s, fb).0.h)
  {
  }

  lemma SubmitKeepsRegisters(s: Csi, fb: Address)
    requires Ordered(s.h) && RegistersMatch(s.h, s.d)
    ensures var t := SubmitStore(Modular, s, fb).0; RegistersMatch(t.h, t.d)
  {
  }

  lemma SubmitKeepsLog(s: Csi, fb: Address)
    requires Ordered(s.h) && Conserved(s)
    ensures Conserved(SubmitStore(Modular, s, fb).0)
  {
    if Dist(s.h.userRead, s.h.userWrite, s.h.N()) != s.h.N() - 1 {
      SubmitKeepsHeld(s.h, fb);
    }
  }

  lemma SubmitKeepsInv(s: Csi, fb: Address)
    requires Inv(s) && s.pc.Ready?
    ensures Inv(SubmitStore(Modular, s, fb).0)
  {
    SubmitKeepsOrder(s, fb);
    SubmitKeepsRegisters(s, fb);
    SubmitKeepsLog(s, fb);
  }

  lemma GetKeepsOrder(h: Handle)
    requires Ordered(h) && h.userRead != h.drvWrite
    ensures Ordered(h.(userRead := Next(h.userRead, h.N())))
  {
  }

  lemma GetKeepsHeld(h: Handle)
    requires Ordered(h) && h.userRead != h.drvWrite
    ensures var h' := h.(userRead := Next(h.userRead, h.N()));
            Held(h) == [h.queue[h.userRead]] + Held(h')
  {
    var d := Dist(h.userRead, h.userWrite, h.N());
    SegHead(h.queue, h.userRead, d);
    DistUnique(Next(h.userRead, h.N()), h.userWrite, h.N(), d - 1);
  }

  lemma GetKeepsInv(s: Csi)
    requires Inv(s)
    ensures Inv(GetFull(s).0)
  {
    if s.h.userRead != s.h.drvWrite {
      GetKeepsOrder(s.h);
      GetKeepsHeld(s.h);
      GetKeepsLog(s);
    }
  }

  lemma GetKeepsLog(s: Csi)
    requires Ordered(s.h) && Conserved(s) && s.h.userRead != s.h.drvWrite
    ensures Conserved(GetFull(s).0)
  {
    GetKeepsHeld(s.h);
  }

  lemma LoadKeepsOrder(s: Csi)
    requires Ordered(s.h) && s.h.active < 2 && s.h.drvRead != s.h.userWrite
    ensures var t := Load(s).h;
            && Ordered(t) && t.active == s.h.active + 1
            && EmptyCount(Modular, t) == EmptyCount(Modular, s.h) - 1
  {
  }

  lemma LoadKeepsRegisters(s: Csi)
    requires Ordered(s.h) && RegistersMatch(s.h, s.d) && s.h.active < 2
    ensures RegistersMatch(Load(s).h, Load(s).d)
  {
  }

  /** Loading one buffer of a queue that has an empty one and a free register. */
  lemma LoadKeepsInv(s: Csi)
    requires Ordered(s.h) && RegistersMatch(s.h, s.d) && s.h.active < 2
    requires s.h.drvRead != s.h.userWrite
    ensures var t := Load(s);
            && Ordered(t.h) && RegistersMatch(t.h, t.d) && Held(t.h) == Held(s.h)
            && t.h.active == s.h.active + 1
            && EmptyCount(Modular, t.h) == EmptyCount(Modular, s.h) - 1
  {
    LoadKeepsOrder(s);
    LoadKeepsRegisters(s);
  }

  lemma LoadTwoKeepsInv(s: Csi)
    requires Ordered(s.h) && s.h.active == 0 && EmptyCount(Modular, s.h) >= 2
    ensures var t := Load(Load(s));
            && Ordered(t.h) && RegistersMatch(t.h, t.d) && Held(t.h) == Held(s.h)
            && t.h.active == 2
  {
    LoadKeepsInv(s);
    LoadKeepsInv(Load(s));
  }

  lemma RestartKeepsInv(s: Csi)
    requires Inv(s)
    ensures Inv(SubmitRestart(Modular, s))
  {
    if s.h.started && !s.h.ongoing && EmptyCount(Modular, s.h) >= 2 {
      LoadTwoKeepsInv(s.(h := s.h.(ongoing := true, next := FB1), pc := Ready));
    }
  }

  lemma StartKeepsInv(s: Csi)
    requires Inv(s) && CanHappen(s, EvStart)
    ensures Inv(StartStep(Modular, s).0)
  {
    if EmptyCount(Modular, s.h) >= 2 {
      LoadTwoKeepsInv(s.(h := s.h.(next := FB1, active := 0)));
    }
  }

  lemma ResyncKeepsInv(s: Csi)
    requires Inv(s) && CanHappen(s, EvIrqEnter)
    ensures Inv(IrqResync(s))
  {
  }

  lemma FrameDoneKeepsOrder(h: Handle)
    requires Ordered(h) && h.active > 0
    ensures Ordered(h.(drvWrite := Next(h.drvWrite, h.N()), active := h.active - 1))
  {
  }

  lemma FrameDoneKeepsInv(s: Csi)
    requires Inv(s) && CanHappen(s, EvIrqEnter) && s.d.Pending() == 1
    ensures Inv(IrqEnter(s))
  {
    FrameDoneKeepsOrder(s.h);
    assert (s.h.active + 255) % 256 == s.h.active - 1;
  }

  lemma IrqEnterKeepsInv(s: Csi)
    requires Inv(s) && CanHappen(s, EvIrqEnter)
    ensures Inv(IrqEnter(s))
  {
    if s.d.Pending() == 2 {
      ResyncKeepsInv(s);
    } else if s.d.Pending() == 1 {
      FrameDoneKeepsInv(s);
    }
  }

  lemma IrqLeaveKeepsInv(s: Csi)
    requires Inv(s) && s.inIrq
    ensures Inv(IrqLeave(Modular, s))
  {
    if s.h.active != 0 && EmptyCount(Modular, s.h) != 0 {
      LoadKeepsInv(s.(inIrq := false));
    }
  }

  lemma StopDeviceKeepsInv(s: Csi)
    requires Inv(s)
    ensures Inv(StopDevice(s))
  {
  }

  lemma StopResetKeepsOrder(h: Handle)
    requires Ordered(h)
    ensures Ordered(h.(started := false, ongoing := false, drvRead := h.drvWrite, active := 0))
  {
  }

  lemma StopResetKeepsInv(s: Csi)
    requires Inv(s)
    ensures Inv(StopReset(s))
  {
    StopResetKeepsOrder(s.h);
  }

  lemma ClearStatusKeepsInv(s: Csi)
    requires Inv(s) && !s.h.started
    ensures Inv(ClearStatus(s))
  {
  }

  lemma CompleteKeepsInv(s: Csi)
    requires Inv(s) && CanHappen(s, EvComplete)
    ensures Inv(Complete(s))
  {
  }

  /** Every event that can happen keeps the invariant, when distances are modular. */
  lemma StepKeepsInv(s: Csi, e: Event)
    requires Inv(s) && CanHappen(s, e)
    ensures Inv(Step(Modular, s, e))
  {
    match e
    case EvSubmitStore(fb) => SubmitKeepsInv(s, fb);
    case EvSubmitRestart => RestartKeepsInv(s);
    case EvGetFull => GetKeepsInv(s);
    case EvStart => StartKeepsInv(s);
    case EvIrqEnter => IrqEnterKeepsInv(s);
    case EvIrqLeave => IrqLeaveKeepsInv(s);
    case EvStopDevice => StopDeviceKeepsInv(s);
    case EvStopReset => StopResetKeepsInv(s);
    case EvClearStatus => ClearStatusKeepsInv(s);
    case EvComplete => CompleteKeepsInv(s);
  }

  // ----- A fresh handle, and the three regions together -----

  lemma InitInv(n: int, blank: Address)
    requires 2 <= n <= 256
    ensures Inv(Init(n, blank)) && InSync(Init(n, blank))
  {
  }

  /** A region and the one behind it. */
  lemma JoinRegions(q: seq<Address>, i: int, j: int, k: int)
    requires 0 <= i < |q| && 0 <= j < |q| && 0 <= k < |q|
    requires Dist(i, j, |q|) + Dist(j, k, |q|) == Dist(i, k, |q|)
    ensures Seg(q, i, Dist(i, k, |q|)) == Seg(q, i, Dist(i, j, |q|)) + Seg(q, j, Dist(j, k, |q|))
  {
    SegSplit(q, i, Dist(i, j, |q|), Dist(j, k, |q|));
  }

  lemma ActiveAndEmptyJoin(h: Handle)
    requires Ordered(h)
    ensures Dist(h.drvWrite, h.drvRead, h.N()) + Dist(h.drvRead, h.userWrite, h.N())
            == Dist(h.drvWrite, h.userWrite, h.N())
  {
  }

  /** The held buffers are the full ones, then the active ones, then the empty ones. */
  lemma HeldIsThreeParts(h: Handle)
    requires Ordered(h)
    ensures Held(h) == FullPart(h) + ActivePart(h) + EmptyPart(h)
    ensures |ActivePart(h)| == h.active
  {
    ActiveAndEmptyJoin(h);
    JoinRegions(h.queue, h.userRead, h.drvWrite, h.userWrite);
    JoinRegions(h.queue, h.drvWrite, h.drvRead, h.userWrite);
  }

  /** The registers that hold active buffers, in the order in which the engine fills them. */
  function LoadedRegisters(s: Csi): seq<Address> {
    if s.h.active == 0 then []
    else if s.h.active == 1 then [s.d.Reg(Oldest(s.h))]
    else [s.d.Reg(Oldest(s.h)), s.d.Reg(Flip(Oldest(s.h)))]
  }

  lemma LoadedAreActive(s: Csi)
    requires Ordered(s.h) && RegistersMatch(s.h, s.d)
    ensures ActivePart(s.h) == LoadedRegisters(s) && |ActivePart(s.h)| == s.h.active
  {
    assert s.h.active == 2 ==> ActivePart(s.h)[1] == s.h.queue[Next(s.h.drvWrite, s.h.N())];
  }

  /** A stop puts the active buffers back in front of the empty ones. */
  lemma StopHandsBack(s: Csi)
    requires Inv(s)
    ensures var t := StopReset(s);
            && FullPart(t.h) == FullPart(s.h) && ActivePart(t.h) == []
            && EmptyPart(t.h) == ActivePart(s.h) + EmptyPart(s.h)
  {
    ActiveAndEmptyJoin(s.h);
    JoinRegions(s.h.queue, s.h.drvWrite, s.h.drvRead, s.h.userWrite);
  }

  // ----- The DMA engine and the driver agree on whose turn it is -----

  /** The engine works on the oldest active buffer whose completion is not yet flagged,
      and runs only during a transfer. */
  predicate InSync(s: Csi) {
    && (s.h.active > 0 && s.d.Pending() == 0 ==> s.d.hw == Oldest(s.h))
    && (s.h.active > 0 && s.d.Pending() == 1 ==>
          s.d.Done(Oldest(s.h)) && s.d.hw == Flip(Oldest(s.h)))
    && (s.d.enabled ==> s.h.ongoing)
  }

  /** The two places where the driver leaves the agreement to chance: a start while exactly
      one stale completion flag is set, and a both-flags interrupt in the middle of a stop. */
  predicate Clean(s: Csi, e: Event)
    requires s.h.InRange()
  {
    && (e.EvStart? && EmptyCount(Modular, s.h) >= 2 ==> s.d.Pending() != 1)
    && (e.EvIrqEnter? && s.d.Pending() == 2 ==> !s.pc.Stopping?)
  }

  /** The engine is off while the user is in the middle of a stop. */
  predicate StopWindowQuiet(s: Csi) {
    s.pc.Stopping? ==> !s.d.enabled
  }

  /** The agreement survives a step exactly when the step is clean. */
  lemma SyncKeptExactlyWhenClean(s: Csi, e: Event)
    requires Inv(s) && InSync(s) && StopWindowQuiet(s) && CanHappen(s, e)
    ensures var t := Step(Modular, s, e);
            InSync(t) && StopWindowQuiet(t) <==> Clean(s, e)
  {
    match e
    case EvSubmitRestart => RestartKeepsSync(s);
    case EvStart => StartKeepsSync(s);
    case EvIrqEnter => EnterKeepsSync(s);
    case EvIrqLeave => LeaveKeepsSync(s);
    case EvComplete => CompleteKeepsSync(s);
    case _ =>
  }

  lemma EnterKeepsSync(s: Csi)
    requires Inv(s) && InSync(s) && StopWindowQuiet(s) && CanHappen(s, EvIrqEnter)
    ensures InSync(IrqEnter(s)) && StopWindowQuiet(IrqEnter(s)) <==> Clean(s, EvIrqEnter)
  {
  }

  lemma LeaveKeepsSync(s: Csi)
    requires Inv(s) && InSync(s) && StopWindowQuiet(s) && s.inIrq
    ensures InSync(IrqLeave(Modular, s)) && StopWindowQuiet(IrqLeave(Modular, s))
  {
  }

  lemma CompleteKeepsSync(s: Csi)
    requires Inv(s) && InSync(s) && StopWindowQuiet(s) && CanHappen(s, EvComplete)
    ensures InSync(Complete(s)) && StopWindowQuiet(Complete(s))
  {
  }

  lemma RestartKeepsSync(s: Csi)
    requires Inv(s) && InSync(s) && StopWindowQuiet(s) && s.pc.Restarting?
    ensures InSync(SubmitRestart(Modular, s)) && StopWindowQuiet(SubmitRestart(Modular, s))
  {
  }

  lemma StartKeepsSync(s: Csi)
    requires Inv(s) && InSync(s) && CanHappen(s, EvStart)
    ensures var t := StartStep(Modular, s).0;
            StopWindowQuiet(t) && (InSync(t) <==> Clean(s, EvStart))
  {
  }

  /** Moving the boundary by one hands one buffer from the active to the full region. */
  lemma BoundaryMoves(h: Handle)
    requires Ordered(h) && h.active > 0
    ensures var h' := h.(drvWrite := Next(h.drvWrite, h.N()), active := h.active - 1);
            && FullPart(h') == FullPart(h) + [h.queue[h.drvWrite]]
            && ActivePart(h) == [h.queue[h.drvWrite]] + ActivePart(h')
            && EmptyPart(h') == EmptyPart(h)
  {
    FrameDoneKeepsOrder(h);
    SegHead(h.queue, h.drvWrite, h.active);
    var next := Next(h.drvWrite, h.N());
    assert Seg(h.queue, h.drvWrite, 1) == [h.queue[h.drvWrite]];
    DistUnique(h.userRead, next, h.N(), Dist(h.userRead, h.drvWrite, h.N()) + 1);
    JoinRegions(h.queue, h.userRead, h.drvWrite, next);
  }

  lemma FiredIsOldest(s: Csi, fired: Slot)
    requires Inv(s) && InSync(s) && CanHappen(s, EvIrqEnter)
    requires s.d.Done(fired) && !s.d.Done(Flip(fired))
    ensures var t := IrqEnter(s);
            && FullPart(t.h) == FullPart(s.h) + [s.d.Reg(fired)]
            && ActivePart(s.h) == [s.d.Reg(fired)] + ActivePart(t.h)
            && EmptyPart(t.h) == EmptyPart(s.h)
  {
    BoundaryMoves(s.h);
  }

  // ----- The index difference as written -----

  /** The written difference is the modular distance exactly on unwrapped pairs; on every
      wrapped pair it exceeds the array size; it is zero exactly when it should be. */
  lemma WrittenDelta(n: int, a: int, b: int)
    requires 0 <= a < n && 0 <= b < n
    ensures Delta(Modular, n, a, b) == Dist(a, b, n)
    ensures Delta(Written, n, a, b) == Dist(a, b, n) <==> a <= b
    ensures b < a ==> Delta(Written, n, a, b) == 2 * n - Dist(a, b, n) > n
    ensures Delta(Written, n, a, b) == 0 <==> Dist(a, b, n) == 0
  {
  }

  /** Where the written full test and the written "at least two" test decide wrongly. */
  predicate Trap(s: Csi, e: Event) {
    var twoTestWrong := s.h.drvRead == s.h.N() - 1 && s.h.userWrite == 0;
    match e
    case EvSubmitStore(_) => s.h.userWrite + 1 == s.h.userRead
    case EvSubmitRestart => s.h.started && !s.h.ongoing && twoTestWrong
    case EvStart => twoTestWrong
    case _ => false
  }

  lemma OutsideTrapsFormsAgree(s: Csi, e: Event)
    requires s.h.InRange() && !Trap(s, e)
    ensures Step(Written, s, e) == Step(Modular, s, e)
  {
  }

  /** The interrupt handler's refill decision is right in every state. */
  lemma RefillDecisionRight(s: Csi)
    requires s.h.InRange()
    ensures IrqLeave(Written, s) == IrqLeave(Modular, s)
  {
  }

  lemma SubmitTrapBreaksInv(s: Csi, fb: Address)
    requires Inv(s) && Trap(s, EvSubmitStore(fb))
    ensures !Inv(SubmitStore(Written, s, fb).0)
    ensures |Held(s.h)| == s.h.N() - 1 && Held(SubmitStore(Written, s, fb).0.h) == []
  {
    assert Delta(Written, s.h.N(), s.h.userRead, s.h.userWrite) != s.h.N() - 1;
  }

  lemma OrderLost(h: Handle, h': Handle)
    requires Ordered(h) && h.active == 0 && h.drvRead == h.N() - 1 && h.userWrite == 0
    requires h' == h.(next := h'.next, started := h'.started, ongoing := h'.ongoing,
                      active := 2, drvRead := Next(Next(h.drvRead, h.N()), h.N()))
    ensures !Ordered(h')
  {
  }

  /** Two loads from the last slot on. */
  lemma LoadsLastAndFirst(s: Csi)
    requires s.h.InRange() && s.h.active == 0 && s.h.drvRead == s.h.N() - 1 && s.h.next == FB1
    ensures var t := Load(Load(s));
            && t.d == s.d.(fb1 := s.h.queue[s.h.N() - 1], fb2 := s.h.queue[0])
            && t.h == s.h.(active := 2, drvRead := Next(0, s.h.N()))
  {
  }

  lemma LastIsEmpty(h: Handle)
    requires Ordered(h) && h.drvRead == h.N() - 1 && h.userWrite == 0
    ensures EmptyPart(h) == [h.queue[h.N() - 1]]
  {
    assert EmptyPart(h)[0] == h.queue[h.N() - 1];
  }

  /** In the load trap, one buffer is empty but two are loaded: the second register is aimed
      at the slot behind the last submitted buffer, and the engine is started. */
  lemma LoadTrapBreaksInv(s: Csi, e: Event)
    requires Inv(s) && CanHappen(s, e) && Trap(s, e) && !e.EvSubmitStore?
    ensures var t := Step(Written, s, e);
            && !Inv(t) && t.d.enabled && t.h.active == 2 && t.d.hw == FB1
            && EmptyPart(s.h) == [t.d.fb1] && t.d.fb2 == s.h.queue[s.h.userWrite]
  {
    LastIsEmpty(s.h);
    TrapLoads(s, e);
    OrderLost(s.h, Step(Written, s, e).h);
  }

  lemma TrapLoads(s: Csi, e: Event)
    requires s.h.InRange() && s.h.active == 0 && Trap(s, e) && !e.EvSubmitStore?
    ensures var t := Step(Written, s, e);
            && t.d.enabled && t.d.hw == FB1
            && t.d.fb1 == s.h.queue[s.h.N() - 1] && t.d.fb2 == s.h.queue[0]
            && t.h == s.h.(active := 2, drvRead := Next(0, s.h.N()), next := FB1,
                           started := t.h.started, ongoing := t.h.ongoing)
  {
    assert EmptyCount(Written, s.h) >= 2;
    if e.EvStart? {
      LoadsLastAndFirst(s.(h := s.h.(next := FB1, active := 0)));
    } else {
      LoadsLastAndFirst(s.(h := s.h.(ongoing := true, next := FB1), pc := Ready));
    }
  }

  /** The driver as written keeps the invariant exactly outside the traps. */
  lemma InvKeptExactlyOutsideTraps(s: Csi, e: Event)
    requires Inv(s) && CanHappen(s, e)
    ensures Inv(Step(Written, s, e)) <==> !Trap(s, e)
  {
    if !Trap(s, e) {
      OutsideTrapsFormsAgree(s, e);
      StepKeepsInv(s, e);
    } else {
      match e
      case EvSubmitStore(fb) => SubmitTrapBreaksInv(s, fb);
      case EvSubmitRestart => LoadTrapBreaksInv(s, e);
      case EvStart => LoadTrapBreaksInv(s, e);
    }
  }

  predicate TrapFree(s: Csi, es: seq<Event>)
    requires s.h.InRange()
    decreases |es|
  {
    es == [] || (!Trap(s, es[0]) && TrapFree(Step(Written, s, es[0]), es[1..]))
  }

  // ----- Whole runs -----

  /** A run of clean events. */
  predicate AllClean(form: DeltaForm, s: Csi, es: seq<Event>)
    requires s.h.InRange()
    decreases |es|
  {
    es == [] || (Clean(s, es[0]) && AllClean(form, Step(form, s, es[0]), es[1..]))
  }

  lemma {:induction false} RunKeepsInv(s: Csi, es: seq<Event>)
    requires Inv(s) && Possible(Modular, s, es)
    ensures Inv(Exec(Modular, s, es))
    decreases |es|
  {
    if es != [] {
      StepKeepsInv(s, es[0]);
      RunKeepsInv(Step(Modular, s, es[0]), es[1..]);
    }
  }

  lemma {:induction false} RunKeepsSync(s: Csi, es: seq<Event>)
    requires Inv(s) && InSync(s) && StopWindowQuiet(s)
    requires Possible(Modular, s, es) && AllClean(Modular, s, es)
    ensures var t := Exec(Modular, s, es); Inv(t) && InSync(t) && StopWindowQuiet(t)
    decreases |es|
  {
    if es != [] {
      StepKeepsInv(s, es[0]);
      SyncKeptExactlyWhenClean(s, es[0]);
      RunKeepsSync(Step(Modular, s, es[0]), es[1..]);
    }
  }

  /** A run of the driver as written that avoids the traps is a run of the intended queue. */
  lemma {:induction false} TrapFreeRunIsIntended(s: Csi, es: seq<Event>)
    requires Inv(s) && Possible(Written, s, es) && TrapFree(s, es)
    ensures Possible(Modular, s, es) && Exec(Written, s, es) == Exec(Modular, s, es)
    ensures Inv(Exec(Written, s, es))
    ensures AllClean(Written, s, es) ==> AllClean(Modular, s, es)
    decreases |es|
  {
    if es != [] {
      OutsideTrapsFormsAgree(s, es[0]);
      StepKeepsInv(s, es[0]);
      TrapFreeRunIsIntended(Step(Written, s, es[0]), es[1..]);
    }
  }

  lemma {:induction false} PossiblePrefix(form: DeltaForm, s: Csi, es: seq<Event>, e: Event)
    requires s.h.InRange() && Possible(form, s, es + [e])
    ensures Possible(form, s, es) && CanHappen(Exec(form, s, es), e)
    decreases |es|
  {
    if es != [] {
      assert (es + [e])[0] == es[0] && (es + [e])[1..] == es[1..] + [e];
      PossiblePrefix(form, Step(form, s, es[0]), es[1..], e);
    }
  }

  /** A run from a fresh handle: of the intended queue, or of the driver as written as long as
      it avoids the traps. */
  predicate Sound(form: DeltaForm, n: int, blank: Address, es: seq<Event>)
    requires 2 <= n <= 256
  {
    && Possible(form, Init(n, blank), es)
    && (form.Written? ==> TrapFree(Init(n, blank), es))
  }

  lemma SoundRun(form: DeltaForm, n: int, blank: Address, es: seq<Event>)
    requires 2 <= n <= 256 && Sound(form, n, blank, es)
    ensures var s := Init(n, blank);
            && Possible(Modular, s, es) && Exec(form, s, es) == Exec(Modular, s, es)
            && (AllClean(form, s, es) ==> AllClean(Modular, s, es))
            && Inv(Exec(form, s, es))
  {
    InitInv(n, blank);
    if form.Written? {
      TrapFreeRunIsIntended(Init(n, blank), es);
    } else {
      RunKeepsInv(Init(n, blank), es);
    }
  }

  lemma SoundCleanRun(form: DeltaForm, n: int, blank: Address, es: seq<Event>)
    requires 2 <= n <= 256 && Sound(form, n, blank, es) && AllClean(form, Init(n, blank), es)
    ensures var t := Exec(form, Init(n, blank), es); Inv(t) && InSync(t) && StopWindowQuiet(t)
  {
    InitInv(n, blank);
    SoundRun(form, n, blank, es);
    RunKeepsSync(Init(n, blank), es);
  }

  /** In every run from a fresh handle the log of submitted buffers is what was handed
      back, then the full, the active and the empty buffers: none lost, doubled or moved. */
  lemma NoBufferLost(form: DeltaForm, n: int, blank: Address, es: seq<Event>)
    requires 2 <= n <= 256 && Sound(form, n, blank, es)
    ensures var t := Exec(form, Init(n, blank), es);
            t.submitted == t.returned + FullPart(t.h) + ActivePart(t.h) + EmptyPart(t.h)
  {
    SoundRun(form, n, blank, es);
    HeldIsThreeParts(Exec(form, Init(n, blank), es).h);
  }

  /** In every run from a fresh handle the two DMA address registers hold exactly the active
      buffers, in queue order from the register that `nextBufferIdx` tells, and outside the
      callback a transfer is ongoing exactly while some buffer is active. */
  lemma RegistersHoldActive(form: DeltaForm, n: int, blank: Address, es: seq<Event>)
    requires 2 <= n <= 256 && Sound(form, n, blank, es)
    ensures var t := Exec(form, Init(n, blank), es);
            && ActivePart(t.h) == LoadedRegisters(t)
            && t.h.active == |ActivePart(t.h)|
            && (!t.inIrq ==> (t.h.ongoing <==> t.h.active > 0))
  {
    SoundRun(form, n, blank, es);
    LoadedAreActive(Exec(form, Init(n, blank), es));
  }

  /** In every clean run the engine only ever fills an active buffer: never one that is
      full, that the user holds, or that still waits as empty. */
  lemma DmaFillsOnlyActive(form: DeltaForm, n: int, blank: Address, es: seq<Event>)
    requires 2 <= n <= 256 && Possible(form, Init(n, blank), es + [EvComplete])
    requires var s := Init(n, blank);
             AllClean(form, s, es) && (form.Written? ==> TrapFree(s, es))
    ensures var t := Exec(form, Init(n, blank), es);
            t.h.active > 0 && t.d.Reg(t.d.hw) in ActivePart(t.h)
  {
    PossiblePrefix(form, Init(n, blank), es, EvComplete);
    SoundCleanRun(form, n, blank, es);
    LoadedAreActive(Exec(form, Init(n, blank), es));
  }

  /** In every clean run, when one flag has fired, the handler declares full exactly the buffer
      in that flag's register, although it does not look which flag it is. */
  lemma CompletedBufferBecomesFull(
    form: DeltaForm, n: int, blank: Address, es: seq<Event>, fired: Slot)
    requires 2 <= n <= 256 && Possible(form, Init(n, blank), es + [EvIrqEnter])
    requires var s := Init(n, blank);
             AllClean(form, s, es) && (form.Written? ==> TrapFree(s, es))
    requires var s := Exec(form, Init(n, blank), es);
             s.d.Done(fired) && !s.d.Done(Flip(fired))
    ensures var s := Exec(form, Init(n, blank), es);
            var t := Step(form, s, EvIrqEnter);
            && FullPart(t.h) == FullPart(s.h) + [s.d.Reg(fired)]
            && ActivePart(s.h) == [s.d.Reg(fired)] + ActivePart(t.h)
            && EmptyPart(t.h) == EmptyPart(s.h)
  {
    PossiblePrefix(form, Init(n, blank), es, EvIrqEnter);
    SoundCleanRun(form, n, blank, es);
    FiredIsOldest(Exec(form, Init(n, blank), es), fired);
  }
}
