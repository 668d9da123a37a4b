/** The ring of indices refines a plain queue: three sequences of buffers, full, active and
    empty, that the calls and the interrupt move buffers between. */
module CsiRefinement {
  import opened Ring
  import opened CsiSpec
  import opened CsiProofs

  /** What a user knows of the camera queue: no index, no wrap-around, no register. */
  datatype Queue = Queue(
    full: seq<Address>, active: seq<Address>, empty: seq<Address>,
    started: bool, ongoing: bool, enabled: bool,
    submitted: seq<Address>, returned: seq<Address>)
  {
    function Size(): int { |full| + |active| + |empty| }
  }

  function Abs(s: Csi): Queue
    requires s.h.InRange()
  {
    Queue(FullPart(s.h), ActivePart(s.h), EmptyPart(s.h), s.h.started, s.h.ongoing, s.d.enabled,
          s.submitted, s.returned)
  }

  /** Two empty buffers become active and the camera runs. */
  function Run(q: Queue): Queue
    requires |q.empty| >= 2
  {
    q.(active := q.empty[..2], empty := q.empty[2..], started := true, ongoing := true,
       enabled := true)
  }

  /** The plain queue's step, for a queue that takes `capacity` buffers and an interrupt that
      finds `pending` completion flags. */
  function QueueStep(q: Queue, capacity: int, pending: int, e: Event): Queue {
    match e
    case EvSubmitStore(fb) =>
      if q.Size() == capacity then q
      else q.(empty := q.empty + [fb], submitted := q.submitted + [fb])
    case EvSubmitRestart =>
      if q.started && !q.ongoing && |q.empty| >= 2 then Run(q) else q
    case EvGetFull =>
      if q.full == [] then q
      else q.(full := q.full[1..], returned := q.returned + [q.full[0]])
    case EvStart => if |q.empty| >= 2 then Run(q) else q
    case EvStopDevice => q.(enabled := false)
    case EvStopReset =>
      q.(active := [], empty := q.active + q.empty, started := false, ongoing := false)
    case EvIrqEnter =>
      if pending == 2 then q.(enabled := true)
      else if pending == 1 && q.active != [] then
        q.(full := q.full + [q.active[0]], active := q.active[1..])
      else q
    case EvIrqLeave =>
      if q.active == [] then q.(ongoing := false, enabled := false)
      else if q.empty == [] then q
      else q.(active := q.active + [q.empty[0]], empty := q.empty[1..])
    case EvComplete | EvClearStatus => q
  }

  // ----- How the regions move -----

  /** Writing the slot `d` behind `i` leaves shorter segments from `i` alone. */
  lemma SegKept(q: seq<Address>, i: nat, k: nat, d: nat, v: Address)
    requires i < |q| && k <= d < |q|
    ensures Seg(q[Wrap(i + d, |q|) := v], i, k) == Seg(q, i, k)
  {
  }

  lemma SubmitMoves(h: Handle, fb: Address)
    requires Ordered(h) && Dist(h.userRead, h.userWrite, h.N()) < h.N() - 1
    ensures var t := h.(queue := h.queue[h.userWrite := fb], userWrite := Next(h.userWrite, h.N()));
            && FullPart(t) == FullPart(h) && ActivePart(t) == ActivePart(h)
            && EmptyPart(t) == EmptyPart(h) + [fb]
  {
    var n := h.N();
    ActiveAndEmptyJoin(h);
    SegKept(h.queue, h.userRead, Dist(h.userRead, h.drvWrite, n), Dist(h.userRead, h.userWrite, n), fb);
    SegKept(h.queue, h.drvWrite, Dist(h.drvWrite, h.drvRead, n), Dist(h.drvWrite, h.userWrite, n), fb);
    SubmitGrowsEmpty(h, fb);
  }

  lemma SubmitGrowsEmpty(h: Handle, fb: Address)
    requires Ordered(h) && Dist(h.userRead, h.userWrite, h.N()) < h.N() - 1
    ensures var t := h.(queue := h.queue[h.userWrite := fb], userWrite := Next(h.userWrite, h.N()));
            EmptyPart(t) == EmptyPart(h) + [fb]
  {
    var d := Dist(h.drvRead, h.userWrite, h.N());
    SegExtend(h.queue, h.drvRead, d, fb);
    DistUnique(h.drvRead, Next(h.userWrite, h.N()), h.N(), d + 1);
  }

  lemma GetMoves(h: Handle)
    requires Ordered(h) && h.userRead != h.drvWrite
    ensures var t := h.(userRead := Next(h.userRead, h.N()));
            && FullPart(h) == [h.queue[h.userRead]] + FullPart(t)
            && ActivePart(t) == ActivePart(h) && EmptyPart(t) == EmptyPart(h)
  {
    var d := Dist(h.userRead, h.drvWrite, h.N());
    SegHead(h.queue, h.userRead, d);
    DistUnique(Next(h.userRead, h.N()), h.drvWrite, h.N(), d - 1);
  }

  /** Loading moves the first empty buffer behind the active ones and into the register due. */
  lemma LoadMoves(s: Csi)
    requires Ordered(s.h) && s.h.active < 2 && s.h.drvRead != s.h.userWrite
    ensures var t := Load(s);
            && EmptyPart(s.h) != [] && FullPart(t.h) == FullPart(s.h)
            && ActivePart(t.h) == ActivePart(s.h) + [EmptyPart(s.h)[0]]
            && EmptyPart(t.h) == EmptyPart(s.h)[1..]
            && t.d.Reg(s.h.next) == EmptyPart(s.h)[0]
  {
    var h, n := s.h, s.h.N();
    var d := Dist(h.drvRead, h.userWrite, n);
    SegHead(h.queue, h.drvRead, d);
    DistUnique(Next(h.drvRead, n), h.userWrite, n, d - 1);
    LoadGrowsActive(h);
  }

  lemma LoadGrowsActive(h: Handle)
    requires Ordered(h) && h.active < 2 && h.drvRead != h.userWrite
    ensures var t := h.(drvRead := Next(h.drvRead, h.N()));
            ActivePart(t) == ActivePart(h) + [h.queue[h.drvRead]]
  {
    var n := h.N();
    var a := Dist(h.drvWrite, h.drvRead, n);
    DistUnique(h.drvWrite, Next(h.drvRead, n), n, a + 1);
    SegSplit(h.queue, h.drvWrite, a, 1);
    assert Seg(h.queue, h.drvRead, 1) == [h.queue[h.drvRead]];
  }

  /** Two loads into free registers: the first two empty buffers, in order. */
  lemma LoadTwoMoves(s: Csi)
    requires Ordered(s.h) && RegistersMatch(s.h, s.d)
    requires s.h.active == 0 && EmptyCount(Modular, s.h) >= 2
    ensures var t := Load(Load(s));
            && FullPart(t.h) == FullPart(s.h) && |EmptyPart(s.h)| >= 2
            && ActivePart(t.h) == EmptyPart(s.h)[..2] && EmptyPart(t.h) == EmptyPart(s.h)[2..]
            && t.d.Reg(s.h.next) == EmptyPart(s.h)[0]
            && t.d.Reg(Flip(s.h.next)) == EmptyPart(s.h)[1]
  {
    LoadKeepsInv(s);
    LoadMoves(s);
    LoadMoves(Load(s));
    assert ActivePart(s.h) == [];
    var empty := EmptyPart(s.h);
    assert [] + [empty[0]] + [empty[1]] == empty[..2] && empty[1..][1..] == empty[2..];
  }

  // ----- Event by event -----

  lemma SubmitRefines(s: Csi, fb: Address)
    requires Inv(s)
    ensures Abs(SubmitStore(Modular, s, fb).0)
            == QueueStep(Abs(s), s.h.N() - 1, s.d.Pending(), EvSubmitStore(fb))
    ensures SubmitStore(Modular, s, fb).1
            == if Abs(s).Size() == s.h.N() - 1 then QueueFull else Success
  {
    if Dist(s.h.userRead, s.h.userWrite, s.h.N()) != s.h.N() - 1 {
      SubmitMoves(s.h, fb);
    }
  }

  lemma RestartRefines(s: Csi)
    requires Inv(s)
    ensures Abs(SubmitRestart(Modular, s))
            == QueueStep(Abs(s), s.h.N() - 1, s.d.Pending(), EvSubmitRestart)
  {
    if s.h.started && !s.h.ongoing && EmptyCount(Modular, s.h) >= 2 {
      LoadTwoMoves(s.(h := s.h.(ongoing := true, next := FB1), pc := Ready));
    }
  }

  lemma GetRefines(s: Csi)
    requires Inv(s)
    ensures Abs(GetFull(s).0) == QueueStep(Abs(s), s.h.N() - 1, s.d.Pending(), EvGetFull)
    ensures GetFull(s).1 == if Abs(s).full == [] then NoFullBuffer else Success
  {
    if s.h.userRead != s.h.drvWrite {
      GetMoves(s.h);
    }
  }

  lemma StartRefines(s: Csi)
    requires Inv(s) && CanHappen(s, EvStart)
    ensures Abs(StartStep(Modular, s).0)
            == QueueStep(Abs(s), s.h.N() - 1, s.d.Pending(), EvStart)
    ensures StartStep(Modular, s).1 == if |Abs(s).empty| < 2 then NoEmptyBuffer else Success
  {
    if EmptyCount(Modular, s.h) >= 2 {
      LoadTwoMoves(s.(h := s.h.(next := FB1, active := 0)));
    }
  }

  lemma StopRefines(s: Csi)
    requires Inv(s)
    ensures Abs(StopReset(s)) == QueueStep(Abs(s), s.h.N() - 1, s.d.Pending(), EvStopReset)
  {
    StopHandsBack(s);
  }

  lemma EnterRefines(s: Csi)
    requires Inv(s) && CanHappen(s, EvIrqEnter)
    ensures Abs(IrqEnter(s)) == QueueStep(Abs(s), s.h.N() - 1, s.d.Pending(), EvIrqEnter)
  {
    if s.d.Pending() == 1 {
      BoundaryMoves(s.h);
    }
  }

  lemma LeaveRefines(s: Csi)
    requires Inv(s) && s.inIrq
    ensures Abs(IrqLeave(Modular, s)) == QueueStep(Abs(s), s.h.N() - 1, s.d.Pending(), EvIrqLeave)
  {
    if s.h.active != 0 && EmptyCount(Modular, s.h) != 0 {
      LoadMoves(s.(inIrq := false));
    }
  }

  /** Every event that can happen does to the buffers exactly what it does to the plain queue:
      for the modular distance always, for the driver as written outside the traps. */
  lemma StepRefinesQueue(form: DeltaForm, s: Csi, e: Event)
    requires Inv(s) && CanHappen(s, e) && (form.Written? ==> !Trap(s, e))
    ensures Abs(Step(form, s, e)) == QueueStep(Abs(s), s.h.N() - 1, s.d.Pending(), e)
  {
    if form.Written? {
      OutsideTrapsFormsAgree(s, e);
    }
    match e
    case EvSubmitStore(fb) => SubmitRefines(s, fb);
    case EvSubmitRestart => RestartRefines(s);
    case EvGetFull => GetRefines(s);
    case EvStart => StartRefines(s);
    case EvStopReset => StopRefines(s);
    case EvIrqEnter => EnterRefines(s);
    case EvIrqLeave => LeaveRefines(s);
    case _ =>
  }

  /** What the calls report, outside the traps: full exactly at capacity, too few empty
      buffers exactly below two, no full buffer exactly when there is none. */
  lemma StatusIsTheQueues(form: DeltaForm, s: Csi, fb: Address)
    requires Inv(s)
    ensures (form.Written? ==> !Trap(s, EvSubmitStore(fb))) ==>
              SubmitStore(form, s, fb).1
              == if Abs(s).Size() == s.h.N() - 1 then QueueFull else Success
    ensures (form.Written? ==> !Trap(s, EvStart)) ==>
              StartStep(form, s).1 == if |Abs(s).empty| < 2 then NoEmptyBuffer else Success
    ensures GetFull(s).1 == if Abs(s).full == [] then NoFullBuffer else Success
  {
    HeldIsThreeParts(s.h);
    if form.Written? ==> !Trap(s, EvSubmitStore(fb)) {
      SubmitStatus(form, s, fb);
    }
    if form.Written? ==> !Trap(s, EvStart) {
      StartStatus(form, s);
    }
  }

  lemma SubmitStatus(form: DeltaForm, s: Csi, fb: Address)
    requires Inv(s) && (form.Written? ==> !Trap(s, EvSubmitStore(fb)))
    ensures SubmitStore(form, s, fb).1 == if |Held(s.h)| == s.h.N() - 1 then QueueFull else Success
  {
  }

  lemma StartStatus(form: DeltaForm, s: Csi)
    requires Inv(s) && (form.Written? ==> !Trap(s, EvStart))
    ensures StartStep(form, s).1 == if |EmptyPart(s.h)| < 2 then NoEmptyBuffer else Success
  {
  }

  /** The handler after the callback, in every state and with either difference: it refills the
      register that is due from the front of the empty buffers whenever a frame is still being
      received, stops the camera when none is, and otherwise changes nothing. */
  lemma LeaveRefillsExactly(form: DeltaForm, s: Csi)
    requires Inv(s) && s.inIrq
    ensures var t, empty := IrqLeave(form, s), EmptyPart(s.h);
            && !t.inIrq && FullPart(t.h) == FullPart(s.h)
            && (s.h.active > 0 && empty != [] ==>
                  && ActivePart(t.h) == ActivePart(s.h) + [empty[0]] && EmptyPart(t.h) == empty[1..]
                  && t.d == s.d.SetReg(s.h.next, empty[0]) && t.d.Reg(s.h.next) == empty[0]
                  && t.h.next == Flip(s.h.next) && t.h.ongoing == s.h.ongoing)
            && (s.h.active > 0 && empty == [] ==> t == s.(inIrq := false))
            && (s.h.active == 0 ==>
                  t == s.(inIrq := false, d := s.d.(enabled := false), h := s.h.(ongoing := false)))
  {
    RefillDecisionRight(s);
    if s.h.active != 0 && EmptyCount(Modular, s.h) != 0 {
      LoadMoves(s.(inIrq := false));
    }
  }
}
