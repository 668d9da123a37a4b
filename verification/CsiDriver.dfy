/** The camera driver's transfer functions over a mutable handle and device, each proved
    to take exactly the steps of the state machine. */
module CsiDriver {
  import opened Ring
  import opened CsiSpec

  /** A submit that no interrupt cuts in two. */
  function WholeSubmit(form: DeltaForm, s: Csi, fb: Address): Csi
    requires s.h.InRange()
  {
    var (t, status) := SubmitStore(form, s, fb);
    if status.Success? then SubmitRestart(form, t) else t
  }

  /** What the user's callback may call, as often as it likes. */
  datatype Call = Submit(fb: Address) | Get | Stop

  function AfterCall(form: DeltaForm, s: Csi, c: Call): (t: Csi)
    requires s.h.InRange()
    ensures t.h.InRange() && t.h.N() == s.h.N() && t.inIrq == s.inIrq
    ensures s.pc.Ready? ==> t.pc.Ready?
  {
    match c
    case Submit(fb) => WholeSubmit(form, s, fb)
    case Get => GetFull(s).0
    case Stop => StopReset(StopDevice(s))
  }

  function AfterCalls(form: DeltaForm, s: Csi, cs: seq<Call>): (t: Csi)
    requires s.h.InRange()
    ensures t.h.InRange() && t.h.N() == s.h.N() && t.inIrq == s.inIrq
    ensures s.pc.Ready? ==> t.pc.Ready?
  {
    if cs == [] then s
    else AfterCall(form, AfterCalls(form, s, cs[..|cs| - 1]), cs[|cs| - 1])
  }

  /** The interrupt handler, whose callback makes the calls `cs`. */
  function WholeIrq(form: DeltaForm, s: Csi, cs: seq<Call>): Csi
    requires s.h.InRange()
  {
    var t := IrqEnter(s);
    if t.inIrq then IrqLeave(form, AfterCalls(form, t, cs)) else t
  }

  // ----- The calls are runs of the state machine, so what is proved of runs holds of them -----

  function EventsOf(form: DeltaForm, s: Csi, c: Call): seq<Event>
    requires s.h.InRange()
  {
    match c
    case Submit(fb) =>
      if SubmitStore(form, s, fb).1.Success? then [EvSubmitStore(fb), EvSubmitRestart]
      else [EvSubmitStore(fb)]
    case Get => [EvGetFull]
    case Stop => [EvStopDevice, EvStopReset]
  }

  function EventsOfAll(form: DeltaForm, s: Csi, cs: seq<Call>): seq<Event>
    requires s.h.InRange()
  {
    if cs == [] then []
    else
      var front := cs[..|cs| - 1];
      EventsOfAll(form, s, front) + EventsOf(form, AfterCalls(form, s, front), cs[|cs| - 1])
  }

  lemma {:induction false} CallIsRun(form: DeltaForm, s: Csi, c: Call)
    requires s.h.InRange() && s.pc.Ready?
    ensures var es := EventsOf(form, s, c);
            Possible(form, s, es) && Exec(form, s, es) == AfterCall(form, s, c)
  {
    match c
    case Submit(fb) => OneOrTwo(form, s, EvSubmitStore(fb), EvSubmitRestart);
    case Get => OneOrTwo(form, s, EvGetFull, EvGetFull);
    case Stop => OneOrTwo(form, s, EvStopDevice, EvStopReset);
  }

  lemma {:induction false} CallsAreRun(form: DeltaForm, s: Csi, cs: seq<Call>)
    requires s.h.InRange() && s.pc.Ready?
    ensures var es := EventsOfAll(form, s, cs);
            Possible(form, s, es) && Exec(form, s, es) == AfterCalls(form, s, cs)
    decreases |cs|
  {
    if cs != [] {
      var front := cs[..|cs| - 1];
      CallsAreRun(form, s, front);
      var t := AfterCalls(form, s, front);
      CallIsRun(form, t, cs[|cs| - 1]);
      RunOn(form, s, EventsOfAll(form, s, front), EventsOf(form, t, cs[|cs| - 1]));
    }
  }

  /** One run after another. */
  lemma {:induction false} RunOn(form: DeltaForm, s: Csi, es: seq<Event>, fs: seq<Event>)
    requires s.h.InRange() && Possible(form, s, es) && Possible(form, Exec(form, s, es), fs)
    ensures Possible(form, s, es + fs)
    ensures Exec(form, s, es + fs) == Exec(form, Exec(form, s, es), fs)
    decreases |es|
  {
    if es == [] {
      assert es + fs == fs;
    } else {
      assert (es + fs)[0] == es[0] && (es + fs)[1..] == es[1..] + fs;
      RunOn(form, Step(form, s, es[0]), es[1..], fs);
    }
  }

  /** The interrupt handler with any callback is a run of the state machine. */
  lemma {:induction false} IrqIsRun(form: DeltaForm, s: Csi, cs: seq<Call>)
    requires s.h.InRange() && s.pc.Ready? && !s.inIrq && s.d.intEn
    ensures var t := IrqEnter(s);
            var es := if t.inIrq then [EvIrqEnter] + EventsOfAll(form, t, cs) + [EvIrqLeave]
                      else [EvIrqEnter];
            Possible(form, s, es) && Exec(form, s, es) == WholeIrq(form, s, cs)
  {
    var t := IrqEnter(s);
    OneOrTwo(form, s, EvIrqEnter, EvIrqLeave);
    if t.inIrq {
      var es := EventsOfAll(form, t, cs);
      CallsAreRun(form, t, cs);
      RunOn(form, s, [EvIrqEnter], es);
      var u := AfterCalls(form, t, cs);
      OneOrTwo(form, u, EvIrqLeave, EvIrqLeave);
      RunOn(form, s, [EvIrqEnter] + es, [EvIrqLeave]);
    }
  }

  lemma OneOrTwo(form: DeltaForm, s: Csi, e: Event, f: Event)
    requires s.h.InRange()
    ensures Exec(form, s, [e]) == Step(form, s, e)
    ensures Possible(form, s, [e]) <==> CanHappen(s, e)
    ensures Exec(form, s, [e, f]) == Step(form, Step(form, s, e), f)
    ensures Possible(form, s, [e, f]) <==> CanHappen(s, e) && CanHappen(Step(form, s, e), f)
  {
    assert [e][1..] == [] && [f][1..] == [] && [e, f][1..] == [f];
    var t := Step(form, s, e);
    assert Exec(form, t, [f]) == Step(form, t, f) && (Possible(form, t, [f]) <==> CanHappen(t, f));
  }

  /** A call does the same inside and outside the callback. */
  lemma CallIgnoresIrq(form: DeltaForm, s: Csi, c: Call)
    requires s.h.InRange()
    ensures AfterCall(form, s.(inIrq := false), c) == AfterCall(form, s, c).(inIrq := false)
  {
  }

  lemma {:induction false} CallsIgnoreIrq(form: DeltaForm, s: Csi, cs: seq<Call>)
    requires s.h.InRange()
    ensures AfterCalls(form, s.(inIrq := false), cs) == AfterCalls(form, s, cs).(inIrq := false)
    decreases |cs|
  {
    if cs != [] {
      var front := cs[..|cs| - 1];
      CallsIgnoreIrq(form, s, front);
      CallIgnoresIrq(form, AfterCalls(form, s, front), cs[|cs| - 1]);
    }
  }

  /** The handler's three branches, taken on the flags read before they are cleared. */
  lemma IrqBranches(form: DeltaForm, s: Csi, cs: seq<Call>)
    requires s.h.InRange() && !s.inIrq
    ensures var cleared := s.(d := s.d.(done1 := false, done2 := false));
            WholeIrq(form, s, cs) ==
            if s.d.done1 && s.d.done2 then IrqResync(cleared)
            else if s.d.done1 || s.d.done2 then
              IrqLeave(form, AfterCalls(form, FrameDone(cleared), cs))
            else cleared
  {
    var cleared := s.(d := s.d.(done1 := false, done2 := false));
    assert FrameDone(cleared) == FrameDone(s);
  }

  lemma LeaveEither(form: DeltaForm, s: Csi)
    requires s.h.InRange()
    ensures IrqLeave(form, s.(inIrq := false)) == IrqLeave(form, s)
  {
  }

  class Driver {
    const form: DeltaForm

    const frameBufferQueue: array<Address>
    var queueUserReadIdx: int
    var queueUserWriteIdx: int
    var queueDrvReadIdx: int
    var queueDrvWriteIdx: int
    var activeBufferNum: int
    var nextBufferIdx: Slot
    var transferStarted: bool
    var transferOnGoing: bool

    var dev: Device

    ghost var submitted: seq<Address>
    ghost var returned: seq<Address>

    ghost function HandleView(): Handle
      reads this, frameBufferQueue
    {
      Handle(frameBufferQueue[..], queueUserReadIdx, queueUserWriteIdx, queueDrvReadIdx,
             queueDrvWriteIdx, activeBufferNum, nextBufferIdx, transferStarted, transferOnGoing)
    }

    ghost function View(): Csi
      reads this, frameBufferQueue
    {
      Csi(HandleView(), dev, Ready, false, submitted, returned)
    }

    ghost predicate Valid()
      reads this, frameBufferQueue
    {
      HandleView().InRange()
    }

    /** CSI_TransferCreateHandle: the zeroed handle; the device is as a reset leaves it. */
    constructor (n: int, form: DeltaForm)
      requires 2 <= n <= 256
      ensures Valid() && fresh(frameBufferQueue) && this.form == form
      ensures View() == Init(n, 0)
    {
      this.form := form;
      frameBufferQueue := new Address[n](i => 0);
      queueUserReadIdx, queueUserWriteIdx := 0, 0;
      queueDrvReadIdx, queueDrvWriteIdx := 0, 0;
      activeBufferNum, nextBufferIdx := 0, FB1;
      transferStarted, transferOnGoing := false, false;
      dev := Device(0, 0, false, FB1, false, false, false);
      submitted, returned := [], [];
      new;
      assert frameBufferQueue[..] == Init(n, 0).h.queue;
    }

    method GetQueueDelta(startIdx: int, endIdx: int) returns (delta: int)
      requires 0 <= startIdx < frameBufferQueue.Length && 0 <= endIdx < frameBufferQueue.Length
      ensures delta == Delta(form, frameBufferQueue.Length, startIdx, endIdx)
    {
      if endIdx >= startIdx {
        return endIdx - startIdx;
      } else if form.Written? {
        return startIdx + frameBufferQueue.Length - endIdx;
      } else {
        return endIdx + frameBufferQueue.Length - startIdx;
      }
    }

    method IncreaseQueueIdx(idx: int) returns (ret: int)
      requires 0 <= idx < frameBufferQueue.Length
      ensures ret == Next(idx, frameBufferQueue.Length)
    {
      ret := idx + 1;
      if ret >= frameBufferQueue.Length {
        ret := 0;
      }
    }

    method LoadBufferToDevice()
      requires Valid()
      modifies this
      ensures Valid() && View() == Load(old(View()))
    {
      dev := dev.SetReg(nextBufferIdx, frameBufferQueue[queueDrvReadIdx]);
      queueDrvReadIdx := IncreaseQueueIdx(queueDrvReadIdx);
      activeBufferNum := (activeBufferNum + 1) % 256;
      nextBufferIdx := Flip(nextBufferIdx);
    }

    method LoadBothRegisters()
      requires Valid()
      modifies this
      ensures Valid() && View() == Load(Load(old(View())))
    {
      LoadBufferToDevice();
      LoadBufferToDevice();
    }

    method TransferStart() returns (status: Status)
      requires Valid()
      modifies this
      ensures Valid() && (View(), status) == StartStep(form, old(View()))
    {
      var emptyBufferCount := GetQueueDelta(queueDrvReadIdx, queueUserWriteIdx);
      if emptyBufferCount < 2 {
        return NoEmptyBuffer;
      }
      BeginTransfer();
      return Success;
    }

    /** The part of a start that follows the check. */
    method BeginTransfer()
      requires Valid()
      modifies this
      ensures Valid() && View() == Begin(old(View()))
    {
      nextBufferIdx := FB1;
      activeBufferNum := 0;
      LoadBothRegisters();
      ActivateTransfer();
    }

    method ActivateTransfer()
      requires Valid()
      modifies this
      ensures Valid() && View() == Activate(old(View()))
    {
      dev := dev.(hw := FB1);
      transferStarted := true;
      transferOnGoing := true;
      dev := dev.(intEn := true);
      dev := dev.(enabled := true);
    }

    method TransferStop()
      requires Valid()
      modifies this
      ensures Valid() && View() == StopReset(StopDevice(old(View())))
    {
      dev := dev.(enabled := false);
      dev := dev.(intEn := false);
      transferStarted := false;
      transferOnGoing := false;
      queueDrvReadIdx := queueDrvWriteIdx;
      activeBufferNum := 0;
    }

    method TransferSubmitEmptyBuffer(frameBuffer: Address) returns (status: Status)
      requires Valid()
      modifies this, frameBufferQueue
      ensures Valid() && status == SubmitStore(form, old(View()), frameBuffer).1
      ensures View() == WholeSubmit(form, old(View()), frameBuffer)
    {
      var used := GetQueueDelta(queueUserReadIdx, queueUserWriteIdx);
      if used == frameBufferQueue.Length - 1 {
        return QueueFull;
      }
      var savedIntEn := dev.intEn;
      dev := dev.(intEn := false);
      frameBufferQueue[queueUserWriteIdx] := frameBuffer;
      queueUserWriteIdx := IncreaseQueueIdx(queueUserWriteIdx);
      submitted := submitted + [frameBuffer];
      dev := dev.(intEn := savedIntEn);
      assert View() == SubmitStore(form, old(View()), frameBuffer).0.(pc := Ready);
      Restart();
      return Success;
    }

    /** The tail of a submit. */
    method Restart()
      requires Valid()
      modifies this
      ensures Valid() && View() == SubmitRestart(form, old(View()))
    {
      if transferStarted {
        var emptyBufferCount := GetQueueDelta(queueDrvReadIdx, queueUserWriteIdx);
        if !transferOnGoing && emptyBufferCount >= 2 {
          WakeTransfer();
        }
      }
    }

    method WakeTransfer()
      requires Valid()
      modifies this
      ensures Valid() && View() == Wake(old(View()))
    {
      transferOnGoing := true;
      nextBufferIdx := FB1;
      LoadBothRegisters();
      dev := dev.(hw := FB1);
      dev := dev.(enabled := true);
    }

    method TransferGetFullBuffer() returns (status: Status, frameBuffer: Address)
      requires Valid()
      modifies this
      ensures Valid() && (View(), status) == GetFull(old(View()))
      ensures status.Success? ==> returned == old(returned) + [frameBuffer]
    {
      frameBuffer := 0;
      if queueUserReadIdx == queueDrvWriteIdx {
        return NoFullBuffer, 0;
      }
      var savedIntEn := dev.intEn;
      dev := dev.(intEn := false);
      frameBuffer := frameBufferQueue[queueUserReadIdx];
      queueUserReadIdx := IncreaseQueueIdx(queueUserReadIdx);
      returned := returned + [frameBuffer];
      dev := dev.(intEn := savedIntEn);
      return Success, frameBuffer;
    }

    /** The interrupt handler; its callback makes the calls `cs`. */
    method TransferHandleIRQ(cs: seq<Call>)
      requires Valid()
      modifies this, frameBufferQueue
      ensures Valid() && View() == WholeIrq(form, old(View()), cs)
    {
      IrqBranches(form, View(), cs);
      var done1, done2 := dev.done1, dev.done2;
      dev := dev.(done1 := false, done2 := false);
      if done1 && done2 {
        ResetActiveBuffers();
      } else if done1 || done2 {
        ServeFrame(cs);
      }
    }

    method ServeFrame(cs: seq<Call>)
      requires Valid()
      modifies this, frameBufferQueue
      ensures Valid()
      ensures View() == IrqLeave(form, AfterCalls(form, FrameDone(old(View())), cs))
    {
      FileFrame();
      Callback(cs);
      CallsIgnoreIrq(form, FrameDone(old(View())), cs);
      LeaveEither(form, AfterCalls(form, FrameDone(old(View())), cs));
      StopOrRefill();
    }

    /** A user callback. */
    method Callback(cs: seq<Call>)
      requires Valid()
      modifies this, frameBufferQueue
      ensures Valid() && View() == AfterCalls(form, old(View()), cs)
    {
      assert cs[..0] == [];
      for i := 0 to |cs|
        invariant Valid() && View() == AfterCalls(form, old(View()), cs[..i])
      {
        assert cs[..i + 1][..i] == cs[..i];
        MakeCall(cs[i]);
      }
      assert cs[..|cs|] == cs;
    }

    method MakeCall(c: Call)
      requires Valid()
      modifies this, frameBufferQueue
      ensures Valid() && View() == AfterCall(form, old(View()), c)
    {
      match c
      case Submit(fb) =>
        var _ := TransferSubmitEmptyBuffer(fb);
      case Get =>
        var _, _ := TransferGetFullBuffer();
      case Stop =>
        TransferStop();
    }

    /** The oldest active buffer becomes full. */
    method FileFrame()
      requires Valid()
      modifies this
      ensures Valid() && View() == FrameDone(old(View())).(inIrq := false)
    {
      dev := dev.(done1 := false, done2 := false);
      queueDrvWriteIdx := IncreaseQueueIdx(queueDrvWriteIdx);
      activeBufferNum := (activeBufferNum + 255) % 256;
    }

    /** The handler after the callback. */
    method StopOrRefill()
      requires Valid()
      modifies this
      ensures Valid() && View() == IrqLeave(form, old(View()))
    {
      if activeBufferNum == 0 {
        dev := dev.(enabled := false);
        transferOnGoing := false;
      } else {
        var emptyBufferCount := GetQueueDelta(queueDrvReadIdx, queueUserWriteIdx);
        if emptyBufferCount != 0 {
          LoadBufferToDevice();
        }
      }
    }

    /** The both-flags branch of the interrupt handler. */
    method ResetActiveBuffers()
      requires Valid()
      modifies this
      ensures Valid() && View() == IrqResync(old(View()))
    {
      dev := dev.(done1 := false, done2 := false);
      dev := dev.(enabled := false);
      if 1 <= activeBufferNum {
        var drvWriteIdx := queueDrvWriteIdx;
        dev := dev.(fb1 := frameBufferQueue[drvWriteIdx]);
        if activeBufferNum == 2 {
          drvWriteIdx := IncreaseQueueIdx(drvWriteIdx);
          dev := dev.(fb2 := frameBufferQueue[drvWriteIdx]);
          nextBufferIdx := FB1;
        } else {
          nextBufferIdx := FB2;
        }
      }
      dev := dev.(hw := FB1);
      dev := dev.(enabled := true);
    }
  }
}
