/** The camera (CSI) frame-buffer queue as a state machine.

    One circular array holds, from `userRead` on, the full buffers, the active
    buffers (those loaded in the two DMA address registers) and the empty
    buffers.  User calls, the DMA engine and the interrupt handler take turns;
    a user call that the interrupt may cut in two is two events here. */
module CsiSpec {
  import opened Ring

  type Address = bv32

  /** The two DMA address registers. */
  datatype Slot = FB1 | FB2

  function Flip(b: Slot): Slot { if b.FB1? then FB2 else FB1 }

  datatype Status = Success | NoEmptyBuffer | NoFullBuffer | QueueFull

  /** `Written` is the index difference as the driver computes it; `Modular` is the
      distance that its documentation describes. */
  datatype DeltaForm = Written | Modular

  /** What is left to do of a user call that has been cut by the interrupt. */
  datatype UserPc = Ready | Restarting | Stopping

  /** The driver's handle. */
  datatype Handle = Handle(
    queue: seq<Address>,
    userRead: int, userWrite: int, drvRead: int, drvWrite: int,
    active: int, next: Slot, started: bool, ongoing: bool)
  {
    function N(): int { |queue| }

    predicate InRange() {
      && 2 <= N() <= 256
      && 0 <= userRead < N() && 0 <= userWrite < N()
      && 0 <= drvRead < N() && 0 <= drvWrite < N()
      && 0 <= active < 256
    }
  }

  /** The part of the CSI peripheral that the transfer functions use. */
  datatype Device = Device(
    fb1: Address, fb2: Address, enabled: bool, hw: Slot,
    done1: bool, done2: bool, intEn: bool)
  {
    function Reg(b: Slot): Address { if b.FB1? then fb1 else fb2 }

    function Done(b: Slot): bool { if b.FB1? then done1 else done2 }

    function SetReg(b: Slot, a: Address): Device {
      if b.FB1? then this.(fb1 := a) else this.(fb2 := a)
    }

    /** How many of the two completion flags are set. */
    function Pending(): int { (if done1 then 1 else 0) + (if done2 then 1 else 0) }
  }

  /** Handle, device, the user's program counter, whether the user callback is running,
      and the log of the buffers accepted and of those handed back. */
  datatype Csi = Csi(
    h: Handle, d: Device, pc: UserPc, inIrq: bool,
    submitted: seq<Address>, returned: seq<Address>)

  function Init(n: int, blank: Address): (s: Csi)
    requires 2 <= n <= 256
    ensures s.h.InRange()
  {
    Csi(Handle(seq(n, i => blank), 0, 0, 0, 0, 0, FB1, false, false),
        Device(blank, blank, false, FB1, false, false, false), Ready, false, [], [])
  }

  function Delta(form: DeltaForm, n: int, start: int, end: int): int
    requires 0 <= start < n && 0 <= end < n
  {
    if end >= start then end - start
    else if form.Written? then start + n - end
    else end + n - start
  }

  function EmptyCount(form: DeltaForm, h: Handle): int
    requires h.InRange()
  {
    Delta(form, h.N(), h.drvRead, h.userWrite)
  }

  /** Moves the oldest empty buffer into the register that is due next. */
  function Load(s: Csi): (t: Csi)
    requires s.h.InRange()
    ensures t.h.InRange() && t.h.N() == s.h.N()
  {
    s.(d := s.d.SetReg(s.h.next, s.h.queue[s.h.drvRead]),
       h := s.h.(drvRead := Next(s.h.drvRead, s.h.N()),
                 active := (s.h.active + 1) % 256,
                 next := Flip(s.h.next)))
  }

  /** Loads both registers and starts the device. */
  function Begin(s: Csi): (r: Csi)
    requires s.h.InRange()
    ensures r.h.InRange() && r.h.N() == s.h.N()
  {
    Activate(Load(Load(s.(h := s.h.(next := FB1, active := 0)))))
  }

  /** The transfer is on: flags set, DMA reset to the first register, interrupts enabled. */
  function Activate(s: Csi): Csi {
    s.(h := s.h.(started := true, ongoing := true),
       d := s.d.(hw := FB1, intEn := true, enabled := true))
  }

  function StartStep(form: DeltaForm, s: Csi): (r: (Csi, Status))
    requires s.h.InRange()
    ensures r.0.h.InRange() && r.0.h.N() == s.h.N()
  {
    if EmptyCount(form, s.h) < 2 then (s, NoEmptyBuffer) else (Begin(s), Success)
  }

  /** First half of a stop: the device stops receiving. */
  function StopDevice(s: Csi): Csi {
    s.(d := s.d.(enabled := false), pc := Stopping)
  }

  /** Second half of a stop: interrupts off, active buffers back to empty. */
  function StopReset(s: Csi): Csi {
    s.(d := s.d.(intEn := false), pc := Ready,
       h := s.h.(started := false, ongoing := false, drvRead := s.h.drvWrite, active := 0))
  }

  /** First half of a submit, run with the completion interrupts masked. */
  function SubmitStore(form: DeltaForm, s: Csi, fb: Address): (r: (Csi, Status))
    requires s.h.InRange()
    ensures r.0.h.InRange() && r.0.h.N() == s.h.N()
  {
    if Delta(form, s.h.N(), s.h.userRead, s.h.userWrite) == s.h.N() - 1 then (s, QueueFull)
    else
      (s.(h := s.h.(queue := s.h.queue[s.h.userWrite := fb],
                    userWrite := Next(s.h.userWrite, s.h.N())),
          submitted := s.submitted + [fb], pc := Restarting),
       Success)
  }

  /** Loads both registers again and restarts the device. */
  function Wake(s: Csi): (t: Csi)
    requires s.h.InRange()
    ensures t.h.InRange() && t.h.N() == s.h.N()
  {
    var t := Load(Load(s.(h := s.h.(ongoing := true, next := FB1), pc := Ready)));
    t.(d := t.d.(hw := FB1, enabled := true))
  }

  /** Second half of a submit: wake a transfer that had run out of buffers. */
  function SubmitRestart(form: DeltaForm, s: Csi): (r: Csi)
    requires s.h.InRange()
    ensures r.h.InRange() && r.h.N() == s.h.N()
  {
    if s.h.started && !s.h.ongoing && EmptyCount(form, s.h) >= 2 then Wake(s)
    else s.(pc := Ready)
  }

  function GetFull(s: Csi): (r: (Csi, Status))
    requires s.h.InRange()
    ensures r.0.h.InRange() && r.0.h.N() == s.h.N()
  {
    if s.h.userRead == s.h.drvWrite then (s, NoFullBuffer)
    else
      (s.(h := s.h.(userRead := Next(s.h.userRead, s.h.N())),
          returned := s.returned + [s.h.queue[s.h.userRead]]),
       Success)
  }

  /** The DMA engine finishes a frame: raises that register's flag and turns to the other. */
  function Complete(s: Csi): Csi {
    s.(d := s.d.(done1 := s.d.done1 || s.d.hw.FB1?, done2 := s.d.done2 || s.d.hw.FB2?,
                 hw := Flip(s.d.hw)))
  }

  /** Both flags set: reload the active buffers and restart from the first register. */
  function IrqResync(s: Csi): (t: Csi)
    requires s.h.InRange()
    ensures t.h.InRange() && t.h.N() == s.h.N()
  {
    var d := s.d.(done1 := false, done2 := false, hw := FB1, enabled := true);
    var first := s.h.queue[s.h.drvWrite];
    if s.h.active == 2 then
      s.(d := d.(fb1 := first, fb2 := s.h.queue[Next(s.h.drvWrite, s.h.N())]),
         h := s.h.(next := FB1))
    else if 1 <= s.h.active then
      s.(d := d.(fb1 := first), h := s.h.(next := FB2))
    else s.(d := d)
  }

  /** One flag set: the oldest active buffer is full. */
  function FrameDone(s: Csi): (t: Csi)
    requires s.h.InRange()
    ensures t.h.InRange() && t.h.N() == s.h.N()
  {
    s.(d := s.d.(done1 := false, done2 := false), inIrq := true,
       h := s.h.(drvWrite := Next(s.h.drvWrite, s.h.N()), active := (s.h.active + 255) % 256))
  }

  /** The interrupt handler up to the user callback. */
  function IrqEnter(s: Csi): (t: Csi)
    requires s.h.InRange()
    ensures t.h.InRange() && t.h.N() == s.h.N()
  {
    if s.d.done1 && s.d.done2 then IrqResync(s)
    else if s.d.done1 || s.d.done2 then FrameDone(s)
    else s
  }

  /** The interrupt handler after the user callback. */
  function IrqLeave(form: DeltaForm, s: Csi): (t: Csi)
    requires s.h.InRange()
    ensures t.h.InRange() && t.h.N() == s.h.N()
  {
    if s.h.active == 0 then
      s.(inIrq := false, d := s.d.(enabled := false), h := s.h.(ongoing := false))
    else if EmptyCount(form, s.h) != 0 then Load(s.(inIrq := false))
    else s.(inIrq := false)
  }

  /** The user clears the status register while no transfer is started. */
  function ClearStatus(s: Csi): Csi {
    s.(d := s.d.(done1 := false, done2 := false))
  }

  datatype Event =
    | EvSubmitStore(fb: Address)
    | EvSubmitRestart
    | EvGetFull
    | EvStart
    | EvStopDevice
    | EvStopReset
    | EvClearStatus
    | EvComplete
    | EvIrqEnter
    | EvIrqLeave

  /** Which events can happen.  For the DMA engine: only while enabled, and during a
      transfer it never completes a frame in a register that has not been loaded. */
  predicate CanHappen(s: Csi, e: Event) {
    match e
    case EvSubmitStore(_) => s.pc.Ready?
    case EvSubmitRestart => s.pc.Restarting?
    case EvGetFull => s.pc.Ready?
    case EvStart => s.pc.Ready? && !s.h.ongoing && !s.inIrq
    case EvStopDevice => s.pc.Ready?
    case EvStopReset => s.pc.Stopping?
    case EvClearStatus => s.pc.Ready? && !s.h.started
    case EvComplete =>
      && s.d.enabled
      && (!s.h.started || s.d.Pending() < s.h.active || s.d.Pending() == s.h.active == 2)
    case EvIrqEnter => s.d.intEn && !s.inIrq
    case EvIrqLeave => s.inIrq
  }

  function Step(form: DeltaForm, s: Csi, e: Event): (t: Csi)
    requires s.h.InRange()
    ensures t.h.InRange() && t.h.N() == s.h.N()
  {
    match e
    case EvSubmitStore(fb) => SubmitStore(form, s, fb).0
    case EvSubmitRestart => SubmitRestart(form, s)
    case EvGetFull => GetFull(s).0
    case EvStart => StartStep(form, s).0
    case EvStopDevice => StopDevice(s)
    case EvStopReset => StopReset(s)
    case EvClearStatus => ClearStatus(s)
    case EvComplete => Complete(s)
    case EvIrqEnter => IrqEnter(s)
    case EvIrqLeave => IrqLeave(form, s)
  }

  /** The state after a whole run. */
  function Exec(form: DeltaForm, s: Csi, es: seq<Event>): (t: Csi)
    requires s.h.InRange()
    ensures t.h.InRange() && t.h.N() == s.h.N()
    decreases |es|
  {
    if es == [] then s else Exec(form, Step(form, s, es[0]), es[1..])
  }

  /** Every event of the run could happen where it did. */
  predicate Possible(form: DeltaForm, s: Csi, es: seq<Event>)
    requires s.h.InRange()
    decreases |es|
  {
    es == [] || (CanHappen(s, es[0]) && Possible(form, Step(form, s, es[0]), es[1..]))
  }
}
