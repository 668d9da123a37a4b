/** The transmit wait handshake: one sender, the DMA engine and the transmit interrupt,
    which share the ring, a waiting flag and a semaphore. */
module EnetHandshake {
  import opened Ring
  import opened EnetRing
  import opened EnetSend

  /** Where the sender stands: trying to send, about to raise the flag after a busy result,
      or taking the semaphore. */
  datatype Pc = Idle | Trying(data: seq<Byte>) | Flagging(data: seq<Byte>) | Taking(data: seq<Byte>)

  /** `irq` is the pending transmit event.  History: `drained` records that at the last flag
      write nothing was in flight and no event was pending; `released` and `taken` count
      semaphore operations. */
  datatype State = State(
    tx: Tx, pc: Pc, waiting: bool, sem: int, irq: bool,
    drained: bool, released: int, taken: int)

  datatype Event =
    | Begin(data: seq<Byte>)  // the stack hands over a frame
    | Try
    | RaiseFlag
    | Take
    | EngineDone              // the engine transmits a descriptor and raises the event
    | Interrupt               // the handler clears the event and runs the callback

  function Init(n: int): State
    requires 0 < n
  {
    State(EnetRing.Init(n), Idle, false, 0, false, false, 0, 0)
  }

  predicate CanHappen(s: State, e: Event) {
    match e
    case Begin(_) => s.pc.Idle?
    case Try => s.pc.Trying?
    case RaiseFlag => s.pc.Flagging?
    case Take => s.pc.Taking? && s.sem > 0
    case EngineDone => CanTransmit(s.tx)
    case Interrupt => s.irq
  }

  /** A send when, as configured, one buffer takes any frame. */
  function SendOne(t: Tx, data: seq<Byte>): (Tx, Status)
    requires t.InRange()
  {
    if |data| > MAX_FRAME_LEN then (t, TxFrameOverLen)
    else if t.bds[t.cur].ready then (t, TxFrameBusy)
    else (Post(t, data, true), Success)
  }

  function Step(s: State, e: Event): State
    requires s.tx.InRange() && CanHappen(s, e)
  {
    match e
    case Begin(data) => s.(pc := Trying(data))
    case Try =>
      var (tx, status) := SendOne(s.tx, s.pc.data);
      s.(tx := tx, pc := if status.TxFrameBusy? then Flagging(s.pc.data) else Idle)
    case RaiseFlag =>
      s.(waiting := true, pc := Taking(s.pc.data), drained := s.tx.InFlight() == 0 && !s.irq)
    case Take => s.(sem := s.sem - 1, taken := s.taken + 1, pc := Trying(s.pc.data))
    case EngineDone => s.(tx := Transmit(s.tx), irq := true)
    case Interrupt =>
      if s.waiting then s.(irq := false, waiting := false, sem := s.sem + 1, released := s.released + 1)
      else s.(irq := false)
  }

  /** The flag is up and nothing will ever lower it. */
  predicate LostWakeup(s: State) {
    s.pc.Taking? && s.waiting && s.drained
  }

  /** Flag and semaphore together hold a token exactly while the sender takes; a waiting
      sender has something to wake it unless the ring had drained before the flag write. */
  predicate HandshakeInv(s: State) {
    && (if s.waiting then 1 else 0) + s.sem == (if s.pc.Taking? then 1 else 0)
    && s.sem >= 0
    && s.released == s.taken + s.sem
    && (s.waiting ==> (s.drained <==> s.tx.InFlight() == 0 && !s.irq))
  }

  predicate Inv(s: State) {
    EnetRing.Inv(s.tx) && HandshakeInv(s)
  }

  lemma SendOneKeepsInv(t: Tx, data: seq<Byte>)
    requires EnetRing.Inv(t)
    ensures EnetRing.Inv(SendOne(t, data).0)
    ensures SendOne(t, data).1.TxFrameBusy? <==>
              |data| <= MAX_FRAME_LEN && t.InFlight() == t.N()
  {
    BusyExactlyWhenFull(t);
    if |data| <= MAX_FRAME_LEN && !t.bds[t.cur].ready {
      PostKeepsInv(t, data, true);
    }
  }

  lemma StepKeepsInv(s: State, e: Event)
    requires Inv(s) && CanHappen(s, e)
    ensures Inv(Step(s, e)) && Step(s, e).tx.N() == s.tx.N()
  {
    match e
    case Try => SendOneKeepsInv(s.tx, s.pc.data);
    case EngineDone =>
      CanTransmitExactlyWhenInFlight(s.tx);
      TransmitKeepsInv(s.tx);
    case _ =>
  }

  /** `trace` is a run: each state follows from the one before by an event that can happen. */
  predicate IsRun(trace: seq<State>, es: seq<Event>) {
    && |trace| == |es| + 1
    && forall i :: 0 <= i < |es| ==>
         trace[i].tx.InRange() && CanHappen(trace[i], es[i]) && trace[i + 1] == Step(trace[i], es[i])
  }

  lemma {:induction false} RunKeepsInv(trace: seq<State>, es: seq<Event>, k: int)
    requires IsRun(trace, es) && 0 <= k <= |es| && Inv(trace[0])
    ensures Inv(trace[k])
  {
    if k > 0 {
      RunKeepsInv(trace, es, k - 1);
      StepKeepsInv(trace[k - 1], es[k - 1]);
    }
  }

  /** In every run the flag and the semaphore together never exceed one token, and every
      token released has been taken at most once. */
  lemma OneTokenAtMost(n: int, trace: seq<State>, es: seq<Event>, k: int)
    requires 0 < n && IsRun(trace, es) && trace[0] == Init(n) && 0 <= k <= |es|
    ensures var s := trace[k];
            && (if s.waiting then 1 else 0) + s.sem <= 1
            && s.taken <= s.released <= s.taken + 1
  {
    RunKeepsInv(trace, es, k);
  }

  /** No event can happen any more. */
  ghost predicate Stuck(s: State) {
    forall e :: !CanHappen(s, e)
  }

  /** The reachable stuck states are exactly the lost wakeups: the whole ring drained, and
      its interrupt was served, between the busy result and the flag write. */
  lemma StuckExactlyWhenLost(n: int, trace: seq<State>, es: seq<Event>, k: int)
    requires 0 < n && IsRun(trace, es) && trace[0] == Init(n) && 0 <= k <= |es|
    ensures Stuck(trace[k]) <==> LostWakeup(trace[k])
  {
    RunKeepsInv(trace, es, k);
    var s := trace[k];
    CanTransmitExactlyWhenInFlight(s.tx);
    if !LostWakeup(s) {
      match s.pc
      case Idle => assert CanHappen(s, Begin([]));
      case Trying(_) => assert CanHappen(s, Try);
      case Flagging(_) => assert CanHappen(s, RaiseFlag);
      case Taking(_) =>
        assert CanHappen(s, Take) || CanHappen(s, Interrupt) || CanHappen(s, EngineDone);
    }
  }

  /** What the engine and the interrupt still have to do. */
  function Work(s: State): int {
    2 * s.tx.InFlight() + (if s.irq then 1 else 0)
  }

  /** A sender that waits with work outstanding is woken: whatever the engine and the
      interrupt do, they stop after at most `Work` events, and then the token is there. */
  lemma {:induction false} WaitingSenderIsWoken(trace: seq<State>, es: seq<Event>)
    requires IsRun(trace, es) && Inv(trace[0])
    requires trace[0].pc.Taking? && !LostWakeup(trace[0])
    requires forall i :: 0 <= i < |es| ==> es[i] == EngineDone || es[i] == Interrupt
    ensures |es| <= Work(trace[0])
    ensures var s := trace[|es|];
            !CanHappen(s, EngineDone) && !CanHappen(s, Interrupt) ==> CanHappen(s, Take)
    decreases |es|
  {
    CanTransmitExactlyWhenInFlight(trace[0].tx);
    if es != [] {
      StepKeepsInv(trace[0], es[0]);
      if es[0].EngineDone? {
        TransmitKeepsInv(trace[0].tx);
      }
      assert forall i :: 0 <= i < |es[1..]| ==> es[1..][i] == es[i + 1] && trace[1..][i] == trace[i + 1];
      WaitingSenderIsWoken(trace[1..], es[1..]);
    }
  }

  // ----- No frame is dropped -----

  /** A frame as the one fragment it is sent in, if it is short enough to be sent. */
  function AsFragment(data: seq<Byte>): seq<Frag> {
    if |data| <= 1518 then [Frag(data, true)] else []
  }

  /** What the frames that the stack handed over are to be on the wire, in order. */
  function HandedOver(es: seq<Event>): seq<Frag> {
    if es == [] then []
    else
      var e := es[|es| - 1];
      HandedOver(es[..|es| - 1]) + (if e.Begin? then AsFragment(e.data) else [])
  }

  /** The frame the sender still holds. */
  function InHand(pc: Pc): seq<Frag> {
    if pc.Idle? then [] else AsFragment(pc.data)
  }

  lemma StepKeepsFrames(s: State, e: Event)
    requires Inv(s) && CanHappen(s, e)
    ensures var t := Step(s, e);
            t.tx.posted + InHand(t.pc)
            == s.tx.posted + InHand(s.pc) + (if e.Begin? then AsFragment(e.data) else [])
  {
    BusyExactlyWhenFull(s.tx);
  }

  /** In every run the frames handed over are the frames posted, each once, byte for byte and in
      order, followed by the one the sender still holds: a busy result and a wait lose none. */
  lemma {:induction false} NoFrameDropped(n: int, trace: seq<State>, es: seq<Event>, k: int)
    requires 0 < n && IsRun(trace, es) && trace[0] == Init(n) && 0 <= k <= |es|
    ensures HandedOver(es[..k]) == trace[k].tx.posted + InHand(trace[k].pc)
  {
    if k > 0 {
      NoFrameDropped(n, trace, es, k - 1);
      RunKeepsInv(trace, es, k - 1);
      StepKeepsFrames(trace[k - 1], es[k - 1]);
      assert es[..k][..k - 1] == es[..k - 1];
    }
  }

  /** On a ring of one descriptor a run loses the wakeup: the second send is busy, the first
      frame leaves and its interrupt is served, and only then the flag goes up. */
  lemma LostWakeupIsReachable() returns (trace: seq<State>, es: seq<Event>)
    ensures IsRun(trace, es) && trace[0] == Init(1) && LostWakeup(trace[|es|])
  {
    var s0 := Init(1);
    var s1 := Step(s0, Begin([]));
    var s2 := Step(s1, Try);
    var s3 := Step(s2, Begin([]));
    var s4 := Step(s3, Try);
    var s5 := Step(s4, EngineDone);
    var s6 := Step(s5, Interrupt);
    var s7 := Step(s6, RaiseFlag);
    trace := [s0, s1, s2, s3, s4, s5, s6, s7];
    es := [Begin([]), Try, Begin([]), Try, EngineDone, Interrupt, RaiseFlag];
  }
}
