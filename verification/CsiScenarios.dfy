/** Where the camera driver as written goes wrong: what an aimed-at slot holds after a load
    trap, and concrete runs on the default queue of four that reach each trap and each way for
    the DMA engine and the driver to fall out of step. */
module CsiScenarios {
  import opened Ring
  import opened CsiSpec
  import opened CsiProofs

  // ----- What the slots of the array remember -----

  /** How many submits ago slot `j` was last written. */
  function Age(h: Handle, j: int): int
    requires h.InRange() && 0 <= j < h.N()
  {
    if j == h.userWrite then h.N() else Dist(j, h.userWrite, h.N())
  }

  /** Every slot that was ever written holds the buffer of its last submit. */
  predicate Remembers(s: Csi)
    requires s.h.InRange()
  {
    && (|s.submitted| < s.h.N() ==> s.h.userWrite == |s.submitted|)
    && forall j :: 0 <= j < s.h.N() && Age(s.h, j) <= |s.submitted| ==>
         s.h.queue[j] == s.submitted[|s.submitted| - Age(s.h, j)]
  }

  lemma AgeAfterSubmit(h: Handle, fb: Address, j: int)
    requires h.InRange() && 0 <= j < h.N()
    ensures var t := h.(queue := h.queue[h.userWrite := fb], userWrite := Next(h.userWrite, h.N()));
            Age(t, j) == if j == h.userWrite then 1 else Age(h, j) + 1
  {
  }

  lemma SubmitRemembers(form: DeltaForm, s: Csi, fb: Address)
    requires s.h.InRange() && Remembers(s)
    ensures Remembers(SubmitStore(form, s, fb).0)
  {
    var t := SubmitStore(form, s, fb).0;
    if t.submitted == s.submitted + [fb] {
      forall j | 0 <= j < s.h.N() && Age(t.h, j) <= |t.submitted|
        ensures t.h.queue[j] == t.submitted[|t.submitted| - Age(t.h, j)]
      {
        AgeAfterSubmit(s.h, fb, j);
      }
    }
  }

  lemma StepRemembers(form: DeltaForm, s: Csi, e: Event)
    requires s.h.InRange() && Remembers(s)
    ensures Remembers(Step(form, s, e))
  {
    if e.EvSubmitStore? {
      SubmitRemembers(form, s, e.fb);
    } else {
      OthersStoreNothing(form, s, e);
    }
  }

  lemma OthersStoreNothing(form: DeltaForm, s: Csi, e: Event)
    requires s.h.InRange() && !e.EvSubmitStore?
    ensures var t := Step(form, s, e);
            && t.h.queue == s.h.queue && t.h.userWrite == s.h.userWrite
            && t.submitted == s.submitted && (e.EvGetFull? || t.returned == s.returned)
  {
  }

  lemma {:induction false} RunRemembers(form: DeltaForm, s: Csi, es: seq<Event>)
    requires s.h.InRange() && Remembers(s)
    ensures Remembers(Exec(form, s, es))
    decreases |es|
  {
    if es != [] {
      StepRemembers(form, s, es[0]);
      RunRemembers(form, Step(form, s, es[0]), es[1..]);
    }
  }

  /** The buffer in slot `j` was submitted a whole array ago and has been handed back. */
  predicate HandedBack(s: Csi, j: int)
    requires s.h.InRange() && 0 <= j < s.h.N()
  {
    && 0 <= |s.submitted| - s.h.N() < |s.returned|
    && s.h.queue[j] == s.returned[|s.submitted| - s.h.N()]
  }

  /** When the user's write index is back at zero and the driver's read index at the last slot,
      the first slot still holds the buffer submitted a whole array earlier. */
  lemma FirstSlotIsHandedBack(s: Csi)
    requires Ordered(s.h) && Conserved(s) && Remembers(s)
    requires s.h.userWrite == 0 && s.h.drvRead == s.h.N() - 1
    ensures HandedBack(s, 0)
  {
    assert s.h.userRead != 0;
    assert |Held(s.h)| == Dist(s.h.userRead, s.h.userWrite, s.h.N());
    assert Age(s.h, 0) == s.h.N();
  }

  lemma FirstSlotInRun(n: int, blank: Address, es: seq<Event>)
    requires 2 <= n <= 256 && Sound(Written, n, blank, es)
    ensures var s := Exec(Written, Init(n, blank), es);
            && Inv(s)
            && (s.h.userWrite == 0 && s.h.drvRead == n - 1 ==> HandedBack(s, 0))
  {
    var s := Exec(Written, Init(n, blank), es);
    SoundRun(Written, n, blank, es);
    InitRemembers(n, blank);
    RunRemembers(Written, Init(n, blank), es);
    if s.h.userWrite == 0 && s.h.drvRead == n - 1 {
      FirstSlotIsHandedBack(s);
    }
  }

  lemma LoadTrapIsIdle(s: Csi, e: Event)
    requires Inv(s) && CanHappen(s, e) && Trap(s, e) && !e.EvSubmitStore?
    ensures s.h.active == 0 && s.h.userWrite == 0 && s.h.drvRead == s.h.N() - 1
  {
  }

  /** Whenever a run of the driver as written meets its first load trap, the engine is started
      with the second register aimed at a buffer that was handed back to the user: the one
      submitted a whole array earlier. */
  lemma LoadTrapAimsAtHandedBack(n: int, blank: Address, es: seq<Event>, e: Event)
    requires 2 <= n <= 256 && Sound(Written, n, blank, es) && !e.EvSubmitStore?
    requires var s := Exec(Written, Init(n, blank), es); CanHappen(s, e) && Trap(s, e)
    ensures var s := Exec(Written, Init(n, blank), es);
            var t := Step(Written, s, e);
            && t.d.enabled && t.h.active == 2
            && HandedBack(s, 0) && t.d.fb2 == s.h.queue[0] && t.returned == s.returned
  {
    var s := Exec(Written, Init(n, blank), es);
    FirstSlotInRun(n, blank, es);
    LoadTrapIsIdle(s, e);
    TrapLoads(s, e);
    OthersStoreNothing(Written, s, e);
  }

  lemma InitRemembers(n: int, blank: Address)
    requires 2 <= n <= 256
    ensures Remembers(Init(n, blank))
  {
  }

  // ----- Concrete runs on the default queue of four -----

  /** A run that leads to `t`. */
  predicate Leads(es: seq<Event>, t: Csi) {
    Possible(Written, Init(5, 0), es) && Exec(Written, Init(5, 0), es) == t
  }

  /** A run extended by one event. */
  lemma Then(es: seq<Event>, s: Csi, e: Event) returns (more: seq<Event>)
    requires Leads(es, s) && s.h.InRange() && CanHappen(s, e)
    ensures more == es + [e] && Leads(more, Step(Written, s, e))
  {
    more := es + [e];
    RunThen(Written, Init(5, 0), es, e);
  }

  lemma {:induction false} RunThen(form: DeltaForm, s: Csi, es: seq<Event>, e: Event)
    requires s.h.InRange() && Possible(form, s, es) && CanHappen(Exec(form, s, es), e)
    ensures Possible(form, s, es + [e])
    ensures Exec(form, s, es + [e]) == Step(form, Exec(form, s, es), e)
    decreases |es|
  {
    if es == [] {
      assert ([] + [e])[1..] == [];
    } else {
      assert (es + [e])[0] == es[0] && (es + [e])[1..] == es[1..] + [e];
      RunThen(form, Step(form, s, es[0]), es[1..], e);
    }
  }

  /** Before a start: the first `k` of the buffers `b` are submitted, nothing else. */
  function Submitted(k: int, b: seq<Address>): Csi
    requires 0 <= k <= 4 == |b|
  {
    var s := Init(5, 0);
    s.(h := s.h.(queue := seq(5, i => if 0 <= i < k then b[i] else 0), userWrite := k),
       submitted := b[..k])
  }

  lemma {:induction false} SubmitsOnly(k: int, b: seq<Address>) returns (es: seq<Event>)
    requires 0 <= k <= 4 == |b|
    ensures Leads(es, Submitted(k, b))
  {
    if k == 0 {
      assert Submitted(0, b).h.queue == Init(5, 0).h.queue;
      es := [];
    } else {
      es := SubmitsOnly(k - 1, b);
      var s := Submitted(k - 1, b);
      assert s.h.queue[k - 1 := b[k - 1]] == Submitted(k, b).h.queue;
      assert s.submitted + [b[k - 1]] == Submitted(k, b).submitted;
      var t := SubmitStore(Written, s, b[k - 1]).0;
      es := Then(es, s, EvSubmitStore(b[k - 1]));
      es := Then(es, t, EvSubmitRestart);
    }
  }

  /** A state between calls of a started transfer that holds no completion flag. */
  function Started(
    queue: seq<Address>, userRead: int, userWrite: int, drvRead: int, drvWrite: int,
    active: int, next: Slot, on: bool, fb1: Address, fb2: Address, hw: Slot,
    submitted: seq<Address>, returned: seq<Address>): Csi
  {
    Csi(Handle(queue, userRead, userWrite, drvRead, drvWrite, active, next, true, on),
        Device(fb1, fb2, on, hw, false, false, true), Ready, false, submitted, returned)
  }

  /** Four submits and a start. */
  function Streaming(b: seq<Address>): Csi
    requires |b| == 4
  {
    Started(b + [0], 0, 4, 2, 0, 2, FB1, true, b[0], b[1], FB1, b, [])
  }

  lemma Streams(b: seq<Address>) returns (es: seq<Event>)
    requires |b| == 4
    ensures Leads(es, Streaming(b))
  {
    es := SubmitsOnly(4, b);
    var s := Submitted(4, b);
    assert s.h.queue == b + [0] && s.submitted == b;
    es := Then(es, s, EvStart);
  }

  /** A frame is completed and its interrupt served. */
  function Served(s: Csi): Csi
    requires s.h.InRange()
  {
    IrqLeave(Written, IrqEnter(Complete(s)))
  }

  lemma Serve(es: seq<Event>, s: Csi) returns (more: seq<Event>)
    requires Leads(es, s) && s.h.InRange()
    requires s.d.enabled && s.d.intEn && !s.inIrq && s.d.Pending() == 0 < s.h.active
    ensures Leads(more, Served(s))
  {
    more := Then(es, s, EvComplete);
    more := Then(more, Complete(s), EvIrqEnter);
    more := Then(more, IrqEnter(Complete(s)), EvIrqLeave);
  }

  lemma OneServed(b: seq<Address>) returns (es: seq<Event>)
    requires |b| == 4
    ensures Leads(es, Started(b + [0], 0, 4, 3, 1, 2, FB2, true, b[2], b[1], FB2, b, []))
  {
    es := Streams(b);
    es := Serve(es, Streaming(b));
  }

  /** On the default queue of four a run reaches the submit trap: a sixth buffer is accepted
      while four are held, and the queue then looks empty. */
  lemma SubmitTrapIsReachable(b: seq<Address>, x: Address, y: Address)
    returns (es: seq<Event>, t: Csi)
    requires |b| == 4
    ensures Leads(es, t)
    ensures t.submitted == b + [x] + [y] && t.returned == [b[0]] && Held(t.h) == [] && !Inv(t)
  {
    es := OneServed(b);
    t := Started(b + [0], 0, 4, 3, 1, 2, FB2, true, b[2], b[1], FB2, b, []);
    es := Then(es, t, EvGetFull);
    t := Started(b + [0], 1, 4, 3, 1, 2, FB2, true, b[2], b[1], FB2, b, [b[0]]);
    es := Then(es, t, EvSubmitStore(x));
    t := SubmitStore(Written, t, x).0;
    es := Then(es, t, EvSubmitRestart);
    t := Started(b + [x], 1, 0, 3, 1, 2, FB2, true, b[2], b[1], FB2, b + [x], [b[0]]);
    es := Then(es, t, EvSubmitStore(y));
    t := SubmitStore(Written, t, y).0;
  }

  lemma TwoServed(b: seq<Address>) returns (es: seq<Event>)
    requires |b| == 4
    ensures Leads(es, Started(b + [0], 0, 4, 4, 2, 2, FB1, true, b[2], b[3], FB1, b, []))
  {
    es := OneServed(b);
    es := Serve(es, Started(b + [0], 0, 4, 3, 1, 2, FB2, true, b[2], b[1], FB2, b, []));
  }

  lemma ThreeServed(b: seq<Address>) returns (es: seq<Event>)
    requires |b| == 4
    ensures Leads(es, Started(b + [0], 0, 4, 4, 3, 1, FB1, true, b[2], b[3], FB2, b, []))
  {
    es := TwoServed(b);
    es := Serve(es, Started(b + [0], 0, 4, 4, 2, 2, FB1, true, b[2], b[3], FB1, b, []));
  }

  /** All four frames have arrived: the transfer has stopped for want of buffers. */
  lemma AllServed(b: seq<Address>) returns (es: seq<Event>)
    requires |b| == 4
    ensures Leads(es, Started(b + [0], 0, 4, 4, 4, 0, FB1, false, b[2], b[3], FB1, b, []))
  {
    es := ThreeServed(b);
    es := Serve(es, Started(b + [0], 0, 4, 4, 3, 1, FB1, true, b[2], b[3], FB2, b, []));
  }

  lemma OneHandedBack(b: seq<Address>) returns (es: seq<Event>)
    requires |b| == 4
    ensures Leads(es, Started(b + [0], 1, 4, 4, 4, 0, FB1, false, b[2], b[3], FB1, b, [b[0]]))
  {
    es := AllServed(b);
    es := Then(es, Started(b + [0], 0, 4, 4, 4, 0, FB1, false, b[2], b[3], FB1, b, []), EvGetFull);
  }

  lemma FifthSubmitted(b: seq<Address>, x: Address) returns (es: seq<Event>)
    requires |b| == 4
    ensures Leads(es, Started(b + [x], 1, 0, 4, 4, 0, FB1, false, b[2], b[3], FB1, b + [x], [b[0]])
                      .(pc := Restarting))
  {
    es := OneHandedBack(b);
    var t := Started(b + [0], 1, 4, 4, 4, 0, FB1, false, b[2], b[3], FB1, b, [b[0]]);
    assert t.h.queue[4 := x] == b + [x];
    es := Then(es, t, EvSubmitStore(x));
  }

  /** Plain streaming reaches the load trap: four submits, a start, four frames, one get and
      one submit.  One frame later the engine fills the buffer the user was handed. */
  lemma LoadTrapIsReachable(b: seq<Address>, x: Address) returns (es: seq<Event>, t: Csi)
    requires |b| == 4
    ensures Leads(es, t) && CanHappen(t, EvComplete)
    ensures t.submitted == b + [x] && t.returned == [b[0]] && t.d.Reg(t.d.hw) == b[0]
  {
    es := FifthSubmitted(b, x);
    t := Started(b + [x], 1, 0, 4, 4, 0, FB1, false, b[2], b[3], FB1, b + [x], [b[0]])
         .(pc := Restarting);
    es := Then(es, t, EvSubmitRestart);
    t := Started(b + [x], 1, 0, 1, 4, 2, FB1, true, x, b[0], FB1, b + [x], [b[0]]);
    es := Then(es, t, EvComplete);
    t := Complete(t);
  }

  /** Stopped between a completion and its interrupt: the flag stays set. */
  function StoppedWithFlag(b: seq<Address>): Csi
    requires |b| == 4
  {
    Csi(Handle(b + [0], 0, 4, 0, 0, 0, FB1, false, false),
        Device(b[0], b[1], false, FB2, true, false, false), Ready, false, b, [])
  }

  lemma StopsWithFlag(b: seq<Address>) returns (es: seq<Event>)
    requires |b| == 4
    ensures Leads(es, StoppedWithFlag(b))
  {
    es := Streams(b);
    es := Then(es, Streaming(b), EvComplete);
    es := Then(es, Complete(Streaming(b)), EvStopDevice);
    es := Then(es, StopDevice(Complete(Streaming(b))), EvStopReset);
  }

  lemma StartsWithFlag(b: seq<Address>) returns (es: seq<Event>)
    requires |b| == 4
    ensures var t := Streaming(b);
            Leads(es, t.(d := t.d.(done1 := true))) && !Clean(StoppedWithFlag(b), EvStart)
  {
    es := StopsWithFlag(b);
    es := Then(es, StoppedWithFlag(b), EvStart);
  }

  /** After the next start the flag left from before the stop makes the handler declare full
      the very buffer the engine is filling. */
  lemma StaleFlagIsReachable(b: seq<Address>) returns (es: seq<Event>, t: Csi)
    requires |b| == 4
    ensures Leads(es, t) && CanHappen(t, EvComplete)
    ensures FullPart(t.h) == [b[0]] && t.d.Reg(t.d.hw) == b[0] && !InSync(t)
  {
    es := StartsWithFlag(b);
    var s := Streaming(b);
    s := s.(d := s.d.(done1 := true));
    es := Then(es, s, EvIrqEnter);
    t := IrqEnter(s);
    assert FullPart(t.h)[0] == b[0];
  }

  lemma BothFlags(b: seq<Address>) returns (es: seq<Event>)
    requires |b| == 4
    ensures Leads(es, StopDevice(Complete(Complete(Streaming(b)))))
  {
    es := Streams(b);
    es := Then(es, Streaming(b), EvComplete);
    es := Then(es, Complete(Streaming(b)), EvComplete);
    es := Then(es, Complete(Complete(Streaming(b))), EvStopDevice);
  }

  /** A both-flags interrupt inside a stop restarts the device behind the user's back: after
      the stop the engine still runs, and fills a buffer that waits as empty. */
  lemma RunsAfterStopIsReachable(b: seq<Address>) returns (es: seq<Event>, t: Csi)
    requires |b| == 4
    ensures Leads(es, t) && CanHappen(t, EvComplete)
    ensures !t.h.started && t.h.active == 0 && t.d.enabled && EmptyPart(t.h) == b
    ensures t.d.Reg(t.d.hw) == b[0]
  {
    es := BothFlags(b);
    t := StopDevice(Complete(Complete(Streaming(b))));
    assert !Clean(t, EvIrqEnter);
    es := Then(es, t, EvIrqEnter);
    t := IrqEnter(t);
    es := Then(es, t, EvStopReset);
    t := StopReset(t);
  }
}
