/** The Ethernet transmit descriptor ring, shared between the driver and the DMA engine.

    The driver posts fragments at `cur`; the engine transmits them from `hw`.  The logs
    `posted` and `wire` remember what was posted and what left on the wire. */
module EnetRing {
  import opened Ring

  type Byte = bv8

  const MAX_FRAME_LEN := 1518

  /** A buffer descriptor: control bits and the bytes its buffer holds up to its length. */
  datatype Bd = Bd(ready: bool, last: bool, wrap: bool, data: seq<Byte>)

  /** What one descriptor puts on the wire. */
  datatype Frag = Frag(bytes: seq<Byte>, last: bool)

  datatype Tx = Tx(bds: seq<Bd>, cur: int, hw: int, posted: seq<Frag>, wire: seq<Frag>)
  {
    function N(): int { |bds| }

    predicate InRange() { 0 <= cur < N() && 0 <= hw < N() }

    /** Fragments posted and not yet transmitted. */
    function InFlight(): int { |posted| - |wire| }
  }

  function FragOf(bd: Bd): Frag { Frag(bd.data, bd.last) }

  /** The descriptor after `i`, found through the wrap bit. */
  function Following(t: Tx, i: int): int {
    if 0 <= i < t.N() && t.bds[i].wrap then 0 else i + 1
  }

  function Post(t: Tx, bytes: seq<Byte>, last: bool): Tx
    requires t.InRange()
  {
    t.(bds := t.bds[t.cur := t.bds[t.cur].(ready := true, last := last, data := bytes)],
       cur := Following(t, t.cur),
       posted := t.posted + [Frag(bytes, last)])
  }

  predicate CanTransmit(t: Tx) {
    t.InRange() && t.bds[t.hw].ready
  }

  /** The engine transmits the descriptor it stands at and gives it back. */
  function Transmit(t: Tx): Tx
    requires CanTransmit(t)
  {
    t.(bds := t.bds[t.hw := t.bds[t.hw].(ready := false)],
       hw := Following(t, t.hw),
       wire := t.wire + [FragOf(t.bds[t.hw])])
  }

  predicate WrapBits(bds: seq<Bd>) {
    forall i :: 0 <= i < |bds| ==> bds[i].wrap == (i == |bds| - 1)
  }

  /** READY marks exactly the `k` descriptors from `hw` on. */
  predicate ReadyIsSegment(bds: seq<Bd>, hw: int, k: int)
    requires 0 <= hw < |bds|
  {
    forall i :: 0 <= i < |bds| ==> (bds[i].ready <==> Dist(hw, i, |bds|) < k)
  }

  /** The descriptors in flight hold the untransmitted end of the posting log, in order. */
  predicate Holds(t: Tx)
    requires t.InRange() && 0 <= t.InFlight() <= t.N()
  {
    forall i :: 0 <= i < t.N() && Dist(t.hw, i, t.N()) < t.InFlight() ==>
      FragOf(t.bds[i]) == t.posted[|t.wire| + Dist(t.hw, i, t.N())]
  }

  predicate Inv(t: Tx) {
    && t.InRange() && WrapBits(t.bds)
    && 0 <= t.InFlight() <= t.N()
    && t.cur == Wrap(t.hw + t.InFlight(), t.N())
    && ReadyIsSegment(t.bds, t.hw, t.InFlight())
    && Holds(t)
    && t.wire <= t.posted
  }

  function InitBds(n: int): (bds: seq<Bd>)
    requires 0 < n
    ensures |bds| == n && WrapBits(bds)
  {
    seq(n, i => Bd(false, false, i == n - 1, []))
  }

  function Init(n: int): (t: Tx)
    requires 0 < n
    ensures Inv(t)
  {
    Tx(InitBds(n), 0, 0, [], [])
  }

  /** The descriptor at `cur` is READY exactly when the whole ring is in flight. */
  lemma BusyExactlyWhenFull(t: Tx)
    requires Inv(t)
    ensures t.bds[t.cur].ready <==> t.InFlight() == t.N()
  {
    if t.InFlight() < t.N() {
      DistUnique(t.hw, t.cur, t.N(), t.InFlight());
    }
  }

  /** The engine can run exactly when something is in flight. */
  lemma CanTransmitExactlyWhenInFlight(t: Tx)
    requires Inv(t)
    ensures CanTransmit(t) <==> t.InFlight() > 0
  {
    assert Dist(t.hw, t.hw, t.N()) == 0;
  }

  lemma PostKeepsInv(t: Tx, bytes: seq<Byte>, last: bool)
    requires Inv(t) && !t.bds[t.cur].ready
    ensures Inv(Post(t, bytes, last)) && Post(t, bytes, last).InFlight() == t.InFlight() + 1
  {
    BusyExactlyWhenFull(t);
    var u, n := Post(t, bytes, last), t.N();
    DistUnique(t.hw, t.cur, n, t.InFlight());
    forall i | 0 <= i < n && i != t.cur
      ensures u.bds[i] == t.bds[i] && Dist(t.hw, i, n) != t.InFlight()
    {
    }
  }

  lemma TransmitKeepsInv(t: Tx)
    requires Inv(t) && CanTransmit(t)
    ensures Inv(Transmit(t)) && Transmit(t).InFlight() == t.InFlight() - 1
  {
    CanTransmitExactlyWhenInFlight(t);
    var u, n := Transmit(t), t.N();
    assert u.hw == Next(t.hw, n);
    forall i | 0 <= i < n
      ensures i != t.hw ==> u.bds[i] == t.bds[i] && Dist(u.hw, i, n) == Dist(t.hw, i, n) - 1
      ensures i == t.hw ==> Dist(u.hw, i, n) == n - 1
    {
    }
  }
}
