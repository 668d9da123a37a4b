/** The driver's send routine over the descriptor array, with the DMA engine running
    between its fragments. */
module EnetDriver {
  import opened Ring
  import opened EnetRing
  import opened EnetSend

  class Sender {
    const bds: array<Bd>
    const bufSize: int  // bytes of one transmit buffer
    var cur: int
    var hw: int
    ghost var posted: seq<Frag>
    ghost var wire: seq<Frag>

    ghost function View(): Tx
      reads this, bds
    {
      Tx(bds[..], cur, hw, posted, wire)
    }

    /** Fragments posted and not yet transmitted. */
    ghost function InFlight(): int
      reads this
    {
      |posted| - |wire|
    }

    ghost predicate Valid()
      reads this, bds
    {
      0 < bufSize && Inv(View())
    }

    constructor (n: int, bufSize: int)
      requires 0 < n && 0 < bufSize
      ensures Valid() && fresh(bds) && this.bufSize == bufSize && View() == Init(n)
    {
      bds := new Bd[n](i => Bd(false, false, i == n - 1, []));
      this.bufSize := bufSize;
      cur, hw, posted, wire := 0, 0, [], [];
      new;
      assert bds[..] == InitBds(n);
    }

    /** Fills the current descriptor and marks it READY; `cur` moves on. */
    method PostFragment(bytes: seq<Byte>, last: bool)
      requires Valid() && !bds[cur].ready
      modifies this, bds
      ensures Valid() && View() == Post(old(View()), bytes, last)
      ensures InFlight() == old(InFlight()) + 1
    {
      PostKeepsInv(View(), bytes, last);
      var bd := cur;
      cur := if bds[bd].wrap then 0 else cur + 1;
      bds[bd] := bds[bd].(ready := true, last := last, data := bytes);
      posted := posted + [Frag(bytes, last)];
    }

    /** The engine transmits the descriptor it stands at. */
    method EngineStep()
      requires Valid() && bds[hw].ready
      modifies this, bds
      ensures Valid() && View() == Transmit(old(View()))
    {
      TransmitKeepsInv(View());
      var bd := hw;
      wire := wire + [FragOf(bds[bd])];
      bds[bd] := bds[bd].(ready := false);
      hw := if bds[bd].wrap then 0 else hw + 1;
    }

    /** The engine transmits `n` more descriptors, or all that are in flight. */
    method EngineRuns(n: nat)
      requires Valid()
      modifies this, bds
      ensures Valid() && cur == old(cur) && posted == old(posted) && old(wire) <= wire
      ensures n <= old(InFlight()) ==> |wire| == |old(wire)| + n
      ensures n >= old(InFlight()) ==> wire == posted
    {
      var i := 0;
      CanTransmitExactlyWhenInFlight(View());
      while i < n && bds[hw].ready
        invariant Valid() && cur == old(cur) && posted == old(posted) && old(wire) <= wire
        invariant i <= n && |wire| == |old(wire)| + i
        invariant bds[hw].ready <==> InFlight() > 0
        decreases n - i
      {
        EngineStep();
        CanTransmitExactlyWhenInFlight(View());
        i := i + 1;
      }
    }

    /** Posts a fragment that is not the last, lets the engine run, and looks at the next
        descriptor. */
    method PostOpenFragment(bytes: seq<Byte>, n: nat) returns (full: bool)
      requires Valid() && !bds[cur].ready
      modifies this, bds
      ensures Valid() && posted == old(posted) + [Frag(bytes, false)] && old(wire) <= wire
      ensures n == 0 ==> wire == old(wire)
      ensures n > 0 ==> !full
      ensures full == bds[cur].ready && (full <==> InFlight() == bds.Length)
    {
      PostFragment(bytes, false);
      EngineRuns(n);
      BusyExactlyWhenFull(View());
      full := bds[cur].ready;
    }

    /** Sends one frame; `count` of its fragments get posted.  `engine(i)` says how far the
        engine gets after fragment `i`. */
    method SendFrame(content: seq<Byte>, raw: seq<Byte>, engine: nat -> nat)
      returns (status: Status, ghost count: nat)
      requires Valid() && |raw| == |content|
      modifies this, bds
      ensures var all := Fragments(Sent(content, raw, bufSize), bufSize);
              && Valid() && old(wire) <= wire && count <= |all|
              && posted == old(posted) + all[..count]
              && (status.Success? <==> count == |all|)
      ensures status.TxFrameOverLen? <==> |content| > MAX_FRAME_LEN
      ensures status.TxFrameOverLen? ==> View() == old(View())
      ensures status.TxFrameBusy? ==> InFlight() == bds.Length
      ensures status.TxFrameBusy? ==> (count == 0 <==> old(bds[cur].ready))
      ensures old(bds[cur].ready) <==> old(InFlight()) == bds.Length
      ensures old(bds[cur].ready) && |content| <= MAX_FRAME_LEN ==>
                status.TxFrameBusy? && View() == old(View())
      ensures var pieces := |Fragments(Sent(content, raw, bufSize), bufSize)|;
              var free := bds.Length - old(InFlight());
              |content| <= MAX_FRAME_LEN ==>
                && (pieces <= free ==> status.Success?)
                && ((forall i :: engine(i) > 0) && free > 0 ==> status.Success?)
                && ((forall i :: engine(i) == 0) ==>
                      && (status.Success? <==> pieces <= free)
                      && (status.TxFrameBusy? ==> count == free))
      ensures (forall i :: engine(i) == 0) ==> wire == old(wire)
    {
      BusyExactlyWhenFull(View());
      if |content| > MAX_FRAME_LEN {
        return TxFrameOverLen, 0;
      }
      if bds[cur].ready {
        return TxFrameBusy, 0;
      }
      if bufSize >= |content| {
        PostFragment(content, true);
        return Success, 1;
      }
      status, count := SendInPieces(raw, engine);
    }

    /** The loop for a frame that needs more than one buffer. */
    method SendInPieces(data: seq<Byte>, engine: nat -> nat)
      returns (status: Status, ghost count: nat)
      requires Valid() && !bds[cur].ready && bufSize < |data|
      modifies this, bds
      ensures Valid() && old(wire) <= wire && !status.TxFrameOverLen?
      ensures 0 < count <= |Fragments(data, bufSize)|
      ensures posted == old(posted) + Fragments(data, bufSize)[..count]
      ensures status.Success? <==> count == |Fragments(data, bufSize)|
      ensures status.TxFrameBusy? ==> InFlight() == bds.Length
      ensures (forall j :: engine(j) > 0) ==> status.Success?
      ensures (forall j :: engine(j) == 0) ==> wire == old(wire)
    {
      ghost var all := Fragments(data, bufSize);
      var len, full;
      BusyExactlyWhenFull(View());
      len, full, count := SendOpenPieces(data, engine);
      BusyExactlyWhenFull(View());
      if full {
        return TxFrameBusy, count;
      }
      FragmentLast(data, bufSize, len, all, count, old(posted));
      PostFragment(data[len..], true);
      return Success, count + 1;
    }

    /** One round of the loop. */
    method PostPiece(data: seq<Byte>, len: int, ghost i: int, ghost was: Tx, n: nat)
      returns (full: bool)
      requires Valid() && InFlight() < bds.Length && was.wire <= wire
      requires Cut(data, bufSize, len, i, was.posted, posted) && bufSize < |data| - len
      modifies this, bds
      ensures Valid() && was.wire <= wire
      ensures Cut(data, bufSize, len + bufSize, i + 1, was.posted, posted)
      ensures n == 0 ==> wire == old(wire)
      ensures n > 0 ==> !full
      ensures full <==> InFlight() == bds.Length
    {
      BusyExactlyWhenFull(View());
      CutMore(data, bufSize, len, i, was.posted, posted);
      full := PostOpenFragment(data[len..len + bufSize], n);
    }

    /** Posts buffer after buffer until the rest fits one or the ring is full. */
    method SendOpenPieces(data: seq<Byte>, engine: nat -> nat)
      returns (len: int, full: bool, ghost count: nat)
      requires Valid() && InFlight() < bds.Length && bufSize < |data|
      modifies this, bds
      ensures Valid() && old(wire) <= wire && (full <==> InFlight() == bds.Length)
      ensures !full ==> |data| - len <= bufSize
      ensures 0 < count && Cut(data, bufSize, len, count, old(posted), posted)
      ensures (forall j :: engine(j) > 0) ==> !full
      ensures (forall j :: engine(j) == 0) ==> wire == old(wire)
    {
      ghost var was := View();
      ghost var brisk, idle := (forall j :: engine(j) > 0), (forall j :: engine(j) == 0);
      CutNothing(data, bufSize, posted);
      len, full := 0, false;
      var i := 0;
      while !full && |data| - len > bufSize
        invariant Valid() && was.wire <= wire
        invariant (full <==> InFlight() == bds.Length) && 0 <= i && (i == 0 ==> len == 0 && !full)
        invariant Cut(data, bufSize, len, i, was.posted, posted)
        invariant brisk ==> !full
        invariant idle ==> wire == was.wire
        decreases |data| - len
      {
        full := PostPiece(data, len, i, was, engine(i));
        len := len + bufSize;
        i := i + 1;
      }
      count := i;
    }

    /** A frame sent twice in a row, as its caller does after a busy result.  The frame is
        received intact exactly when the first call found the current descriptor READY. */
    method SendAndRepeat(content: seq<Byte>, raw: seq<Byte>,
                         engine: nat -> nat, pause: nat, engine2: nat -> nat)
      returns (first: Status, second: Status)
      requires Valid() && |raw| == |content| && Reassemble(posted).partial == []
      modifies this, bds
      ensures Valid()
      ensures first.TxFrameBusy? && second.Success? ==>
                (Reassemble(posted).frames
                   == Reassemble(old(posted)).frames + [Sent(content, raw, bufSize)]
                 <==> old(bds[cur].ready))
    {
      ghost var sent, count, count2 := Sent(content, raw, bufSize), 0, 0;
      first, count := SendFrame(content, raw, engine);
      EngineRuns(pause);
      second, count2 := SendFrame(content, raw, engine2);
      if first.TxFrameBusy? && second.Success? {
        assert Fragments(sent, bufSize)[..count2] == Fragments(sent, bufSize);
        RetryIntactExactlyWhenNothingPosted(old(posted), sent, bufSize, count);
      }
    }
  }

  /** An input: on a ring of one descriptor a frame of two one-byte buffers is cut off after its
      first byte; the repeat succeeds, and what arrives is one frame of three bytes. */
  method RetryArrivesDoubled(x: Byte, y: Byte) returns (s: Sender)
    ensures s.Valid() && Reassemble(s.posted) == Reassembly([[x, x, y]], [])
  {
    s := new Sender(1, 1);
    FragmentsOfTwo(x, y);
    ghost var count;
    var status;
    status, count := s.SendFrame([x, y], [x, y], i => 0);
    assert status.TxFrameBusy? && s.posted == [Frag([x], false)];
    s.EngineRuns(1);
    BusyExactlyWhenFull(s.View());
    status, count := s.SendFrame([x, y], [x, y], i => 1);
    assert s.posted == [Frag([x], false), Frag([x], false), Frag([y], true)];
    FeedThree(x, y);
  }

  lemma FragmentsOfTwo(x: Byte, y: Byte)
    ensures Fragments([x, y], 1) == [Frag([x], false), Frag([y], true)]
  {
    assert [x, y][..1] == [x] && [x, y][1..] == [y];
  }

  lemma FeedThree(x: Byte, y: Byte)
    ensures Reassemble([Frag([x], false), Frag([x], false), Frag([y], true)])
            == Reassembly([[x, x, y]], [])
  {
    var f, g, none := Frag([x], false), Frag([y], true), Reassembly([], []);
    assert [f, f, g][1..] == [f, g] && [f, g][1..] == [g] && [g][1..] == [];
    assert [] + [x] + [x] + [y] == [x, x, y];
    assert FeedAll(none, [f, f, g]) == FeedAll(Feed(none, f), [f, g]);
    assert FeedAll(Feed(none, f), [f, g]) == FeedAll(Feed(Feed(none, f), f), [g]);
    assert FeedAll(Feed(Feed(none, f), f), [g]) == Feed(Feed(Feed(none, f), f), g);
    assert Feed(Feed(Feed(none, f), f), g) == Reassembly([[x, x, y]], []);
  }

  /** `log` is `was` and the first `i` fragments of `data`, which hold its first `len` bytes. */
  ghost predicate Cut(data: seq<Byte>, b: int, len: int, i: int, was: seq<Frag>, log: seq<Frag>)
    requires 0 < b
  {
    var all := Fragments(data, b);
    && 0 <= len < |data| && 0 <= i < |all|
    && Fragments(data[len..], b) == all[i..]
    && log == was + all[..i]
  }

  lemma CutNothing(data: seq<Byte>, b: int, was: seq<Frag>)
    requires 0 < b < |data|
    ensures Cut(data, b, 0, 0, was, was)
  {
    assert data[0..] == data;
  }

  lemma CutMore(data: seq<Byte>, b: int, len: int, i: int, was: seq<Frag>, log: seq<Frag>)
    requires 0 < b && Cut(data, b, len, i, was, log) && b < |data| - len
    ensures Cut(data, b, len + b, i + 1, was, log + [Frag(data[len..len + b], false)])
  {
    FragmentOpen(data, b, len, Fragments(data, b), i, was);
  }
}
