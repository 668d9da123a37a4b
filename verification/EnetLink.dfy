/** The link monitor: polls of the PHY, link notifications, and the mode the MAC is set to.

    The status register is register 1 of section 22.2.4 of IEEE 802.3; the speed and duplex
    code is in a vendor register. */
module EnetLink {

  datatype Speed = Speed10M | Speed100M
  datatype Duplex = Half | Full
  datatype Mode = Mode(speed: Speed, duplex: Duplex)

  const LINK_STATUS_MASK: bv16 := 0x0004
  const SPEED_DUPLEX_MASK: bv16 := 0x001C

  /** PHY_GetLinkSpeedDuplex, once the register has been read. */
  function Decode(ctl: bv16): Mode {
    var data := ctl & SPEED_DUPLEX_MASK;
    Mode(if data == 0x0008 || data == 0x0018 then Speed100M else Speed10M,
         if data == 0x0014 || data == 0x0018 then Full else Half)
  }

  /** The code by which the PHY reports a negotiated mode. */
  function Code(m: Mode): bv16 {
    match m
    case Mode(Speed10M, Half) => 0x0004
    case Mode(Speed100M, Half) => 0x0008
    case Mode(Speed10M, Full) => 0x0014
    case Mode(Speed100M, Full) => 0x0018
  }

  /** Whatever the other bits are, a reported mode is read back as itself. */
  lemma DecodeReported(m: Mode, ctl: bv16)
    requires ctl & SPEED_DUPLEX_MASK == Code(m)
    ensures Decode(ctl) == m
  {
  }

  const PHY_TIMEOUT_COUNT := 0xFFFF

  /** PHY_Read's wait: `mii(i)` is the event bit at poll `i`.  It times out exactly when the
      bit stays clear for all the polls. */
  method AwaitMii(mii: nat -> bool) returns (ok: bool)
    ensures ok <==> exists i: nat :: i < PHY_TIMEOUT_COUNT && mii(i)
  {
    var counter := PHY_TIMEOUT_COUNT;
    while counter > 0
      invariant 0 <= counter <= PHY_TIMEOUT_COUNT
      invariant forall i: nat :: i < PHY_TIMEOUT_COUNT - counter ==> !mii(i)
    {
      if mii(PHY_TIMEOUT_COUNT - counter) {
        break;
      }
      counter := counter - 1;
    }
    ok := counter != 0;
  }

  /** What one round of the monitor reads: the status register, and the mode register should
      the round need it; `None` where the read timed out. */
  datatype Read = None | Got(value: bv16)
  datatype Sample = Sample(status: Read, mode: Read)

  predicate Up(status: bv16) { status & LINK_STATUS_MASK != 0 }

  /** The link is up exactly when bit 2 of the status register is one. */
  lemma UpIsBitTwo(status: bv16)
    ensures Up(status) <==> status / 4 % 2 == 1
  {
  }

  /** The monitor's state: last link, the mode variables (which a failed read leaves alone),
      the mode the MAC is configured for, the notifications sent and the reconfigurations. */
  datatype Monitor = Monitor(link: bool, local: Mode, mac: Mode, notes: seq<bool>, reconfigs: nat)

  /** The driver registers as 100M full duplex and reports the link down once. */
  function Start(garbage: Mode): Monitor {
    Monitor(false, garbage, Mode(Speed100M, Full), [false], 0)
  }

  function Poll(m: Monitor, s: Sample): Monitor {
    if s.status.None? || Up(s.status.value) == m.link then m
    else if !Up(s.status.value) then m.(link := false, notes := m.notes + [false])
    else
      var local := if s.mode.Got? then Decode(s.mode.value) else m.local;
      m.(link := true, local := local, mac := local, notes := m.notes + [true],
         reconfigs := if m.mac != local then m.reconfigs + 1 else m.reconfigs)
  }

  function PollAll(m: Monitor, ss: seq<Sample>): Monitor {
    if ss == [] then m else Poll(PollAll(m, ss[..|ss| - 1]), ss[|ss| - 1])
  }

  /** The monitor thread over the rounds it gets. */
  method RunMonitor(garbage: Mode, ss: seq<Sample>) returns (m: Monitor)
    ensures m == PollAll(Start(garbage), ss)
  {
    var link, speed, duplex := false, garbage.speed, garbage.duplex;
    var mac, notes, reconfigs := Mode(Speed100M, Full), [false], 0;
    for i := 0 to |ss|
      invariant Monitor(link, Mode(speed, duplex), mac, notes, reconfigs)
                == PollAll(Start(garbage), ss[..i])
    {
      assert ss[..i + 1][..i] == ss[..i];
      var newLink := false;
      if ss[i].status.Got? {
        newLink := Up(ss[i].status.value);
      }
      if ss[i].status.Got? && link != newLink {
        link := newLink;
        if link {
          if ss[i].mode.Got? {
            speed, duplex := Decode(ss[i].mode.value).speed, Decode(ss[i].mode.value).duplex;
          }
          if mac.speed != speed || mac.duplex != duplex {
            mac := Mode(speed, duplex);
            reconfigs := reconfigs + 1;
          }
          notes := notes + [true];
        } else {
          notes := notes + [false];
        }
      }
    }
    assert ss[..|ss|] == ss;
    m := Monitor(link, Mode(speed, duplex), mac, notes, reconfigs);
  }

  // ----- What the notifications say -----

  /** The link states the successful status reads reported, in order. */
  function Reports(ss: seq<Sample>): seq<bool> {
    if ss == [] then []
    else
      var s := ss[|ss| - 1];
      Reports(ss[..|ss| - 1]) + (if s.status.Got? then [Up(s.status.value)] else [])
  }

  /** A sequence with every run of equal neighbours reduced to one. */
  function Collapse(bs: seq<bool>): (r: seq<bool>)
    ensures bs != [] ==> r != [] && r[|r| - 1] == bs[|bs| - 1]
  {
    if |bs| <= 1 then bs
    else
      var init := Collapse(bs[..|bs| - 1]);
      if bs[|bs| - 1] == bs[|bs| - 2] then init else init + [bs[|bs| - 1]]
  }

  /** Nothing in a collapsed sequence repeats its predecessor. */
  lemma {:induction false} CollapseAlternates(bs: seq<bool>)
    ensures forall i :: 0 <= i < |Collapse(bs)| - 1 ==> Collapse(bs)[i] != Collapse(bs)[i + 1]
    decreases |bs|
  {
    if |bs| > 1 {
      CollapseAlternates(bs[..|bs| - 1]);
    }
  }

  /** The monitor has seen exactly the reports `bs` (the initial down included). */
  predicate HasSeen(m: Monitor, bs: seq<bool>) {
    bs != [] && m.notes == Collapse(bs) && m.link == bs[|bs| - 1]
  }

  lemma PollSees(m: Monitor, s: Sample, bs: seq<bool>)
    requires HasSeen(m, bs)
    ensures s.status.None? ==> HasSeen(Poll(m, s), bs)
    ensures s.status.Got? ==> HasSeen(Poll(m, s), bs + [Up(s.status.value)])
  {
    if s.status.Got? {
      assert (bs + [Up(s.status.value)])[..|bs|] == bs;
    }
  }

  lemma {:induction false} MonitorSees(garbage: Mode, ss: seq<Sample>)
    ensures HasSeen(PollAll(Start(garbage), ss), [false] + Reports(ss))
    decreases |ss|
  {
    if ss == [] {
      assert [false] + Reports([]) == [false];
    } else {
      var rest, s := ss[..|ss| - 1], ss[|ss| - 1];
      MonitorSees(garbage, rest);
      PollSees(PollAll(Start(garbage), rest), s, [false] + Reports(rest));
      if s.status.Got? {
        assert [false] + Reports(rest) + [Up(s.status.value)] == [false] + Reports(ss);
      } else {
        assert Reports(ss) == Reports(rest);
      }
    }
  }

  /** For every stream of reads the notifications are the initial down followed by the
      changes of the successful reads; they alternate, and the last one is the last value
      read. */
  lemma NotesAreChanges(garbage: Mode, ss: seq<Sample>)
    ensures var notes := PollAll(Start(garbage), ss).notes;
            && notes == Collapse([false] + Reports(ss))
            && notes != [] && notes[|notes| - 1] == ([false] + Reports(ss))[|Reports(ss)|]
            && forall i :: 0 <= i < |notes| - 1 ==> notes[i] != notes[i + 1]
  {
    MonitorSees(garbage, ss);
    CollapseAlternates([false] + Reports(ss));
  }

  /** When a round announces the link up, the MAC is set to the negotiated mode exactly when
      the mode read succeeded or the mode left over from earlier happens to be the same. */
  lemma UpHasNegotiatedMode(m: Monitor, s: Sample, negotiated: Mode)
    requires Poll(m, s).notes == m.notes + [true]
    requires s.mode.Got? ==> s.mode.value & SPEED_DUPLEX_MASK == Code(negotiated)
    ensures Poll(m, s).mac == negotiated <==> s.mode.Got? || m.local == negotiated
  {
    if s.mode.Got? {
      DecodeReported(negotiated, s.mode.value);
    }
    assert m.notes != m.notes + [true];
    assert (m.notes + [true])[|m.notes|] != (m.notes + [false])[|m.notes|];
  }

  /** The driver registers with 100 Mbit/s full duplex, so the first link that comes up
      reconfigures the MAC exactly when it negotiated something else. */
  lemma FirstLinkUp(garbage: Mode, status: bv16, mode: bv16, negotiated: Mode)
    requires Up(status) && mode & SPEED_DUPLEX_MASK == Code(negotiated)
    ensures var m := Poll(Start(garbage), Sample(Got(status), Got(mode)));
            && m.notes == [false, true] && m.mac == negotiated
            && m.reconfigs == if negotiated == Mode(Speed100M, Full) then 0 else 1
  {
    DecodeReported(negotiated, mode);
  }

  /** Only an up notification changes the MAC's mode, and it reconfigures the MAC exactly when
      the mode differs from the one set. */
  lemma ReconfigExactlyOnModeChange(m: Monitor, s: Sample)
    ensures var n := Poll(m, s);
            && (n.mac != m.mac <==> n.reconfigs == m.reconfigs + 1)
            && (n.mac == m.mac <==> n.reconfigs == m.reconfigs)
            && (n.mac != m.mac ==> n.notes == m.notes + [true] && n.mac == n.local)
  {
  }
}
