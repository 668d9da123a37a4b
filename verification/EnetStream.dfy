/** Whole sessions on the transmit ring: sends of any length, cut into buffers of any size, with
    the DMA engine running between any two fragments. */
module EnetStream {
  import opened Ring
  import opened EnetRing
  import opened EnetSend

  /** Between fragments a send remembers its frame and how much of it is posted. */
  datatype Sender = Idle | Cutting(content: seq<Byte>, raw: seq<Byte>, len: int)

  /** The ring, the sender, and the log of the frames whose send reported success. */
  datatype Session = Session(tx: Tx, sender: Sender, accepted: seq<seq<Byte>>)

  datatype Event = Begin(content: seq<Byte>, raw: seq<Byte>) | Continue | Engine

  predicate CanHappen(s: Session, e: Event) {
    && s.tx.InRange()
    && match e
       case Begin(content, raw) => s.sender.Idle? && |raw| == |content|
       case Continue => s.sender.Cutting? && 0 <= s.sender.len <= |s.sender.raw|
       case Engine => CanTransmit(s.tx)
  }

  /** A send up to its first fragment: the checks, then a whole frame or its first buffer. */
  function BeginSend(b: int, s: Session, content: seq<Byte>, raw: seq<Byte>): Session
    requires 0 < b && s.tx.InRange() && |raw| == |content|
  {
    if |content| > MAX_FRAME_LEN || s.tx.bds[s.tx.cur].ready then s
    else if |content| <= b then
      s.(tx := Post(s.tx, content, true), accepted := s.accepted + [content])
    else s.(tx := Post(s.tx, raw[..b], false), sender := Cutting(content, raw, b))
  }

  /** One more round of the multi-buffer loop, which gives up when the ring is full. */
  function ContinueSend(b: int, s: Session): Session
    requires 0 < b && CanHappen(s, Continue)
  {
    var Cutting(content, raw, len) := s.sender;
    if s.tx.bds[s.tx.cur].ready then s.(sender := Idle)
    else if |raw| - len > b then
      s.(tx := Post(s.tx, raw[len..len + b], false), sender := s.sender.(len := len + b))
    else
      Session(Post(s.tx, raw[len..], true), Idle, s.accepted + [content])
  }

  function Step(b: int, s: Session, e: Event): Session
    requires 0 < b && CanHappen(s, e)
  {
    match e
    case Begin(content, raw) => BeginSend(b, s, content, raw)
    case Continue => ContinueSend(b, s)
    case Engine => s.(tx := Transmit(s.tx))
  }

  /** The part of the frame in progress that is posted. */
  function Open(s: Sender): seq<Byte>
    requires s.Cutting? ==> 0 <= s.len <= |s.raw|
  {
    if s.Idle? then [] else s.raw[..s.len]
  }

  /** The ring is sound, and a receiver of everything posted would see the accepted frames and
      the beginning of the one in progress. */
  predicate Faithful(s: Session) {
    && Inv(s.tx)
    && (s.sender.Cutting? ==> 0 < s.sender.len < |s.sender.raw| == |s.sender.content|)
    && Reassemble(s.tx.posted) == Reassembly(s.accepted, Open(s.sender))
  }

  /** The two ways to spoil the stream: the multi-buffer loop gives up on a full ring, or it
      completes a frame whose bytes are not at the address it copies from. */
  predicate Spoils(b: int, s: Session, e: Event) {
    && e.Continue? && CanHappen(s, e)
    && (s.tx.bds[s.tx.cur].ready
        || (|s.sender.raw| - s.sender.len <= b && s.sender.raw != s.sender.content))
  }

  /** What one more fragment does to the receiver. */
  lemma PostFeeds(t: Tx, bytes: seq<Byte>, last: bool)
    requires t.InRange()
    ensures Reassemble(Post(t, bytes, last).posted) == Feed(Reassemble(t.posted), Frag(bytes, last))
  {
    var f := Frag(bytes, last);
    FeedAppend(Reassembly([], []), t.posted, [f]);
    assert [f][1..] == [];
  }

  lemma BeginKeepsFaithful(b: int, s: Session, content: seq<Byte>, raw: seq<Byte>)
    requires 0 < b && Faithful(s) && CanHappen(s, Begin(content, raw))
    ensures Faithful(BeginSend(b, s, content, raw))
  {
    if |content| <= MAX_FRAME_LEN && !s.tx.bds[s.tx.cur].ready {
      var (bytes, last) := if |content| <= b then (content, true) else (raw[..b], false);
      PostKeepsInv(s.tx, bytes, last);
      PostFeeds(s.tx, bytes, last);
      assert [] + bytes == bytes;
    }
  }

  lemma GivingUpSpoils(b: int, s: Session)
    requires 0 < b && Faithful(s) && CanHappen(s, Continue) && s.tx.bds[s.tx.cur].ready
    ensures !Faithful(ContinueSend(b, s))
  {
    assert |Open(s.sender)| > 0;
  }

  lemma PieceKeepsFaithful(b: int, s: Session)
    requires 0 < b && Faithful(s) && CanHappen(s, Continue) && !s.tx.bds[s.tx.cur].ready
    requires |s.sender.raw| - s.sender.len > b
    ensures Faithful(ContinueSend(b, s))
  {
    var Cutting(content, raw, len) := s.sender;
    PostKeepsInv(s.tx, raw[len..len + b], false);
    PostFeeds(s.tx, raw[len..len + b], false);
    assert raw[..len] + raw[len..len + b] == raw[..len + b];
  }

  lemma LastPieceIsFaithful(b: int, s: Session)
    requires 0 < b && Faithful(s) && CanHappen(s, Continue) && !s.tx.bds[s.tx.cur].ready
    requires |s.sender.raw| - s.sender.len <= b
    ensures Faithful(ContinueSend(b, s)) <==> s.sender.raw == s.sender.content
  {
    var Cutting(content, raw, len) := s.sender;
    PostKeepsInv(s.tx, raw[len..], true);
    PostFeeds(s.tx, raw[len..], true);
    assert raw[..len] + raw[len..] == raw;
    SameLastFrame(s.accepted, raw, content);
  }

  lemma ContinueKeepsFaithful(b: int, s: Session)
    requires 0 < b && Faithful(s) && CanHappen(s, Continue)
    ensures Faithful(ContinueSend(b, s)) <==> !Spoils(b, s, Continue)
  {
    if s.tx.bds[s.tx.cur].ready {
      GivingUpSpoils(b, s);
    } else if |s.sender.raw| - s.sender.len > b {
      PieceKeepsFaithful(b, s);
    } else {
      LastPieceIsFaithful(b, s);
    }
  }

  /** The stream stays faithful over an event exactly when the event does not spoil it. */
  lemma FaithfulExactlyUnlessSpoiled(b: int, s: Session, e: Event)
    requires 0 < b && Faithful(s) && CanHappen(s, e)
    ensures Faithful(Step(b, s, e)) <==> !Spoils(b, s, e)
  {
    match e
    case Begin(content, raw) => BeginKeepsFaithful(b, s, content, raw);
    case Continue => ContinueKeepsFaithful(b, s);
    case Engine => TransmitKeepsInv(s.tx);
  }

  // ----- What each event does -----

  /** Beginning a send: a frame of more than 1518 bytes, or a full ring, changes nothing; otherwise
      exactly the first of its pieces is posted, which completes it or leaves it to be continued
      behind that piece. */
  lemma BeginPostsFirstPiece(b: int, s: Session, content: seq<Byte>, raw: seq<Byte>)
    requires 0 < b && Faithful(s) && CanHappen(s, Begin(content, raw))
    ensures var t := Step(b, s, Begin(content, raw));
            var pieces := Fragments(Sent(content, raw, b), b);
            if |content| > 1518 || s.tx.InFlight() == s.tx.N() then t == s
            else
              && t.tx.posted == s.tx.posted + pieces[..1] && t.tx.wire == s.tx.wire
              && if |pieces| == 1 then t.sender.Idle? && t.accepted == s.accepted + [content]
                 else t.sender == Cutting(content, raw, b) && t.accepted == s.accepted
                      && Fragments(raw[b..], b) == pieces[1..]
  {
    BusyExactlyWhenFull(s.tx);
    if |content| > b {
      assert Fragments(raw, b)[1..] == Fragments(raw[b..], b);
    }
  }

  /** Continuing it: on a full ring the send gives up, and otherwise exactly the next piece is
      posted; the frame is accepted with its last one. */
  lemma ContinuePostsNextPiece(b: int, s: Session)
    requires 0 < b && Faithful(s) && CanHappen(s, Continue)
    ensures var t := Step(b, s, Continue);
            var Cutting(content, raw, len) := s.sender;
            var pieces := Fragments(raw[len..], b);
            if s.tx.InFlight() == s.tx.N() then t == s.(sender := Idle)
            else
              && t.tx.posted == s.tx.posted + pieces[..1] && t.tx.wire == s.tx.wire
              && if |pieces| == 1 then t.sender.Idle? && t.accepted == s.accepted + [content]
                 else t.sender == Cutting(content, raw, len + b) && t.accepted == s.accepted
                      && Fragments(raw[len + b..], b) == pieces[1..]
  {
    BusyExactlyWhenFull(s.tx);
    var Cutting(content, raw, len) := s.sender;
    if |raw| - len > b {
      assert raw[len..][b..] == raw[len + b..] && raw[len..][..b] == raw[len..len + b];
      assert Fragments(raw[len..], b)[1..] == Fragments(raw[len + b..], b);
    }
  }

  /** The engine can run exactly while something is in flight, and then puts exactly the oldest
      fragment posted and not yet transmitted on the wire. */
  lemma EngineSendsOldest(b: int, s: Session)
    requires 0 < b && Faithful(s)
    ensures CanHappen(s, Engine) <==> |s.tx.wire| < |s.tx.posted|
    ensures CanHappen(s, Engine) ==>
              var t := Step(b, s, Engine);
              && t.tx.wire == s.tx.wire + [s.tx.posted[|s.tx.wire|]]
              && t.tx.posted == s.tx.posted && t.sender == s.sender && t.accepted == s.accepted
  {
    CanTransmitExactlyWhenInFlight(s.tx);
    assert Dist(s.tx.hw, s.tx.hw, s.tx.N()) == 0;
  }

  /** `trace` is a run: each state follows from the one before by an event that can happen. */
  predicate IsRun(b: int, trace: seq<Session>, es: seq<Event>)
    requires 0 < b
  {
    && |trace| == |es| + 1
    && forall i :: 0 <= i < |es| ==>
         CanHappen(trace[i], es[i]) && trace[i + 1] == Step(b, trace[i], es[i])
  }

  predicate Unspoiled(b: int, trace: seq<Session>, es: seq<Event>)
    requires |trace| == |es| + 1
  {
    forall i :: 0 <= i < |es| ==> !Spoils(b, trace[i], es[i])
  }

  lemma {:induction false} RunKeepsFaithful(b: int, trace: seq<Session>, es: seq<Event>, k: int)
    requires 0 < b && IsRun(b, trace, es) && Unspoiled(b, trace, es)
    requires 0 <= k <= |es| && Faithful(trace[0])
    ensures Faithful(trace[k])
  {
    if k > 0 {
      RunKeepsFaithful(b, trace, es, k - 1);
      FaithfulExactlyUnlessSpoiled(b, trace[k - 1], es[k - 1]);
    }
  }

  /** A buffer that takes any frame, as configured, never starts the multi-buffer loop. */
  lemma {:induction false} OneBufferNeverSpoils(
    b: int, trace: seq<Session>, es: seq<Event>, k: int)
    requires MAX_FRAME_LEN <= b && IsRun(b, trace, es) && trace[0].sender.Idle? && 0 <= k <= |es|
    ensures trace[k].sender.Idle?
    ensures k < |es| ==> !Spoils(b, trace[k], es[k])
  {
    if k > 0 {
      OneBufferNeverSpoils(b, trace, es, k - 1);
    }
  }

  /** For every ring size and buffer size and in every interleaving of sends and engine steps
      on a fresh ring, at every point the frames on the wire are, byte for byte and in order, a
      prefix of those accepted, and all of them once the sender is idle and nothing is in
      flight: always when one buffer takes any frame, else as long as nothing spoiled it. */
  lemma WireIsPrefixOfAccepted(b: int, n: int, trace: seq<Session>, es: seq<Event>, k: int)
    requires 0 < b && 0 < n && IsRun(b, trace, es) && 0 <= k <= |es|
    requires trace[0] == Session(Init(n), Idle, [])
    requires MAX_FRAME_LEN <= b || Unspoiled(b, trace, es)
    ensures var s := trace[k];
            && Reassemble(s.tx.wire).frames <= s.accepted
            && (s.tx.InFlight() == 0 ==> Reassemble(s.tx.wire).frames == s.accepted)
  {
    if MAX_FRAME_LEN <= b {
      forall i | 0 <= i < |es|
        ensures !Spoils(b, trace[i], es[i])
      {
        OneBufferNeverSpoils(b, trace, es, i);
      }
    }
    RunKeepsFaithful(b, trace, es, k);
    var t := trace[k].tx;
    ReassemblePrefix(t.wire, t.posted);
    assert t.InFlight() == 0 ==> t.wire == t.posted;
  }
}
