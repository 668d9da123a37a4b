/** How frames are cut into buffers, and what a receiver makes of the pieces. */
module EnetSend {
  import opened Ring
  import opened EnetRing

  datatype Status = Success | TxFrameBusy | TxFrameOverLen

  /** How a frame is cut into buffers of `b` bytes; only the last piece is marked LAST. */
  function Fragments(data: seq<Byte>, b: int): (fs: seq<Frag>)
    requires 0 < b
    ensures 0 < |fs|
    decreases |data|
  {
    if |data| <= b then [Frag(data, true)]
    else [Frag(data[..b], false)] + Fragments(data[b..], b)
  }

  function Bytes(fs: seq<Frag>): seq<Byte>
    decreases |fs|
  {
    if fs == [] then [] else fs[0].bytes + Bytes(fs[1..])
  }

  /** The fragments concatenate to the frame, all but the last fill their buffer, none exceeds
      it or is empty without need, and only the last one is marked LAST. */
  lemma FragmentsShape(data: seq<Byte>, b: int)
    requires 0 < b
    ensures var fs := Fragments(data, b);
            && Bytes(fs) == data
            && (forall i :: 0 <= i < |fs| ==> (fs[i].last <==> i == |fs| - 1))
            && (forall i :: 0 <= i < |fs| - 1 ==> |fs[i].bytes| == b)
            && |fs[|fs| - 1].bytes| <= b && (data != [] ==> fs[|fs| - 1].bytes != [])
  {
    FragmentsJoin(data, b);
    FragmentsCut(data, b);
  }

  lemma {:induction false} FragmentsJoin(data: seq<Byte>, b: int)
    requires 0 < b
    ensures Bytes(Fragments(data, b)) == data
    decreases |data|
  {
    var fs := Fragments(data, b);
    if |data| <= b {
      assert fs[1..] == [] && data + [] == data;
    } else {
      FragmentsJoin(data[b..], b);
      assert fs[1..] == Fragments(data[b..], b);
      assert data[..b] + data[b..] == data;
    }
  }

  lemma {:induction false} FragmentsCut(data: seq<Byte>, b: int)
    requires 0 < b
    ensures var fs := Fragments(data, b);
            && (forall i :: 0 <= i < |fs| ==> (fs[i].last <==> i == |fs| - 1))
            && (forall i :: 0 <= i < |fs| - 1 ==> |fs[i].bytes| == b)
            && |fs[|fs| - 1].bytes| <= b && (data != [] ==> fs[|fs| - 1].bytes != [])
    decreases |data|
  {
    if |data| > b {
      var rest := Fragments(data[b..], b);
      FragmentsCut(data[b..], b);
      assert Fragments(data, b) == [Frag(data[..b], false)] + rest;
    }
  }

  /** The fragment at position `i` of a frame when more than a buffer is left from `len`. */
  lemma FragmentOpen(data: seq<Byte>, b: int, len: int, all: seq<Frag>, i: int, log: seq<Frag>)
    requires 0 < b && 0 <= len && b < |data| - len
    requires 0 <= i < |all| && Fragments(data[len..], b) == all[i..]
    ensures i + 1 < |all| && Fragments(data[len + b..], b) == all[i + 1..]
    ensures log + all[..i] + [Frag(data[len..len + b], false)] == log + all[..i + 1]
  {
    assert data[len..][b..] == data[len + b..] && data[len..][..b] == data[len..len + b];
    assert all[i + 1..] == all[i..][1..];
    assert all[i] == all[i..][0];
  }

  /** The fragment at position `i` of a frame when what is left from `len` fits a buffer. */
  lemma FragmentLast(data: seq<Byte>, b: int, len: int, all: seq<Frag>, i: int, log: seq<Frag>)
    requires 0 < b && 0 <= len <= |data| <= len + b
    requires 0 <= i < |all| && Fragments(data[len..], b) == all[i..]
    ensures i + 1 == |all|
    ensures log + all[..i] + [Frag(data[len..], true)] == log + all[..i + 1]
  {
    assert all[i] == all[i..][0];
  }

  /** What a receiver makes of a fragment stream: complete frames and an open rest. */
  datatype Reassembly = Reassembly(frames: seq<seq<Byte>>, partial: seq<Byte>)

  function Feed(r: Reassembly, f: Frag): Reassembly {
    if f.last then Reassembly(r.frames + [r.partial + f.bytes], [])
    else r.(partial := r.partial + f.bytes)
  }

  function FeedAll(r: Reassembly, fs: seq<Frag>): Reassembly
    decreases |fs|
  {
    if fs == [] then r else FeedAll(Feed(r, fs[0]), fs[1..])
  }

  function Reassemble(fs: seq<Frag>): Reassembly {
    FeedAll(Reassembly([], []), fs)
  }

  lemma {:induction false} FeedAppend(r: Reassembly, fs: seq<Frag>, gs: seq<Frag>)
    ensures FeedAll(r, fs + gs) == FeedAll(FeedAll(r, fs), gs)
    decreases |fs|
  {
    if fs == [] {
      assert fs + gs == gs;
    } else {
      assert (fs + gs)[0] == fs[0] && (fs + gs)[1..] == fs[1..] + gs;
      FeedAppend(Feed(r, fs[0]), fs[1..], gs);
    }
  }

  /** A whole frame's fragments complete the open frame with exactly the frame's bytes. */
  lemma {:induction false} FeedFragments(r: Reassembly, data: seq<Byte>, b: int)
    requires 0 < b
    ensures FeedAll(r, Fragments(data, b)) == Reassembly(r.frames + [r.partial + data], [])
    decreases |data|
  {
    if |data| <= b {
      assert [Frag(data, true)][1..] == [];
    } else {
      FeedFragments(Feed(r, Frag(data[..b], false)), data[b..], b);
      assert Fragments(data, b)[1..] == Fragments(data[b..], b);
      assert r.partial + data[..b] + data[b..] == r.partial + data;
    }
  }

  /** The first `j` fragments of a frame only open it, with its first `j * b` bytes. */
  lemma {:induction false} FeedSome(r: Reassembly, data: seq<Byte>, b: int, j: int)
    requires 0 < b && 0 <= j < |Fragments(data, b)|
    ensures 0 <= j * b <= |data|
    ensures FeedAll(r, Fragments(data, b)[..j]) == r.(partial := r.partial + data[..j * b])
    decreases |data|
  {
    if j == 0 {
      assert r.partial + data[..0] == r.partial;
    } else {
      FeedSome(Feed(r, Frag(data[..b], false)), data[b..], b, j - 1);
      assert (j - 1) * b + b == j * b;
      assert Fragments(data, b)[..j][1..] == Fragments(data[b..], b)[..j - 1];
      assert r.partial + data[..b] + data[b..][..(j - 1) * b] == r.partial + data[..j * b];
    }
  }

  lemma {:induction false} FeedGrows(r: Reassembly, fs: seq<Frag>)
    ensures r.frames <= FeedAll(r, fs).frames
    decreases |fs|
  {
    if fs != [] {
      FeedGrows(Feed(r, fs[0]), fs[1..]);
    }
  }

  /** The receiver's complete frames only grow as more fragments arrive. */
  lemma ReassemblePrefix(fs: seq<Frag>, gs: seq<Frag>)
    requires fs <= gs
    ensures Reassemble(fs).frames <= Reassemble(gs).frames
  {
    assert gs == fs + gs[|fs|..];
    FeedAppend(Reassembly([], []), fs, gs[|fs|..]);
    FeedGrows(Reassemble(fs), gs[|fs|..]);
  }

  /** On the wire a whole frame's fragments are received as that frame, whatever `b` is. */
  lemma SentFrameIsReceived(fs: seq<Frag>, data: seq<Byte>, b: int)
    requires 0 < b && Reassemble(fs).partial == []
    ensures Reassemble(fs + Fragments(data, b)) == Reassembly(Reassemble(fs).frames + [data], [])
  {
    FeedAppend(Reassembly([], []), fs, Fragments(data, b));
    FeedFragments(Reassemble(fs), data, b);
    assert [] + data == data;
  }

  /** A send that gave up busy after `j` fragments and is then repeated delivers the frame
      intact exactly when `j` is zero. */
  lemma RetryIntactExactlyWhenNothingPosted(fs: seq<Frag>, data: seq<Byte>, b: int, j: int)
    requires 0 < b && 0 <= j < |Fragments(data, b)| && Reassemble(fs).partial == []
    ensures var fs' := fs + Fragments(data, b)[..j] + Fragments(data, b);
            Reassemble(fs').frames == Reassemble(fs).frames + [data] <==> j == 0
  {
    var none, r := Reassembly([], []), Reassemble(fs);
    var some, all := Fragments(data, b)[..j], Fragments(data, b);
    FeedAppend(none, fs + some, all);
    FeedAppend(none, fs, some);
    FeedSome(r, data, b, j);
    FeedFragments(FeedAll(r, some), data, b);
    var sent := [] + data[..j * b] + data;
    SameLastFrame(r.frames, sent, data);
    assert |sent| == j * b + |data|;
    assert j * b == 0 <==> j == 0;
    assert j == 0 ==> sent == data;
  }

  lemma SameLastFrame(frames: seq<seq<Byte>>, x: seq<Byte>, y: seq<Byte>)
    ensures frames + [x] == frames + [y] <==> x == y
  {
    assert (frames + [x])[|frames|] == x && (frames + [y])[|frames|] == y;
  }

  /** The aligned maximum frame length never needs a second buffer. */
  lemma AlignedBufferTakesAnyFrame(data: seq<Byte>)
    requires |data| <= MAX_FRAME_LEN
    ensures var b := (MAX_FRAME_LEN + 63) / 64 * 64; Fragments(data, b) == [Frag(data, true)]
  {
  }

  // ----- Which bytes are sent -----

  /** The caller passes the address of a packet structure.  One buffer is filled from the
      packet's content; the multi-buffer loop copies `raw`, the bytes at that address. */
  function Sent(content: seq<Byte>, raw: seq<Byte>, b: int): seq<Byte> {
    if |content| <= b then content else raw
  }

  /** So a frame whose send succeeds is received as its content exactly when it fits one buffer
      or the bytes at the address happen to be the content. */
  lemma ContentArrivesExactlyWhen(fs: seq<Frag>, content: seq<Byte>, raw: seq<Byte>, b: int)
    requires 0 < b && |raw| == |content| && Reassemble(fs).partial == []
    ensures Reassemble(fs + Fragments(Sent(content, raw, b), b)).frames
              == Reassemble(fs).frames + [content]
            <==> |content| <= b || raw == content
  {
    SentFrameIsReceived(fs, Sent(content, raw, b), b);
    SameLastFrame(Reassemble(fs).frames, Sent(content, raw, b), content);
  }
}
