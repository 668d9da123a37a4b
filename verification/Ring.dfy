/** Circular index arithmetic and circular segments, shared by the camera
    frame-buffer queue and the Ethernet transmit ring.

    Indices are kept in range by conditional subtraction, as the drivers do. */
module Ring {

  /** An index that ran at most once past the end, brought back into range. */
  function Wrap(i: nat, n: nat): (r: nat)
    requires 0 < n && i < 2 * n
    ensures r < n && (r == i || r + n == i)
  {
    if i >= n then i - n else i
  }

  /** The successor of an index, reset to zero at the end of the array. */
  function Next(i: nat, n: nat): (r: nat)
    requires i < n
    ensures r < n && r == Wrap(i + 1, n)
  {
    if i + 1 >= n then 0 else i + 1
  }

  /** How many increments lead from `a` to `b`: the modular distance. */
  function Dist(a: nat, b: nat, n: nat): (d: nat)
    requires a < n && b < n
    ensures d < n && Wrap(a + d, n) == b
  {
    if b >= a then b - a else b + n - a
  }

  /** The modular distance is the only offset below `n` that leads from `a` to `b`. */
  lemma DistUnique(a: nat, b: nat, n: nat, d: nat)
    requires a < n && b < n && d < n && Wrap(a + d, n) == b
    ensures d == Dist(a, b, n)
  {
  }

  /** The `k` entries of `q` that start at `i` and run circularly. */
  function Seg<T>(q: seq<T>, i: nat, k: nat): (s: seq<T>)
    requires i < |q| && k <= |q|
    ensures |s| == k
    ensures forall j :: 0 <= j < k ==> s[j] == q[Wrap(i + j, |q|)]
  {
    seq(k, j requires 0 <= j < k => q[Wrap(i + j, |q|)])
  }

  lemma SegSplit<T>(q: seq<T>, i: nat, a: nat, b: nat)
    requires i < |q| && a + b <= |q|
    ensures Seg(q, i, a + b) == Seg(q, i, a) + Seg(q, Wrap(i + a, |q|), b)
  {
    var l, r := Seg(q, i, a + b), Seg(q, i, a) + Seg(q, Wrap(i + a, |q|), b);
    forall j | 0 <= j < a + b
      ensures l[j] == r[j]
    {
      if a <= j {
        assert Wrap(Wrap(i + a, |q|) + (j - a), |q|) == Wrap(i + j, |q|);
      }
    }
  }

  lemma SegHead<T>(q: seq<T>, i: nat, k: nat)
    requires i < |q| && 0 < k <= |q|
    ensures Seg(q, i, k) == [q[i]] + Seg(q, Next(i, |q|), k - 1)
  {
    SegSplit(q, i, 1, k - 1);
    assert Seg(q, i, 1) == [q[i]];
  }

  /** Writing the slot just behind a segment extends it and disturbs nothing in it. */
  lemma SegExtend<T>(q: seq<T>, i: nat, k: nat, v: T)
    requires i < |q| && k < |q|
    ensures var q' := q[Wrap(i + k, |q|) := v];
            Seg(q', i, k) == Seg(q, i, k) && Seg(q', i, k + 1) == Seg(q, i, k) + [v]
  {
    var q' := q[Wrap(i + k, |q|) := v];
    assert Seg(q', i, k) == Seg(q, i, k);
    SegSplit(q', i, k, 1);
    assert Seg(q', Wrap(i + k, |q|), 1) == [v];
  }
}
