/**
  The bounded deque `collections.deque(maxlen=cap)` that holds the capture
  script's frames and timestamps: appending to a full deque first drops the
  oldest entry. A deque is modelled as the sequence of its entries, oldest first.
 */
module RingBuffer {

  /** The last `n` entries of `s` (all of `s` when it is shorter): the reference for what a deque keeps. */
  function Newest<T>(s: seq<T>, n: nat): (r: seq<T>)
    ensures |r| == if |s| <= n then |s| else n
    ensures r == s[|s| - |r|..]
  {
    if |s| <= n then s else s[|s| - n..]
  }

  /**
    `q.append(x)` on a deque of maximum length `cap`: when the deque is full the
    leftmost (oldest) entry is discarded first; a deque of maximum length 0 stays empty.
   */
  function Push<T>(q: seq<T>, x: T, cap: nat): (r: seq<T>)
    requires |q| <= cap
    ensures |r| == if |q| < cap then |q| + 1 else cap
  {
    if |q| < cap then q + [x]
    else if cap == 0 then []
    else q[1..] + [x]
  }

  /**
    An append keeps exactly the newest `cap` entries of the deque extended by
    `x`; unless the deque cannot hold anything, `x` is its newest entry.
   */
  lemma PushKeepsNewest<T>(q: seq<T>, x: T, cap: nat)
    requires |q| <= cap
    ensures Push(q, x, cap) == Newest(q + [x], cap)
    ensures cap > 0 ==> Push(q, x, cap)[|Push(q, x, cap)| - 1] == x
  {
    if |q| == cap && cap > 0 {
      assert (q + [x])[|q + [x]| - cap..] == q[1..] + [x];
    }
  }

  /** Appending every element of `xs`, in order, one `append` at a time. */
  function PushAll<T>(q: seq<T>, xs: seq<T>, cap: nat): (r: seq<T>)
    requires |q| <= cap
    ensures |r| <= cap
    decreases |xs|
  {
    if xs == [] then q else PushAll(Push(q, xs[0], cap), xs[1..], cap)
  }

  /** Keeping the newest `n` of a sequence, then of that sequence extended, keeps the newest `n` of the whole. */
  lemma NewestOfNewest<T>(s: seq<T>, t: seq<T>, n: nat)
    ensures Newest(Newest(s, n) + t, n) == Newest(s + t, n)
  {
    var a := Newest(s, n);
    var u := Newest(a + t, n);
    var v := Newest(s + t, n);
    assert |u| == |v|;
    forall i | 0 <= i < |u|
      ensures u[i] == v[i]
    {
      if |a + t| - |u| + i < |a| {
        assert u[i] == a[|a + t| - |u| + i];
        assert a[|a + t| - |u| + i] == s[|s| - |a| + |a + t| - |u| + i];
      } else {
        assert u[i] == t[|a + t| - |u| + i - |a|];
      }
    }
  }

  /**
    A run of appends keeps exactly the newest `cap` of everything appended,
    oldest first: the deque's capacity bound and its eviction order.
   */
  lemma {:induction false} PushAllKeepsNewest<T>(q: seq<T>, xs: seq<T>, cap: nat)
    requires |q| <= cap
    ensures PushAll(q, xs, cap) == Newest(q + xs, cap)
    decreases |xs|
  {
    if xs == [] {
      assert q + xs == q;
    } else {
      var q' := Push(q, xs[0], cap);
      PushKeepsNewest(q, xs[0], cap);
      calc {
        PushAll(q, xs, cap);
        PushAll(q', xs[1..], cap);
        { PushAllKeepsNewest(q', xs[1..], cap); }
        Newest(Newest(q + [xs[0]], cap) + xs[1..], cap);
        { NewestOfNewest(q + [xs[0]], xs[1..], cap); }
        Newest(q + [xs[0]] + xs[1..], cap);
        { assert q + [xs[0]] + xs[1..] == q + xs; }
        Newest(q + xs, cap);
      }
    }
  }

  /**
    The newest `n` entries of two equally long sequences are equally many and
    come from the same positions, so entries paired by position stay paired.
   */
  lemma NewestKeepsPairs<A, B>(a: seq<A>, b: seq<B>, n: nat)
    requires |a| == |b|
    ensures |Newest(a, n)| == |Newest(b, n)|
    ensures forall i :: 0 <= i < |Newest(a, n)| ==>
      Newest(a, n)[i] == a[|a| - |Newest(a, n)| + i] && Newest(b, n)[i] == b[|a| - |Newest(a, n)| + i]
  {
  }

  /**
    After a run of appends to a deque holding `q`, the deque has
    min(cap, |q| + |xs|) entries and, when `xs` fits, ends with `xs` itself.
   */
  lemma PushAllShape<T>(q: seq<T>, xs: seq<T>, cap: nat)
    requires |q| <= cap
    ensures |PushAll(q, xs, cap)| == if |q| + |xs| <= cap then |q| + |xs| else cap
    ensures |xs| <= cap ==> PushAll(q, xs, cap)[|PushAll(q, xs, cap)| - |xs|..] == xs
  {
    PushAllKeepsNewest(q, xs, cap);
    var r := PushAll(q, xs, cap);
    if |xs| <= cap {
      assert r[|r| - |xs|..] == (q + xs)[|q + xs| - |xs|..];
    }
  }

  /** Pairs the i-th entries of two equally long sequences, as Python's `zip` does. */
  function Zip<A, B>(a: seq<A>, b: seq<B>): (r: seq<(A, B)>)
    requires |a| == |b|
    ensures |r| == |a|
    ensures forall i :: 0 <= i < |r| ==> r[i] == (a[i], b[i])
  {
    seq(|a|, i requires 0 <= i < |a| => (a[i], b[i]))
  }

  lemma ZipSnoc<A, B>(a: seq<A>, b: seq<B>, x: A, y: B)
    requires |a| == |b|
    ensures Zip(a + [x], b + [y]) == Zip(a, b) + [(x, y)]
  {
  }

  /**
    Two deques of the same capacity that are always appended in lockstep stay
    paired: appending `x` to one and `y` to the other is appending `(x, y)` to
    their zip, so position i of one still belongs with position i of the other.
   */
  lemma LockstepPush<A, B>(a: seq<A>, b: seq<B>, x: A, y: B, cap: nat)
    requires |a| == |b| <= cap
    ensures |Push(a, x, cap)| == |Push(b, y, cap)|
    ensures Zip(Push(a, x, cap), Push(b, y, cap)) == Push(Zip(a, b), (x, y), cap)
  {
    var pa, pb := Push(a, x, cap), Push(b, y, cap);
    var z := Zip(a, b);
    PushKeepsNewest(Zip(a, b), (x, y), cap);
    if |a| < cap {
      assert pa == a + [x] && pb == b + [y];
      ZipSnoc(a, b, x, y);
    } else if cap > 0 {
      assert pa == a[1..] + [x] && pb == b[1..] + [y];
      assert Zip(a[1..], b[1..]) == z[1..];
      ZipSnoc(a[1..], b[1..], x, y);
    }
  }
}
