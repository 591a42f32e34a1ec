/**
  Go's string order and `sort.Strings`, as `processTIFFs` in
  src/go/process_capture/process_capture.go uses them to order the file list.
  Go compares strings byte by byte; characters stand for bytes here. The sort
  is modelled as an insertion sort; any sorting algorithm gives the same
  result, because a sorted permutation of a list is unique.
 */
module StringOrder {

  /** `a <= b` on Go strings: at the first difference the smaller byte wins, and a prefix comes first. */
  predicate LessEq(a: string, b: string)
    decreases |a|
  {
    |a| == 0 || (|b| > 0 && (a[0] < b[0] || (a[0] == b[0] && LessEq(a[1..], b[1..]))))
  }

  /** The length of the longest common prefix of `a` and `b`. */
  function CommonPrefixLength(a: string, b: string): (k: nat)
    ensures k <= |a| && k <= |b|
    ensures forall i :: 0 <= i < k ==> a[i] == b[i]
    ensures k < |a| && k < |b| ==> a[k] != b[k]
    decreases |a|
  {
    if |a| == 0 || |b| == 0 || a[0] != b[0] then 0
    else
      var k := CommonPrefixLength(a[1..], b[1..]);
      assert forall i :: 1 <= i < k + 1 ==> a[i] == a[1..][i - 1] && b[i] == b[1..][i - 1];
      k + 1
  }

  /**
    The recursive order is the textbook lexicographic order: `a <= b` exactly
    when `a` is a prefix of `b` or, at the first position where they differ,
    `a` has the smaller byte.
   */
  lemma {:induction false} LessEqAtFirstDifference(a: string, b: string)
    ensures LessEq(a, b) <==>
      (CommonPrefixLength(a, b) == |a| ||
       (CommonPrefixLength(a, b) < |b| && a[CommonPrefixLength(a, b)] < b[CommonPrefixLength(a, b)]))
    decreases |a|
  {
    if |a| > 0 && |b| > 0 && a[0] == b[0] {
      LessEqAtFirstDifference(a[1..], b[1..]);
    }
  }

  lemma {:induction false} Reflexive(a: string)
    ensures LessEq(a, a)
    decreases |a|
  {
    if |a| > 0 {
      Reflexive(a[1..]);
    }
  }

  lemma {:induction false} Total(a: string, b: string)
    ensures LessEq(a, b) || LessEq(b, a)
    decreases |a|
  {
    if |a| > 0 && |b| > 0 && a[0] == b[0] {
      Total(a[1..], b[1..]);
    }
  }

  lemma {:induction false} Antisymmetric(a: string, b: string)
    requires LessEq(a, b) && LessEq(b, a)
    ensures a == b
    decreases |a|
  {
    if |a| > 0 {
      Antisymmetric(a[1..], b[1..]);
      assert a == [a[0]] + a[1..] && b == [b[0]] + b[1..];
    }
  }

  lemma {:induction false} Transitive(a: string, b: string, c: string)
    requires LessEq(a, b) && LessEq(b, c)
    ensures LessEq(a, c)
    decreases |a|
  {
    if |a| > 0 && a[0] == b[0] && b[0] == c[0] {
      Transitive(a[1..], b[1..], c[1..]);
    }
  }

  /** Every element of `s` is at most every later element. */
  predicate Sorted(s: seq<string>) {
    forall i, j :: 0 <= i < j < |s| ==> LessEq(s[i], s[j])
  }

  /** Every element of `s` is at least `x`. */
  predicate AllAtLeast(x: string, s: seq<string>) {
    forall i :: 0 <= i < |s| ==> LessEq(x, s[i])
  }

  /** `x` placed before the first element it does not exceed. */
  function Insert(x: string, s: seq<string>): (r: seq<string>)
    ensures |r| == |s| + 1
    decreases |s|
  {
    if s == [] then [x]
    else if LessEq(x, s[0]) then [x] + s
    else [s[0]] + Insert(x, s[1..])
  }

  /** `sort.Strings`. */
  function Sort(s: seq<string>): (r: seq<string>)
    ensures |r| == |s|
    decreases |s|
  {
    if s == [] then [] else Insert(s[0], Sort(s[1..]))
  }

  lemma {:induction false} InsertPermutes(x: string, s: seq<string>)
    ensures multiset(Insert(x, s)) == multiset(s) + multiset{x}
    decreases |s|
  {
    if s != [] && !LessEq(x, s[0]) {
      InsertPermutes(x, s[1..]);
      assert s == [s[0]] + s[1..];
    }
  }

  lemma {:induction false} InsertKeepsLowerBound(y: string, x: string, s: seq<string>)
    requires LessEq(y, x) && AllAtLeast(y, s)
    ensures AllAtLeast(y, Insert(x, s))
  {
    var r := Insert(x, s);
    InsertPermutes(x, s);
    forall i | 0 <= i < |r|
      ensures LessEq(y, r[i])
    {
      assert r[i] in multiset(r);
      if r[i] != x {
        assert r[i] in multiset(s);
        var j :| 0 <= j < |s| && s[j] == r[i];
      }
    }
  }

  lemma {:induction false} InsertSorted(x: string, s: seq<string>)
    requires Sorted(s)
    ensures Sorted(Insert(x, s))
    decreases |s|
  {
    if s == [] {
    } else if LessEq(x, s[0]) {
      forall j | 0 <= j < |s|
        ensures LessEq(x, s[j])
      {
        if j > 0 {
          Transitive(x, s[0], s[j]);
        }
      }
    } else {
      InsertSorted(x, s[1..]);
      Total(x, s[0]);
      InsertKeepsLowerBound(s[0], x, s[1..]);
      var r := Insert(x, s);
      assert r == [s[0]] + Insert(x, s[1..]);
    }
  }

  /** `sort.Strings` leaves the list in ascending order. */
  lemma {:induction false} SortSorted(s: seq<string>)
    ensures Sorted(Sort(s))
    decreases |s|
  {
    if s != [] {
      SortSorted(s[1..]);
      InsertSorted(s[0], Sort(s[1..]));
    }
  }

  /** `sort.Strings` only reorders: the sorted list holds the same names, each as often. */
  lemma {:induction false} SortPermutes(s: seq<string>)
    ensures multiset(Sort(s)) == multiset(s)
    decreases |s|
  {
    if s != [] {
      SortPermutes(s[1..]);
      InsertPermutes(s[0], Sort(s[1..]));
      assert s == [s[0]] + s[1..];
    }
  }

  /** The first element of a sorted list is at most each of its elements. */
  lemma SortedHeadIsLeast(t: seq<string>, x: string)
    requires Sorted(t) && x in multiset(t) && |t| > 0
    ensures LessEq(t[0], x)
  {
    var j :| 0 <= j < |t| && t[j] == x;
    if j == 0 {
      Reflexive(x);
    }
  }

  /**
    A sorted permutation is unique: any algorithm that sorts `s` produces
    `Sort(s)`, so the model does not depend on the algorithm Go uses.
   */
  lemma {:induction false} SortedPermutationIsUnique(t: seq<string>, u: seq<string>)
    requires Sorted(t) && Sorted(u) && multiset(t) == multiset(u)
    ensures t == u
    decreases |t|
  {
    if |t| > 0 {
      SameHeads(t, u);
      SameTails(t, u);
      SortedTail(t);
      SortedTail(u);
      SortedPermutationIsUnique(t[1..], u[1..]);
      assert t == [t[0]] + t[1..] && u == [u[0]] + u[1..];
    }
  }

  /** Two sorted permutations of each other start with the same element. */
  lemma SameHeads(t: seq<string>, u: seq<string>)
    requires Sorted(t) && Sorted(u) && multiset(t) == multiset(u) && |t| > 0
    ensures |u| > 0 && t[0] == u[0]
  {
    assert |u| == |multiset(u)| == |t|;
    assert t[0] in multiset(u) && u[0] in multiset(t);
    SortedHeadIsLeast(u, t[0]);
    SortedHeadIsLeast(t, u[0]);
    Antisymmetric(t[0], u[0]);
  }

  /** Removing the same first element from two permutations of each other leaves permutations. */
  lemma SameTails(t: seq<string>, u: seq<string>)
    requires multiset(t) == multiset(u) && |t| > 0 && |u| > 0 && t[0] == u[0]
    ensures multiset(t[1..]) == multiset(u[1..])
  {
    assert t == [t[0]] + t[1..] && u == [u[0]] + u[1..];
    assert multiset(t) == multiset{t[0]} + multiset(t[1..]);
    assert multiset(u) == multiset{u[0]} + multiset(u[1..]);
    forall e
      ensures multiset(t[1..])[e] == multiset(u[1..])[e]
    {
      assert multiset(t)[e] == multiset{t[0]}[e] + multiset(t[1..])[e];
      assert multiset(u)[e] == multiset{u[0]}[e] + multiset(u[1..])[e];
    }
  }

  lemma SortedTail(t: seq<string>)
    requires Sorted(t) && |t| > 0
    ensures Sorted(t[1..])
  {
    forall i, j | 0 <= i < j < |t| - 1
      ensures LessEq(t[1..][i], t[1..][j])
    {
      assert t[1..][i] == t[i + 1] && t[1..][j] == t[j + 1];
    }
  }

  /** `sort.Strings` is the one ordering of its input that is sorted. */
  lemma SortIsTheSortedPermutation(s: seq<string>, u: seq<string>)
    requires Sorted(u) && multiset(u) == multiset(s)
    ensures Sort(s) == u
  {
    SortSorted(s);
    SortPermutes(s);
    SortedPermutationIsUnique(Sort(s), u);
  }
}
