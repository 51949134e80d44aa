/** `Vec<String>::sort`: the result is the input rearranged into
    non-decreasing string order. Insertion sort serves as the reference
    algorithm; `SortedUnique` shows every sort meeting the same contract
    returns the same sequence, so the choice of algorithm is immaterial. */
module Sorting {
  import opened StringOrder

  predicate Sorted(s: seq<string>) {
    forall i, j :: 0 <= i < j < |s| ==> Le(s[i], s[j])
  }

  /** A string below the head of a sorted sequence is below all of it. */
  lemma BelowHead(x: string, s: seq<string>)
    requires Sorted(s) && |s| > 0 && Le(x, s[0])
    ensures forall k :: 0 <= k < |s| ==> Le(x, s[k])
  {
    forall k | 0 < k < |s| ensures Le(x, s[k]) {
      CompareTransitive(x, s[0], s[k]);
    }
  }

  /** The head of a sorted sequence is below every element of it. */
  lemma HeadIsLeast(s: seq<string>, z: string)
    requires Sorted(s) && z in s
    ensures Le(s[0], z)
  {
    var k :| 0 <= k < |s| && s[k] == z;
    if k == 0 {
      LeReflexive(z);
    }
  }

  /** Every element of a rearrangement of `s` plus `x` lies above a lower
      bound of `x` and of `s`. */
  lemma BoundOfRearrangement(y: string, s: seq<string>, x: string, r: seq<string>)
    requires Sorted([y] + s) && Le(y, x)
    requires multiset(r) == multiset(s) + multiset{x}
    ensures forall k :: 0 <= k < |r| ==> Le(y, r[k])
  {
    forall k | 0 <= k < |r| ensures Le(y, r[k]) {
      assert r[k] in multiset(r);
      if r[k] != x {
        assert r[k] in s;
        var j :| 0 <= j < |s| && s[j] == r[k];
        assert ([y] + s)[0] == y && ([y] + s)[j + 1] == r[k];
      }
    }
  }

  /** Insert `x` before the first element it is not above. */
  function Insert(x: string, s: seq<string>): (r: seq<string>)
    requires Sorted(s)
    ensures Sorted(r)
    ensures multiset(r) == multiset(s) + multiset{x}
  {
    if |s| == 0 then [x]
    else if Le(x, s[0]) then
      BelowHead(x, s);
      [x] + s
    else
      var rest := Insert(x, s[1..]);
      assert s == [s[0]] + s[1..];
      CompareReverse(x, s[0]);
      BoundOfRearrangement(s[0], s[1..], x, rest);
      [s[0]] + rest
  }

  /** Sorting: a sorted rearrangement of the input. */
  function Sort(s: seq<string>): (r: seq<string>)
    ensures Sorted(r)
    ensures multiset(r) == multiset(s)
  {
    if |s| == 0 then []
    else
      assert s == [s[0]] + s[1..];
      Insert(s[0], Sort(s[1..]))
  }

  /** Two sorted rearrangements of the same strings start alike. */
  lemma SortedSameHead(a: seq<string>, b: seq<string>)
    requires Sorted(a) && Sorted(b) && |a| > 0
    requires multiset(a) == multiset(b)
    ensures |b| > 0 && a[0] == b[0]
  {
    assert |multiset(b)| == |multiset(a)|;
    assert a[0] in multiset(b) && b[0] in multiset(a);
    HeadIsLeast(a, b[0]);
    HeadIsLeast(b, a[0]);
    LeAntisymmetric(a[0], b[0]);
  }

  /** Dropping the head of a sequence drops one copy of it. */
  lemma TailMultiset(a: seq<string>)
    requires |a| > 0
    ensures multiset(a[1..]) == multiset(a) - multiset{a[0]}
  {
    assert a == [a[0]] + a[1..];
  }

  /** Two sorted rearrangements of the same strings are the same sequence. */
  lemma {:induction false} SortedUnique(a: seq<string>, b: seq<string>)
    requires Sorted(a) && Sorted(b)
    requires multiset(a) == multiset(b)
    ensures a == b
  {
    if |a| == 0 {
      assert |multiset(b)| == 0;
    } else {
      SortedSameHead(a, b);
      TailMultiset(a);
      TailMultiset(b);
      SortedUnique(a[1..], b[1..]);
      assert a == [a[0]] + a[1..] && b == [b[0]] + b[1..];
    }
  }
}
