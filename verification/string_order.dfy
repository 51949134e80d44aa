/** Rust's `Ord` for `String`: lexicographic comparison, character by
    character (byte order of UTF-8 is code-point order), a proper prefix
    coming first. */
module StringOrder {

  datatype Ordering = Less | Equal | Greater {

    /** The ordering seen from the other side. */
    function Reverse(): Ordering {
      match this
      case Less => Greater
      case Equal => Equal
      case Greater => Less
    }

    /** `Ordering::then`: this, unless this is `Equal`. */
    function Then(next: Ordering): Ordering {
      if Equal? then next else this
    }
  }

  function CompareChar(a: char, b: char): Ordering {
    if a < b then Less else if a == b then Equal else Greater
  }

  /** Lexicographic comparison of two strings. */
  function Compare(a: string, b: string): Ordering {
    if |a| == 0 then (if |b| == 0 then Equal else Less)
    else if |b| == 0 then Greater
    else CompareChar(a[0], b[0]).Then(Compare(a[1..], b[1..]))
  }

  /** A string never comes after a string it is a prefix of, and a proper
      prefix comes first. */
  lemma {:induction false} ComparePrefix(a: string, b: string)
    ensures a <= b ==> Compare(a, b) != Greater
    ensures a < b ==> Compare(a, b) == Less
  {
    if |a| > 0 && |b| > 0 {
      ComparePrefix(a[1..], b[1..]);
    }
  }

  /** `a <= b` in the string order. */
  predicate Le(a: string, b: string) {
    Compare(a, b) != Greater
  }

  /** Only equal strings compare `Equal`. */
  lemma {:induction false} CompareEqual(a: string, b: string)
    ensures Compare(a, b) == Equal <==> a == b
  {
    if |a| > 0 && |b| > 0 {
      CompareEqual(a[1..], b[1..]);
      if a[0] == b[0] && a[1..] == b[1..] {
        assert a == [a[0]] + a[1..] && b == [b[0]] + b[1..];
      }
    }
  }

  /** Swapping the operands reverses the answer. */
  lemma {:induction false} CompareReverse(a: string, b: string)
    ensures Compare(b, a) == Compare(a, b).Reverse()
  {
    if |a| > 0 && |b| > 0 {
      CompareReverse(a[1..], b[1..]);
    }
  }

  lemma {:induction false} CompareTransitive(a: string, b: string, c: string)
    requires Le(a, b) && Le(b, c)
    ensures Le(a, c)
  {
    if |a| > 0 && |b| > 0 && |c| > 0 && a[0] == b[0] == c[0] {
      CompareTransitive(a[1..], b[1..], c[1..]);
    }
  }

  lemma LeAntisymmetric(a: string, b: string)
    requires Le(a, b) && Le(b, a)
    ensures a == b
  {
    CompareReverse(a, b);
    CompareEqual(a, b);
  }

  lemma LeReflexive(a: string)
    ensures Le(a, a)
  {
    CompareEqual(a, a);
  }

  /** For strings of equal length, a last character decides only when
      everything before it is equal. */
  lemma {:induction false} CompareSnoc(a: string, b: string, x: char, y: char)
    requires |a| == |b|
    ensures Compare(a + [x], b + [y]) == Compare(a, b).Then(CompareChar(x, y))
  {
    if |a| > 0 {
      assert (a + [x])[1..] == a[1..] + [x];
      assert (b + [y])[1..] == b[1..] + [y];
      CompareSnoc(a[1..], b[1..], x, y);
    }
  }
}
