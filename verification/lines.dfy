/** `join("\n")` on a vector of strings, and splitting text at a
    separator (as `str::split` does) to read the lines back. */
module Lines {

  /** `s` ends with `t`. */
  predicate EndsWith(s: string, t: string) {
    |t| <= |s| && s[|s| - |t|..] == t
  }

  /** The strings with one `sep` between neighbours; "" for none. */
  function Join(xs: seq<string>, sep: char): (r: string)
    ensures 1 <= |xs| ==> xs[0] <= r
    ensures 1 <= |xs| ==> EndsWith(r, xs[|xs| - 1])
  {
    if |xs| == 0 then []
    else if |xs| == 1 then xs[0]
    else xs[0] + [sep] + Join(xs[1..], sep)
  }

  /** The pieces between separators; text without a separator is one
      piece, and "" is one empty piece. */
  function Split(s: string, sep: char): (parts: seq<string>)
    ensures |parts| >= 1
  {
    if |s| == 0 then [[]]
    else
      var rest := Split(s[1..], sep);
      if s[0] == sep then [[]] + rest
      else [[s[0]] + rest[0]] + rest[1..]
  }

  /** Two or more strings join as the first, a separator, and the join of
      the rest. */
  lemma JoinCons(xs: seq<string>, sep: char)
    requires 2 <= |xs|
    ensures Join(xs, sep) == xs[0] + ([sep] + Join(xs[1..], sep))
  {
    assert xs[0] + [sep] + Join(xs[1..], sep) == xs[0] + ([sep] + Join(xs[1..], sep));
  }

  /** Separator-free text in front only lengthens the first piece. */
  lemma {:induction false} SplitAfterPrefix(a: string, s: string, sep: char)
    requires sep !in a
    ensures Split(a + s, sep) == [a + Split(s, sep)[0]] + Split(s, sep)[1..]
  {
    var parts := Split(s, sep);
    if |a| == 0 {
      assert a + s == s;
      assert a + parts[0] == parts[0];
      assert [parts[0]] + parts[1..] == parts;
    } else {
      assert (a + s)[0] == a[0] && (a + s)[1..] == a[1..] + s;
      SplitAfterPrefix(a[1..], s, sep);
      var rest := Split(a[1..] + s, sep);
      assert rest[0] == a[1..] + parts[0] && rest[1..] == parts[1..];
      assert [a[0]] + (a[1..] + parts[0]) == a + parts[0];
    }
  }

  /** A leading separator splits off one empty piece. */
  lemma SplitAtSeparator(t: string, sep: char)
    ensures Split([sep] + t, sep) == [[]] + Split(t, sep)
  {
    assert ([sep] + t)[1..] == t;
  }

  /** One joining step undone: a separator-free piece, a separator, and a
      text that splits into `rest` split into the piece followed by `rest`. */
  lemma SplitJoinStep(x: string, tail: string, rest: seq<string>, sep: char)
    requires sep !in x
    requires Split(tail, sep) == rest
    ensures Split(x + ([sep] + tail), sep) == [x] + rest
  {
    SplitAfterPrefix(x, [sep] + tail, sep);
    SplitAtSeparator(tail, sep);
    assert x + [] == x;
  }

  /** Splitting the joined text at the separator gives the strings back,
      provided there is at least one and none contains the separator. */
  lemma {:induction false} SplitJoin(xs: seq<string>, sep: char)
    requires |xs| >= 1
    requires forall i :: 0 <= i < |xs| ==> sep !in xs[i]
    ensures Split(Join(xs, sep), sep) == xs
  {
    if |xs| == 1 {
      SplitAfterPrefix(xs[0], [], sep);
      assert xs[0] + [] == xs[0];
    } else {
      var tail := Join(xs[1..], sep);
      SplitJoin(xs[1..], sep);
      JoinCons(xs, sep);
      SplitJoinStep(xs[0], tail, xs[1..], sep);
      assert xs == [xs[0]] + xs[1..];
    }
  }

  /** The joined text holds exactly one separator between each pair of
      neighbours and no other. */
  lemma {:induction false} JoinSeparators(xs: seq<string>, sep: char)
    requires |xs| >= 1
    requires forall i :: 0 <= i < |xs| ==> sep !in xs[i]
    ensures multiset(Join(xs, sep))[sep] == |xs| - 1
  {
    if |xs| == 1 {
      assert sep !in multiset(xs[0]);
    } else {
      JoinSeparators(xs[1..], sep);
      assert sep !in multiset(xs[0]);
    }
  }

  /** Every character of the joined text is the separator or a character
      of one of the strings. */
  lemma {:induction false} JoinAlphabet(xs: seq<string>, sep: char, ok: char -> bool)
    requires forall i, k :: 0 <= i < |xs| && 0 <= k < |xs[i]| ==> ok(xs[i][k])
    ensures forall k :: 0 <= k < |Join(xs, sep)| ==> Join(xs, sep)[k] == sep || ok(Join(xs, sep)[k])
  {
    if |xs| > 1 {
      JoinAlphabet(xs[1..], sep, ok);
      var tail := Join(xs[1..], sep);
      forall k | 0 <= k < |Join(xs, sep)| ensures Join(xs, sep)[k] == sep || ok(Join(xs, sep)[k]) {
        if k < |xs[0]| {
          assert Join(xs, sep)[k] == xs[0][k];
        } else if k > |xs[0]| {
          assert Join(xs, sep)[k] == tail[k - |xs[0]| - 1];
        }
      }
    } else if |xs| == 1 {
      assert Join(xs, sep) == xs[0];
    }
  }
}
