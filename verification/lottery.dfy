/** The program's `main`: enumerate every `n_digits`-digit number, shuffle,
    keep the first `n_lottos`, zero-pad each to `n_digits` characters, sort
    the strings and join them with newlines. The random shuffle is an input:
    an arbitrary sequence of transpositions applied to the pool. */
module Lottery {
  import opened Seqs
  import opened Decimal
  import opened StringOrder
  import opened Sorting
  import opened Lines

  /** Both command-line arguments are `u8`. */
  type U8 = x: nat | x < 256

  const DEFAULT_LOTTOS: U8 := 10
  const DEFAULT_DIGITS: U8 := 6
  const U32_MAX: nat := 0xFFFF_FFFF

  /** The two ways the program panics. */
  datatype Error =
    | PowOverflow       // `10_u32.pow(n_digits)` does not fit in a u32
    | RangeOutOfBounds  // the slice `[0..n_lottos]` ends past the pool

  datatype Result<T> = Ok(value: T) | Err(error: Error)

  /** 10^d fits in a u32 exactly for the widths 0 through 9. */
  lemma Pow10FitsU32(d: nat)
    ensures Pow10(d) <= U32_MAX <==> d <= 9
  {
    if d <= 9 {
      Pow10Monotone(d, 9);
    } else {
      Pow10Monotone(10, d);
    }
  }

  /** `10_u32.pow(d)`: the size of the pool, or the overflow panic. */
  function PoolSize(d: U8): (r: Result<nat>)
    ensures r.Ok? <==> d <= 9
    ensures r.Ok? ==> r.value == Pow10(d) && r.value <= U32_MAX
    ensures r.Err? ==> r.error == PowOverflow
  {
    Pow10FitsU32(d);
    if Pow10(d) <= U32_MAX then Ok(Pow10(d)) else Err(PowOverflow)
  }

  /** `(0..m).collect()`: every number below `m`, once each, ascending. */
  function Pool(m: nat): (pool: seq<nat>)
    ensures |pool| == m
    ensures forall i, j :: 0 <= i < j < |pool| ==> pool[i] < pool[j]
    ensures forall x: nat :: x in pool <==> x < m
  {
    var pool := seq(m, i => i);
    RangeMembers(pool, m);
    pool
  }

  lemma RangeMembers(pool: seq<nat>, m: nat)
    requires |pool| == m && forall i :: 0 <= i < m ==> pool[i] == i
    ensures forall x: nat :: x in pool <==> x < m
  {
    forall x: nat | x < m ensures x in pool {
      assert pool[x] == x;
    }
  }

  /** The shuffle's transpositions all stay inside a vector of length `m`. */
  predicate ValidSwaps(swaps: seq<(nat, nat)>, m: nat) {
    forall k :: 0 <= k < |swaps| ==> swaps[k].0 < m && swaps[k].1 < m
  }

  /** `slice.swap(i, j)`. */
  function Swap(s: seq<nat>, i: nat, j: nat): (r: seq<nat>)
    requires i < |s| && j < |s|
    ensures |r| == |s| && r[i] == s[j] && r[j] == s[i]
    ensures forall k :: 0 <= k < |s| && k != i && k != j ==> r[k] == s[k]
    ensures multiset(r) == multiset(s)
  {
    s[i := s[j]][j := s[i]]
  }

  /** The shuffle, as the transpositions it performs: the result is a
      rearrangement of the input. */
  function Shuffle(s: seq<nat>, swaps: seq<(nat, nat)>): (r: seq<nat>)
    requires ValidSwaps(swaps, |s|)
    ensures |r| == |s|
    ensures multiset(r) == multiset(s)
    decreases |swaps|
  {
    if |swaps| == 0 then s
    else Shuffle(Swap(s, swaps[0].0, swaps[0].1), swaps[1..])
  }

  /** Transpositions inside the suffix from `k` leave the suffix's
      contents unchanged. */
  lemma SwapInSuffix(s: seq<nat>, k: nat, j: nat)
    requires k <= j < |s|
    ensures multiset(Swap(s, k, j)[k..]) == multiset(s[k..])
  {
    var t := Swap(s, k, j);
    assert t[..k] == s[..k];
    assert t == t[..k] + t[k..] && s == s[..k] + s[k..];
  }

  /** One step of building a shuffle towards `q`: swapping `q[k]` into
      position `k` extends the agreeing prefix by one ... */
  lemma SwapExtendsPrefix(s: seq<nat>, q: seq<nat>, k: nat, j: nat)
    requires |s| == |q| && k <= j < |s| && s[j] == q[k]
    requires s[..k] == q[..k]
    ensures Swap(s, k, j)[..k + 1] == q[..k + 1]
  {
    var t := Swap(s, k, j);
    forall m | 0 <= m < k + 1 ensures t[m] == q[m] {
      if m < k {
        assert s[..k][m] == q[..k][m];
      }
    }
  }

  /** ... and leaves the rest of `q`'s contents for the positions after `k`. */
  lemma SwapLeavesSuffix(s: seq<nat>, q: seq<nat>, k: nat, j: nat)
    requires |s| == |q| && k <= j < |s| && s[j] == q[k]
    requires multiset(s[k..]) == multiset(q[k..])
    ensures multiset(Swap(s, k, j)[k + 1..]) == multiset(q[k + 1..])
  {
    var t := Swap(s, k, j);
    SwapInSuffix(s, k, j);
    DropFirst(t, k);
    DropFirst(q, k);
  }

  /** The suffix after `k` holds the suffix from `k` minus its first entry. */
  lemma DropFirst(s: seq<nat>, k: nat)
    requires k < |s|
    ensures multiset(s[k + 1..]) == multiset(s[k..]) - multiset{s[k]}
  {
    assert s[k..] == [s[k]] + s[k + 1..];
  }

  /** The position in the suffix from `k` that holds `q[k]`. */
  lemma FindNext(s: seq<nat>, q: seq<nat>, k: nat) returns (j: nat)
    requires |s| == |q| && k < |s|
    requires multiset(s[k..]) == multiset(q[k..])
    ensures k <= j < |s| && s[j] == q[k]
  {
    assert q[k..][0] == q[k];
    assert q[k] in multiset(q[k..]);
    assert q[k] in s[k..];
    var i :| 0 <= i < |s[k..]| && s[k..][i] == q[k];
    j := k + i;
  }

  /** Nothing is lost by taking the shuffle as a list of transpositions:
      from position `k` on, every rearrangement is reachable. */
  lemma {:induction false} ShuffleTowards(s: seq<nat>, q: seq<nat>, k: nat) returns (swaps: seq<(nat, nat)>)
    requires |s| == |q| && k <= |s|
    requires s[..k] == q[..k] && multiset(s[k..]) == multiset(q[k..])
    ensures ValidSwaps(swaps, |s|) && Shuffle(s, swaps) == q
    decreases |s| - k
  {
    if k == |s| {
      assert s == s[..k] && q == q[..k];
      swaps := [];
    } else {
      var j := FindNext(s, q, k);
      SwapExtendsPrefix(s, q, k, j);
      SwapLeavesSuffix(s, q, k, j);
      var rest := ShuffleTowards(Swap(s, k, j), q, k + 1);
      ShuffleFirstSwap(s, k, j, rest);
      swaps := [(k, j)] + rest;
    }
  }

  /** A shuffle that starts with the transposition `(k, j)`. */
  lemma ShuffleFirstSwap(s: seq<nat>, k: nat, j: nat, rest: seq<(nat, nat)>)
    requires k < |s| && j < |s| && ValidSwaps(rest, |s|)
    ensures ValidSwaps([(k, j)] + rest, |s|)
    ensures Shuffle(s, [(k, j)] + rest) == Shuffle(Swap(s, k, j), rest)
  {
    var swaps := [(k, j)] + rest;
    assert swaps[0] == (k, j) && swaps[1..] == rest;
  }

  /** Every rearrangement of a sequence is the result of some shuffle. */
  lemma ShuffleReachesAll(s: seq<nat>, q: seq<nat>)
    requires multiset(s) == multiset(q)
    ensures exists swaps :: ValidSwaps(swaps, |s|) && Shuffle(s, swaps) == q
  {
    assert |s| == |multiset(s)| == |multiset(q)| == |q|;
    assert s[0..] == s && q[0..] == q;
    var swaps := ShuffleTowards(s, q, 0);
  }

  /** The zero-padded text of each value, in order. */
  function FormatAll(vals: seq<nat>, d: nat): (lines: seq<string>)
    ensures |lines| == |vals|
    ensures forall i :: 0 <= i < |vals| ==> lines[i] == Pad(vals[i], d) && Parse(lines[i]) == vals[i]
  {
    if |vals| == 0 then []
    else
      PadRoundTrip(vals[0], d);
      [Pad(vals[0], d)] + FormatAll(vals[1..], d)
  }

  /** The first `n` numbers of the shuffled pool of size `m`. */
  function Drawn(m: nat, swaps: seq<(nat, nat)>, n: nat): (drawn: seq<nat>)
    requires ValidSwaps(swaps, m) && n <= m
    ensures |drawn| == n && Distinct(drawn)
    ensures forall i :: 0 <= i < n ==> drawn[i] < m
  {
    var pool := Pool(m);
    var shuffled := Shuffle(pool, swaps);
    DistinctPermutation(pool, shuffled);
    DistinctPrefix(shuffled, n);
    SameMembers(pool, shuffled);
    assert forall i :: 0 <= i < n ==> shuffled[..n][i] in shuffled;
    shuffled[..n]
  }

  lemma SameMembers(a: seq<nat>, b: seq<nat>)
    requires multiset(a) == multiset(b)
    ensures forall x :: x in a <==> x in b
  {
    forall x ensures x in a <==> x in b {
      assert x in a <==> x in multiset(a);
      assert x in b <==> x in multiset(b);
    }
  }

  /** `lotto_nums` after `sort()`. */
  function LottoNumbers(n: U8, d: U8, swaps: seq<(nat, nat)>): (r: Result<seq<string>>)
    requires d <= 9 ==> ValidSwaps(swaps, Pow10(d))
    ensures r.Err? <==> 9 < d || Pow10(d) < n
    ensures r.Err? ==> r.error == (if 9 < d then PowOverflow else RangeOutOfBounds)
    ensures r.Ok? ==> |r.value| == n && Sorted(r.value)
  {
    match PoolSize(d)
    case Err(e) => Err(e)
    case Ok(m) =>
      if n <= m then
        var lines := Sort(FormatAll(Drawn(m, swaps, n), d));
        assert |lines| == |multiset(lines)|;
        Ok(lines)
      else Err(RangeOutOfBounds)
  }

  /** The text `println!` writes, without its final newline. */
  function Render(n: U8, d: U8, swaps: seq<(nat, nat)>): (r: Result<string>)
    requires d <= 9 ==> ValidSwaps(swaps, Pow10(d))
    ensures r.Err? <==> LottoNumbers(n, d, swaps).Err?
  {
    match LottoNumbers(n, d, swaps)
    case Err(e) => Err(e)
    case Ok(lines) => Ok(Join(lines, '\n'))
  }

  /** Padding distinct numbers gives distinct texts. */
  lemma FormatAllDistinct(vals: seq<nat>, d: nat)
    requires Distinct(vals)
    ensures Distinct(FormatAll(vals, d))
  {
    var formatted := FormatAll(vals, d);
    forall i, j | 0 <= i < j < |formatted| ensures formatted[i] != formatted[j] {
      assert Parse(formatted[i]) == vals[i] && Parse(formatted[j]) == vals[j];
    }
  }

  /** A rearrangement of the padded texts holds each of them and nothing else. */
  lemma RearrangedPadded(vals: seq<nat>, d: nat, lines: seq<string>)
    requires multiset(lines) == multiset(FormatAll(vals, d))
    ensures |lines| == |vals|
    ensures forall k :: 0 <= k < |lines| ==> exists i :: 0 <= i < |vals| && lines[k] == Pad(vals[i], d)
    ensures forall k :: 0 <= k < |lines| ==> IsDecimal(lines[k])
    ensures forall i :: 0 <= i < |vals| ==> Pad(vals[i], d) in lines
  {
    var formatted := FormatAll(vals, d);
    assert |lines| == |multiset(lines)| == |multiset(formatted)| == |vals|;
    forall k | 0 <= k < |lines|
      ensures exists i :: 0 <= i < |vals| && lines[k] == Pad(vals[i], d)
    {
      assert lines[k] in multiset(formatted);
      var i :| 0 <= i < |formatted| && formatted[i] == lines[k];
    }
    forall i | 0 <= i < |vals| ensures Pad(vals[i], d) in lines {
      assert formatted[i] in multiset(lines);
    }
  }

  /** Distinct padded texts in string order ascend strictly as numbers. */
  lemma PaddedAscending(vals: seq<nat>, d: nat, lines: seq<string>)
    requires forall i :: 0 <= i < |vals| ==> vals[i] < Pow10(d)
    requires forall k :: 0 <= k < |lines| ==> exists i :: 0 <= i < |vals| && lines[k] == Pad(vals[i], d)
    requires Sorted(lines) && Distinct(lines)
    ensures forall i, j :: 0 <= i < j < |lines| ==>
      IsDecimal(lines[i]) && IsDecimal(lines[j]) && Parse(lines[i]) < Parse(lines[j])
  {
    forall i, j | 0 <= i < j < |lines|
      ensures IsDecimal(lines[i]) && IsDecimal(lines[j]) && Parse(lines[i]) < Parse(lines[j])
    {
      var a :| 0 <= a < |vals| && lines[i] == Pad(vals[a], d);
      var b :| 0 <= b < |vals| && lines[j] == Pad(vals[b], d);
      PaddedPair(vals[a], vals[b], d, lines[i], lines[j]);
    }
  }

  /** Two different padded texts in string order have ascending values. */
  lemma PaddedPair(x: nat, y: nat, d: nat, lo: string, hi: string)
    requires x < Pow10(d) && y < Pow10(d)
    requires lo == Pad(x, d) && hi == Pad(y, d)
    requires Le(lo, hi) && lo != hi
    ensures IsDecimal(lo) && IsDecimal(hi) && Parse(lo) < Parse(hi)
  {
    PadCompare(x, y, d);
    CompareEqual(lo, hi);
    PadRoundTrip(x, d);
    PadRoundTrip(y, d);
  }

  /** Sorting the padded text of distinct numbers below 10^d: the lines are
      exactly those texts, and they ascend strictly as numbers. */
  lemma SortedPadded(vals: seq<nat>, d: nat, lines: seq<string>)
    requires Distinct(vals)
    requires forall i :: 0 <= i < |vals| ==> vals[i] < Pow10(d)
    requires Sorted(lines) && multiset(lines) == multiset(FormatAll(vals, d))
    ensures |lines| == |vals| && Distinct(lines)
    ensures forall k :: 0 <= k < |lines| ==> exists i :: 0 <= i < |vals| && lines[k] == Pad(vals[i], d)
    ensures forall k :: 0 <= k < |lines| ==> IsDecimal(lines[k])
    ensures forall i :: 0 <= i < |vals| ==> Pad(vals[i], d) in lines
    ensures forall i, j :: 0 <= i < j < |lines| ==> Parse(lines[i]) < Parse(lines[j])
  {
    FormatAllDistinct(vals, d);
    DistinctPermutation(FormatAll(vals, d), lines);
    RearrangedPadded(vals, d, lines);
    PaddedAscending(vals, d, lines);
  }

  /** What a successful run produces: `n` distinct lines, each the
      zero-padded text of a drawn number below 10^d (exactly `d` digits
      when `d >= 1`), every drawn number present, in ascending numeric
      order. */
  lemma LottoNumbersCorrect(n: U8, d: U8, swaps: seq<(nat, nat)>)
    requires d <= 9 ==> ValidSwaps(swaps, Pow10(d))
    ensures var r := LottoNumbers(n, d, swaps);
      r.Ok? ==>
        && Distinct(r.value)
        && (forall k :: 0 <= k < n ==>
              IsDecimal(r.value[k]) && Parse(r.value[k]) < Pow10(d)
              && r.value[k] == Pad(Parse(r.value[k]), d)
              && Parse(r.value[k]) in Drawn(Pow10(d), swaps, n))
        && (forall k :: 0 <= k < n && 1 <= d ==> |r.value[k]| == d)
        && (forall v :: v in Drawn(Pow10(d), swaps, n) ==> Pad(v, d) in r.value)
        && (forall i, j :: 0 <= i < j < n ==> Parse(r.value[i]) < Parse(r.value[j]))
  {
    var r := LottoNumbers(n, d, swaps);
    if r.Ok? {
      var drawn := Drawn(Pow10(d), swaps, n);
      var lines := r.value;
      assert lines == Sort(FormatAll(drawn, d));
      SortedPadded(drawn, d, lines);
      PaddedLines(drawn, d, lines);
      forall v | v in drawn ensures Pad(v, d) in lines {
        var i :| 0 <= i < |drawn| && drawn[i] == v;
      }
    }
  }

  /** Each line that is the padded text of a number below 10^d reads back
      as that number and has exactly `d` characters when `d >= 1`. */
  lemma PaddedLines(vals: seq<nat>, d: nat, lines: seq<string>)
    requires forall i :: 0 <= i < |vals| ==> vals[i] < Pow10(d)
    requires forall k :: 0 <= k < |lines| ==> exists i :: 0 <= i < |vals| && lines[k] == Pad(vals[i], d)
    ensures forall k :: 0 <= k < |lines| ==>
      && IsDecimal(lines[k]) && Parse(lines[k]) < Pow10(d)
      && lines[k] == Pad(Parse(lines[k]), d)
      && Parse(lines[k]) in vals
      && (1 <= d ==> |lines[k]| == d)
  {
    forall k | 0 <= k < |lines|
      ensures IsDecimal(lines[k]) && Parse(lines[k]) < Pow10(d)
      ensures lines[k] == Pad(Parse(lines[k]), d)
      ensures Parse(lines[k]) in vals
      ensures 1 <= d ==> |lines[k]| == d
    {
      var i :| 0 <= i < |vals| && lines[k] == Pad(vals[i], d);
      PadRoundTrip(vals[i], d);
      PadLength(vals[i], d);
    }
  }

  /** The printed text: one line per number, in the sorted order, separated
      by exactly `n - 1` newlines and containing nothing but digits and
      those newlines. Splitting it at the newlines gives the lines back. */
  lemma RenderShape(n: U8, d: U8, swaps: seq<(nat, nat)>)
    requires d <= 9 ==> ValidSwaps(swaps, Pow10(d))
    ensures var r := Render(n, d, swaps);
      r.Ok? ==>
        && (n == 0 ==> r.value == [])
        && (1 <= n ==> multiset(r.value)['\n'] == n - 1)
        && (1 <= n ==> Split(r.value, '\n') == LottoNumbers(n, d, swaps).value)
        && (forall k :: 0 <= k < |r.value| ==> r.value[k] == '\n' || IsDigit(r.value[k]))
  {
    if Render(n, d, swaps).Ok? {
      LottoNumbersCorrect(n, d, swaps);
      NewlineJoined(LottoNumbers(n, d, swaps).value);
    }
  }

  /** Digit strings joined with newlines. */
  lemma NewlineJoined(lines: seq<string>)
    requires forall k :: 0 <= k < |lines| ==> IsDecimal(lines[k])
    ensures |lines| == 0 ==> Join(lines, '\n') == []
    ensures 1 <= |lines| ==> multiset(Join(lines, '\n'))['\n'] == |lines| - 1
    ensures 1 <= |lines| ==> Split(Join(lines, '\n'), '\n') == lines
    ensures forall k :: 0 <= k < |Join(lines, '\n')| ==>
      Join(lines, '\n')[k] == '\n' || IsDigit(Join(lines, '\n')[k])
  {
    assert forall i :: 0 <= i < |lines| ==> '\n' !in lines[i];
    JoinAlphabet(lines, '\n', IsDigit);
    if 1 <= |lines| {
      JoinSeparators(lines, '\n');
      SplitJoin(lines, '\n');
    }
  }

  /** Gaps between strictly ascending naturals are at least the index gaps. */
  lemma {:induction false} AscendingGap(s: seq<nat>, i: nat, j: nat)
    requires forall a, b :: 0 <= a < b < |s| ==> s[a] < s[b]
    requires i <= j < |s|
    ensures s[i] + (j - i) <= s[j]
    decreases j - i
  {
    if i < j {
      AscendingGap(s, i + 1, j);
    }
  }

  /** A strictly ascending sequence of naturals below its own length is
      0, 1, 2, .... */
  lemma AscendingBelowLength(s: seq<nat>)
    requires forall a, b :: 0 <= a < b < |s| ==> s[a] < s[b]
    requires forall a :: 0 <= a < |s| ==> s[a] < |s|
    ensures forall a :: 0 <= a < |s| ==> s[a] == a
  {
    forall a | 0 <= a < |s| ensures s[a] == a {
      AscendingGap(s, 0, a);
      AscendingGap(s, a, |s| - 1);
    }
  }

  /** Drawing the whole pool gives every d-digit text in ascending order,
      whatever the shuffle did. */
  lemma FullDraw(n: U8, d: U8, swaps: seq<(nat, nat)>)
    requires d <= 9 && ValidSwaps(swaps, Pow10(d))
    requires n == Pow10(d)
    ensures LottoNumbers(n, d, swaps).Ok?
    ensures forall k :: 0 <= k < n ==> LottoNumbers(n, d, swaps).value[k] == Pad(k, d)
  {
    LottoNumbersCorrect(n, d, swaps);
    EveryValueInOrder(LottoNumbers(n, d, swaps).value, d);
  }

  /** Padded lines whose values ascend strictly and stay below the number
      of lines are the padded texts of 0, 1, 2, .... */
  lemma EveryValueInOrder(lines: seq<string>, d: nat)
    requires forall k :: 0 <= k < |lines| ==>
      IsDecimal(lines[k]) && Parse(lines[k]) < |lines| && lines[k] == Pad(Parse(lines[k]), d)
    requires forall i, j :: 0 <= i < j < |lines| ==> Parse(lines[i]) < Parse(lines[j])
    ensures forall k :: 0 <= k < |lines| ==> lines[k] == Pad(k, d)
  {
    var vals := seq(|lines|, k requires 0 <= k < |lines| => Parse(lines[k]));
    AscendingBelowLength(vals);
    forall k | 0 <= k < |lines| ensures lines[k] == Pad(k, d) {
      assert vals[k] == k;
    }
  }

  /** A one-digit value pads to width 1 as its own digit character. */
  lemma PadOneDigit(v: nat)
    requires v < 10
    ensures Pad(v, 1) == [DigitChar(v)]
  {
  }

  /** The ten one-character digit strings, in order. */
  const ONE_DIGIT_LINES: seq<string> := ["0", "1", "2", "3", "4", "5", "6", "7", "8", "9"]

  lemma OneDigitLine(v: nat)
    requires v < 10
    ensures ONE_DIGIT_LINES[v] == Pad(v, 1)
  {
    PadOneDigit(v);
  }

  /** With one digit and ten numbers the lines are "0" through "9". */
  lemma OneDigitTen(swaps: seq<(nat, nat)>)
    requires ValidSwaps(swaps, 10)
    ensures LottoNumbers(10, 1, swaps) == Ok(ONE_DIGIT_LINES)
  {
    assert Pow10(1) == 10;
    FullDraw(10, 1, swaps);
    var lines := LottoNumbers(10, 1, swaps).value;
    forall v | 0 <= v < 10 ensures lines[v] == ONE_DIGIT_LINES[v] {
      OneDigitLine(v);
    }
    assert lines == ONE_DIGIT_LINES;
  }

  /** With zero digits the pool is just 0, which prints as "0" (one
      character, wider than the requested width). */
  lemma ZeroDigits(swaps: seq<(nat, nat)>)
    requires ValidSwaps(swaps, 1)
    ensures LottoNumbers(0, 0, swaps) == Ok([])
    ensures LottoNumbers(1, 0, swaps) == Ok(["0"])
    ensures LottoNumbers(2, 0, swaps) == Err(RangeOutOfBounds)
  {
    FullDraw(1, 0, swaps);
    assert Pad(0, 0) == "0";
  }

  /** The default arguments always succeed with ten six-digit lines. */
  lemma DefaultArguments(swaps: seq<(nat, nat)>)
    requires ValidSwaps(swaps, Pow10(DEFAULT_DIGITS))
    ensures LottoNumbers(DEFAULT_LOTTOS, DEFAULT_DIGITS, swaps).Ok?
    ensures forall k :: 0 <= k < 10 ==> |LottoNumbers(DEFAULT_LOTTOS, DEFAULT_DIGITS, swaps).value[k]| == 6
  {
    Pow10FitsU32(6);
    Pow10Monotone(1, 6);
    LottoNumbersCorrect(DEFAULT_LOTTOS, DEFAULT_DIGITS, swaps);
  }
}
