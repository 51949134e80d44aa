# lottorand in Dafny

A Dafny model of `lottorand`, a small command-line tool that prints `n_lottos`
distinct lottery numbers of `n_digits` digits each. The program's `main` runs
one pipeline, and the model follows it step by step with pure functions:

1. **Pool.** Compute `10_u32.pow(n_digits)` and collect `0 .. 10^d` into a
   vector (`Lottery.PoolSize`, `Lottery.Pool`).
2. **Shuffle.** Shuffle the vector with the thread RNG. The model takes the
   shuffle as an input: a list of transpositions applied to the pool
   (`Lottery.Shuffle`). `Lottery.ShuffleReachesAll` proves that every
   rearrangement can be written this way, so the input is exactly "some
   permutation".
3. **Take.** Slice the first `n_lottos` elements. This panics when the slice
   runs past the end (`Lottery.Drawn`, `Lottery.LottoNumbers`).
4. **Format.** Format each value with `{val:0width$}`: the shortest decimal
   text, left-padded with `'0'` to the width and never truncated
   (`Decimal.Digits`, `Decimal.Pad`, `Lottery.FormatAll`).
5. **Sort.** Sort the strings in `String` order, which is lexicographic by
   character (`StringOrder.Compare`, `Sorting.Sort`).
6. **Join.** Join the strings with `"\n"`. This is the text `println!` writes,
   before its own final newline (`Lines.Join`, `Lottery.Render`).

The two panics of the program are modelled as errors of a `Result`:
`PowOverflow` when `10^d` does not fit in a `u32` (exactly when `d >= 10`),
and `RangeOutOfBounds` when `n > 10^d`. Both arguments are `u8`, so
`n, d < 256`.

The inverse of formatting is `Decimal.Parse`, which reads a digit string
back. `Decimal.Fixed` is an independent reference definition of the
`k`-digit encoding. Both are used to state what the padded text means.
Splitting at a separator (`Lines.Split`, with the semantics of
`str::split`) is the inverse of joining.

Modules: `Seqs` (duplicate-free sequences), `Decimal` (digits, padding,
parsing), `StringOrder` (Rust's `Ord` on strings), `Sorting` (sort contract
and a reference insertion sort), `Lines` (join and split), `Lottery` (the
pipeline of `main`).

The program has a single sampling strategy (enumerate, shuffle, take a
prefix) and a single output layout (one number per line). Its behaviour at the
edges of the argument range:
- widths 0 to 9 compute their pool size;
- width 0 prints the value 0 as `"0"`;
- widths 10 and above fail in `10_u32.pow`;
- a count above `10^d` fails at the slice.

## Model

| member | source | states |
|---|---|---|
| Lottery.Pow10FitsU32 | src/main.rs:20 | `10^d` fits in a `u32` exactly when `d <= 9` |
| Lottery.PoolSize | src/main.rs:20 | `10_u32.pow(d)` succeeds exactly when `d <= 9` and then yields `10^d`; otherwise it is the overflow error |
| Lottery.Pool | src/main.rs:20 | the pool has length `m`, ascends strictly, and contains a number exactly when it is below `m` |
| Lottery.Swap | src/main.rs:22 | one transposition exchanges two entries, leaves the others alone and keeps the multiset |
| Lottery.Shuffle | src/main.rs:22 | the shuffled vector has the pool's length and the pool's multiset of values |
| Lottery.ShuffleReachesAll | src/main.rs:22 | every rearrangement of a sequence is the result of some list of transpositions, so taking the shuffle as such a list excludes no permutation |
| Lottery.ShuffleTowards | src/main.rs:22 | from any agreeing prefix, an explicit list of transpositions turns a sequence into any rearrangement of it |
| Lottery.Drawn | src/main.rs:20-24 | the first `n` shuffled values are `n` distinct numbers, each below the pool size |
| Lottery.FormatAll | src/main.rs:24-28 | each formatted string is the padded text of the value at the same position and reads back as that value |
| Lottery.LottoNumbers | src/main.rs:19-29 | the run fails exactly when `d > 9` (overflow) or `n > 10^d` (slice out of range), with that error; otherwise it yields `n` strings in string order |
| Lottery.Render | src/main.rs:31 | the printed text exists exactly when the numbers do |
| Lottery.FormatAllDistinct | src/main.rs:27 | padding distinct values gives distinct strings |
| Lottery.SortedPadded | src/main.rs:24-29 | any sorted rearrangement of the padded distinct values has the same length, holds exactly those strings, and ascends strictly in numeric value |
| Lottery.LottoNumbersCorrect | src/main.rs:19-29 | a successful run gives distinct decimal lines; each line is the padded text of a drawn number below `10^d` and has exactly `d` characters when `d >= 1`; every drawn number appears; the lines ascend strictly as numbers |
| Lottery.RenderShape | src/main.rs:29-31 | the text is empty for `n = 0`; otherwise it has exactly `n - 1` newlines and only digits besides them, and splitting it at `'\n'` gives back the sorted lines in order |
| Lottery.NewlineJoined | src/main.rs:31 | digit strings joined with `'\n'`: empty for no strings, otherwise `count - 1` newlines and only digits besides, and splitting at `'\n'` returns the strings |
| Lottery.FullDraw | src/main.rs:20-29 | drawing the whole pool (`n = 10^d`) gives the padded text of `0, 1, …, 10^d - 1` in this order, whatever the shuffle did |
| Lottery.OneDigitTen | src/main.rs:20-29 | with `d = 1` and `n = 10` the lines are `"0"` through `"9"` |
| Lottery.ZeroDigits | src/main.rs:20-27 | with `d = 0` the pool is `{0}`: `n = 0` gives no lines, `n = 1` gives the single line `"0"` (one character, wider than the width), `n = 2` is out of range |
| Lottery.DefaultArguments | src/main.rs:6-14 | the default arguments (10 numbers of 6 digits) always succeed with ten 6-character lines |
| Decimal.Digits | src/main.rs:27 | `Display` output of a number: at least one digit, only digits, reads back as the number, no leading zero, and exactly as many digits as the number needs |
| Decimal.Pad | src/main.rs:27 | the zero-padded text holds only digits and is at least `width` long |
| Decimal.PadIsFixed | src/main.rs:27 | padding equals the reference `k`-digit encoding at `k = max(width, number of digits)` |
| Decimal.FixedRoundTrip | src/main.rs:27 | reading back the `k`-digit encoding of a value below `10^k` gives the value |
| Decimal.PadRoundTrip | src/main.rs:27 | reading back the padded text gives the value, for every width |
| Decimal.PadLength | src/main.rs:27 | the padded text is exactly `width` long iff `width >= 1` and the value is below `10^width`; with width 0 it is the plain decimal text |
| Decimal.PadInjective | src/main.rs:27 | different values never share a padded text |
| Decimal.FixedCompare | src/main.rs:27-29 | at a fixed number of digits, string order equals numeric order |
| Decimal.PadCompare | src/main.rs:27-29 | two values below `10^d`, padded to `d`, compare as strings exactly as they compare as numbers |
| StringOrder.Compare | src/main.rs:29 | `Ord` for `String`: lexicographic by character, a proper prefix first. `ComparePrefix`, `CompareEqual`, `CompareReverse` and `CompareTransitive` state its laws |
| StringOrder.ComparePrefix | src/main.rs:29 | a string never comes after a string it is a prefix of, and a proper prefix comes first |
| StringOrder.CompareEqual | src/main.rs:29 | strings compare equal exactly when they are the same string |
| StringOrder.CompareReverse | src/main.rs:29 | swapping the operands reverses the comparison |
| StringOrder.CompareTransitive | src/main.rs:29 | the string order is transitive |
| StringOrder.CompareSnoc | src/main.rs:29 | for equal-length strings, the last character decides only when the prefixes are equal |
| Sorting.Insert | src/main.rs:29 | inserting into a sorted sequence keeps it sorted and adds exactly the one string |
| Sorting.Sort | src/main.rs:29 | the result is sorted and is a rearrangement of the input |
| Sorting.SortedUnique | src/main.rs:29 | two sorted rearrangements of the same strings are equal, so every correct sort returns the same sequence |
| Lines.Join | src/main.rs:31 | `join("\n")`: the joined text starts with the first string and ends with the last. `SplitJoin` and `JoinSeparators` state its full meaning |
| Lines.SplitJoin | src/main.rs:31 | splitting the joined text at the separator returns the original strings, given at least one string and none containing the separator |
| Lines.JoinSeparators | src/main.rs:31 | the joined text contains the separator exactly `count - 1` times |
| Lines.JoinAlphabet | src/main.rs:31 | every character of the joined text is the separator or a character of one of the strings |
| Seqs.DistinctPermutation | src/main.rs:22-24 | rearranging a duplicate-free sequence keeps it duplicate-free |

## Left out

- Argument parsing with `clap` (src/main.rs:1, 4-14, 17). `n` and `d` are parameters of type `U8`. The defaults are the constants `DEFAULT_LOTTOS = 10` and `DEFAULT_DIGITS = 6`.
- The random number generator and how `SliceRandom::shuffle` works inside (src/main.rs:2, 19, 22). The shuffle is an input list of transpositions. Uniformity of the shuffle is not modelled.
- `println!` and standard output (src/main.rs:31). The model stops at the joined string. The newline that `println!` appends after it belongs to the I/O layer.
- The allocation of the vector of `10^d` entries (src/main.rs:20) is assumed to succeed. At `d = 9` it holds `10^9` `u32` values, about 4 GB; when that allocation fails the program aborts instead of printing, and that abort is not modelled. Time spent building the vector is not modelled either.
- Lottery.PoolSize: `10_u32.pow(d)` for `d >= 10` is modelled as the panic of a debug build. A release build wraps modulo `2^32` instead. For `10 <= d <= 31` the pool is then `0 .. (10^d mod 2^32)`, and the numbers come from that range. For `d >= 32` the wrapped size is 0 because `2^32` divides `10^d`, so any `n >= 1` panics at the slice and `n = 0` prints an empty line. None of this wrapped behaviour is modelled.
- Lottery.Shuffle: states only that the result is a permutation of the pool. Nothing is said about the probability distribution.
- Sorting.Sort: the program's stable sort algorithm is not modelled. A reference insertion sort stands in for it. By `Sorting.SortedUnique` any algorithm meeting the same contract returns the same sequence.
