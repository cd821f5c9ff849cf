# Braille cell mask patterns

A model of the two exploratory scripts that search for the shortest
braille "mask". A mask is a strip of dot rows or dot columns. You slide
it over a braille cell so that every possible dot pattern shows up as a
contiguous window of the strip.

- **Binary column case** (`braille_cell_mask_pattern.py`). A column has
  three dots, so there are 8 patterns over {false, true}. The script has:
  - an MSB-first integer-to-bool-list codec;
  - a 24-dot naive mask;
  - a completeness checker and a transition counter;
  - an exhaustive enumeration of all 2^L masks;
  - a driver that stops at the first length with a complete mask.
- **Two-dot row case** (`braille_cell_mask_pattern_per_cell.py`). A row
  of two dots is a symbol 0..3, and a cell is three rows, so there are 64
  patterns. The script has:
  - a 192-row naive mask;
  - a checker that rejects non-symbols;
  - a transition counter stub that always raises;
  - an exhaustive enumeration in `itertools.product` order;
  - the Fredricksen-Kessler-Maiorana de Bruijn generator `de_bruijn(k, n)`;
  - the "append the first two rows" step that turns the 64-row cyclic
    sequence into the recorded 66-row mask.

Modules, one file each:

- `Windows` (windows.dfy). Shared facts:
  - what it means for a pattern to occur in a mask;
  - the counting lower bound (N distinct patterns of width w need at least
    N + w - 1 symbols);
  - cyclic windows and unrolling;
  - an order-keeping filter.
- `ColumnMask` (column_mask.dfy). The binary script. The codec and the
  transition count are functions. The naive mask, the checker, the counter,
  the enumeration and the length loop are methods with loops, proved
  against those functions.
- `CellMask` (cell_mask.dfy). The row patterns, the checker with its error
  path, the naive mask and the stub.
- `DeBruijn` (de_bruijn.dfy). `db(t, p)` as a method over a mutable
  `array<int>` buffer. It is specified by a ghost function of the buffer
  prefix it starts from.
- `UniversalMask` (universal_mask.dfy). The instance k = 4, n = 3:
  - the generated sequence;
  - the recorded 66-row literal;
  - completeness, optimality and the cyclic-cover property;
  - the two masks `main` builds.
- `CellSearch` (cell_search.dfy). `itertools.product`, `test_every_mask`
  and `validate_every_mask`.

Python's `&` and `>>` on non-negative integers are modelled as `%` and
`/`. The integers are unbounded, as in Python. A Python `assert` that the
caller can trip is modelled as a `Result` failure: the per-cell checker's
non-symbol check and the per-cell `NotImplementedError`. `int_to_bool_array`'s
optional `bit_length` is a `nat` where 0 stands for `None`; both are falsy,
so neither pads.

`db` first copies `a[t - p]`, then tries every larger symbol in
increasing order, and `Db`/`DbBranches` do the same.

## Model

| member | source | states |
|---|---|---|
| ColumnMask.IntToBoolArray | exploratory/braille_cell_mask_pattern/braille_cell_mask_pattern.py:17-28 | the bools read back as an MSB-first binary number give n; with a positive bit length w and n < 2^w there are exactly w of them |
| ColumnMask.BinaryDigits | exploratory/braille_cell_mask_pattern/braille_cell_mask_pattern.py:19 | the digits of `bin(n)[2:]`, most significant first: never empty, no leading zero, a single false for 0 (value and length are proved by BinaryDigitsValue and BinaryDigitsLength) |
| ColumnMask.ZeroFill | exploratory/braille_cell_mask_pattern/braille_cell_mask_pattern.py:22-23 | `str.zfill`: a list at least `width` long is returned as it is, a shorter one gets false bits in front up to `width` |
| ColumnMask.ZeroFillShape | exploratory/braille_cell_mask_pattern/braille_cell_mask_pattern.py:22-23 | the padded list is max(len, width) long, ends with the original digits, and everything before them is false |
| ColumnMask.EncodeDecode | exploratory/braille_cell_mask_pattern/braille_cell_mask_pattern.py:17-28 | round trip: a non-empty bool list is the encoding, at its own length, of the number it reads as |
| ColumnMask.UnpaddedEncoding | exploratory/braille_cell_mask_pattern/braille_cell_mask_pattern.py:19-26 | with no (or a zero) bit length nothing is padded: 0 gives [false]; a positive n starts with a one and has exactly bit-length-of-n digits (2^(len-1) <= n < 2^len) |
| ColumnMask.BinaryDigitsValue | exploratory/braille_cell_mask_pattern/braille_cell_mask_pattern.py:19-26 | the unpadded digits of `bin(n)` read back as n |
| ColumnMask.BitsValueBound | exploratory/braille_cell_mask_pattern/braille_cell_mask_pattern.py:85-86 | a list of w bools reads as a number below 2^w, so the enumeration's range covers every mask of length w |
| ColumnMask.BitsValueInjective | exploratory/braille_cell_mask_pattern/braille_cell_mask_pattern.py:85-86 | two lists of one length with one value are equal, so no mask is enumerated twice |
| ColumnMask.IsCompleteMask | exploratory/braille_cell_mask_pattern/braille_cell_mask_pattern.py:44-63 | returns true exactly when each of the 8 patterns `int_to_bool_array(i, 3)` is some window m[s..s+3]; in particular a mask shorter than 3 is incomplete |
| ColumnMask.WindowIsPattern | exploratory/braille_cell_mask_pattern/braille_cell_mask_pattern.py:50-56 | every three-dot window of a mask is the pattern numbered by its value, one of the 8 |
| ColumnMask.CompleteNeedsTen | exploratory/braille_cell_mask_pattern/braille_cell_mask_pattern.py:12 | no mask shorter than 10 is complete |
| ColumnMask.ShortestCompleteWitness | exploratory/braille_cell_mask_pattern/braille_cell_mask_pattern.py:12 | a complete mask of length 10 exists, so 10 is the optimum |
| ColumnMask.MakeNaiveMask | exploratory/braille_cell_mask_pattern/braille_cell_mask_pattern.py:31-41 | 24 dots whose i-th block of three is the encoding of i, for i in 0..7; the result is complete |
| ColumnMask.CheckNaiveMask | exploratory/braille_cell_mask_pattern/braille_cell_mask_pattern.py:98-102 | the checker accepts the naive mask, so the assertion in `main` holds |
| ColumnMask.Encodings | exploratory/braille_cell_mask_pattern/braille_cell_mask_pattern.py:85-86 | the candidates `int_to_bool_array(mask_int, L)` for mask_int = 0, 1, ..., count - 1, in that order, count of them |
| ColumnMask.CompleteAmongMembers | exploratory/braille_cell_mask_pattern/braille_cell_mask_pattern.py:85-92 | after the first `count` candidates the list holds exactly the complete masks of length L whose value is below count |
| ColumnMask.CompleteAmongIncreasing | exploratory/braille_cell_mask_pattern/braille_cell_mask_pattern.py:85-92 | the list is strictly increasing in the encoded number, the order in which `mask_int` runs |
| ColumnMask.CompleteAmongStep | exploratory/braille_cell_mask_pattern/braille_cell_mask_pattern.py:86-92 | one more candidate extends the list by that mask exactly when it is complete |
| ColumnMask.CompleteAmongAll | exploratory/braille_cell_mask_pattern/braille_cell_mask_pattern.py:83-94 | over all 2^L candidates the list holds every complete mask of length L and nothing else |
| ColumnMask.TestEveryMask | exploratory/braille_cell_mask_pattern/braille_cell_mask_pattern.py:77-94 | returns the complete masks among the encodings of 0..2^L-1 in that order; for L > 0 a mask is in the result iff it has length L and is complete |
| ColumnMask.SearchAtLength | exploratory/braille_cell_mask_pattern/braille_cell_mask_pattern.py:105-110 | the search finds nothing below length 10 and something at 10 |
| ColumnMask.FindShortestMasks | exploratory/braille_cell_mask_pattern/braille_cell_mask_pattern.py:105-110 | the length loop stops at 10 with a non-empty list holding exactly the complete masks of length 10 |
| ColumnMask.Transitions | exploratory/braille_cell_mask_pattern/braille_cell_mask_pattern.py:66-74 | a mask of at most one dot has no transitions, and a mask of length n >= 1 has at most n - 1 |
| ColumnMask.TransitionsCountsIndices | exploratory/braille_cell_mask_pattern/braille_cell_mask_pattern.py:70-72 | the count equals the number of indices i < len - 1 with m[i] != m[i+1] |
| ColumnMask.CountTransitionsInMask | exploratory/braille_cell_mask_pattern/braille_cell_mask_pattern.py:66-74 | the loop's counter ends equal to the transition count of the mask |
| ColumnMask.TransitionsCons | exploratory/braille_cell_mask_pattern/braille_cell_mask_pattern.py:70-72 | putting a dot in front adds one transition exactly when it differs from the old first dot |
| ColumnMask.TransitionsReverse | exploratory/braille_cell_mask_pattern/braille_cell_mask_pattern.py:66-74 | reversing a mask does not change its transition count |
| ColumnMask.NoTransitionsIffConstant | exploratory/braille_cell_mask_pattern/braille_cell_mask_pattern.py:66-74 | the count is 0 exactly when all dots of the mask are equal |
| CellMask.CellPattern | exploratory/braille_cell_mask_pattern/braille_cell_mask_pattern_per_cell.py:55-59 | pattern i is three rows, each a symbol 0..3 |
| CellMask.CellOfPatternValue | exploratory/braille_cell_mask_pattern/braille_cell_mask_pattern_per_cell.py:55-59 | any three symbols are the pattern of the number whose 2-bit fields they are, a number below 64 |
| CellMask.CellPatternsDistinct | exploratory/braille_cell_mask_pattern/braille_cell_mask_pattern_per_cell.py:54-59 | the 64 patterns are pairwise different |
| CellMask.IsCompleteMask | exploratory/braille_cell_mask_pattern/braille_cell_mask_pattern_per_cell.py:47-76 | fails with InvalidSymbol exactly when some element is not in 0..3; otherwise returns whether each of the 64 patterns is a window, skipping slices cut short by the end |
| CellMask.WindowIsCell | exploratory/braille_cell_mask_pattern/braille_cell_mask_pattern_per_cell.py:63-70 | every full three-row window of a valid mask is one of the 64 patterns |
| CellMask.CompleteNeedsSixtySix | exploratory/braille_cell_mask_pattern/braille_cell_mask_pattern_per_cell.py:18-20 | no mask shorter than 66 is complete |
| CellMask.MakeNaiveMask | exploratory/braille_cell_mask_pattern/braille_cell_mask_pattern_per_cell.py:31-44 | 192 symbols in 0..3 whose i-th block of three is pattern i; the result is complete |
| CellMask.ValidateNaiveMask | exploratory/braille_cell_mask_pattern/braille_cell_mask_pattern_per_cell.py:130-137 | the checker accepts the naive mask without an error |
| CellMask.CountTransitionsInMask | exploratory/braille_cell_mask_pattern/braille_cell_mask_pattern_per_cell.py:79-83 | always fails with NotImplemented and never yields a count |
| DeBruijn.Emitted | exploratory/braille_cell_mask_pattern/braille_cell_mask_pattern_per_cell.py:185-195 | what `db(t, p)` appends when the buffer holds the given prefix below t: at t > n the word a[1..p] if p divides n, else nothing; below that, the emissions of `db(t + 1, p)` after copying a[t - p], then those of the loop over larger symbols |
| DeBruijn.EmittedFrom | exploratory/braille_cell_mask_pattern/braille_cell_mask_pattern_per_cell.py:193-195 | what the loop `for j in range(from, k)` appends: for each j in turn, the emissions of `db(t + 1, t)` with a[t] = j |
| DeBruijn.Db | exploratory/braille_cell_mask_pattern/braille_cell_mask_pattern_per_cell.py:185-195 | with k >= 2, n >= 1 and buffer symbols in 0..k-1, every buffer access is in bounds; it appends what `db(t, p)` emits from the buffer prefix it started with, and restores that prefix |
| DeBruijn.DbBranches | exploratory/braille_cell_mask_pattern/braille_cell_mask_pattern_per_cell.py:193-195 | the loop over j appends the emissions of `db(t + 1, t)` with a[t] = j for each j in turn, and restores the prefix |
| DeBruijn.AppendWord | exploratory/braille_cell_mask_pattern/braille_cell_mask_pattern_per_cell.py:187-189 | the leaf appends exactly a[1..p] |
| DeBruijn.EmittedSymbols | exploratory/braille_cell_mask_pattern/braille_cell_mask_pattern_per_cell.py:185-195 | every emitted symbol lies in 0..k-1 when the buffer's do |
| DeBruijn.EmittedFromSymbols | exploratory/braille_cell_mask_pattern/braille_cell_mask_pattern_per_cell.py:193-195 | the same bound for the symbols the branch loop emits |
| DeBruijn.DeBruijnSequence | exploratory/braille_cell_mask_pattern/braille_cell_mask_pattern_per_cell.py:180-198 | for k >= 2 and n >= 1 the zero buffer of k*n cells suffices, and the result is the emission of `db(1, 1)`, with every symbol in 0..k-1 |
| UniversalMask.LeafLoop | exploratory/braille_cell_mask_pattern/braille_cell_mask_pattern_per_cell.py:186-195 | at the deepest level the branch loop emits a[1..n) followed by j, for each j in turn |
| UniversalMask.DeBruijn43Emitted | exploratory/braille_cell_mask_pattern/braille_cell_mask_pattern_per_cell.py:204 | `de_bruijn(4, 3)` is the 64-row sequence of Lyndon words of lengths 1 and 3 over 0..3 |
| UniversalMask.Mask66Recorded | exploratory/braille_cell_mask_pattern/braille_cell_mask_pattern_per_cell.py:224-226 | the generated sequence plus its first two rows is, row for row, the 66-row mask recorded as optimal |
| UniversalMask.Mask66Symbols | exploratory/braille_cell_mask_pattern/braille_cell_mask_pattern_per_cell.py:210-211 | the unrolled mask has 66 rows, all symbols 0..3 |
| UniversalMask.Mask66Complete | exploratory/braille_cell_mask_pattern/braille_cell_mask_pattern_per_cell.py:225 | every one of the 64 patterns is a window of the 66-row mask |
| UniversalMask.Mask66Optimal | exploratory/braille_cell_mask_pattern/braille_cell_mask_pattern_per_cell.py:18-21 | the 66-row mask is complete and every complete mask has at least 66 rows |
| UniversalMask.UnrollDeBruijn43 | exploratory/braille_cell_mask_pattern/braille_cell_mask_pattern_per_cell.py:210-211 | appending `mask[:2]` to the 64-row sequence is unrolling it for windows of three, and gives the 66-row mask |
| UniversalMask.DeBruijn43Incomplete | exploratory/braille_cell_mask_pattern/braille_cell_mask_pattern_per_cell.py:202-207 | the 64-row cyclic sequence alone is not a complete mask |
| UniversalMask.DeBruijn43Cyclic | exploratory/braille_cell_mask_pattern/braille_cell_mask_pattern_per_cell.py:21-22 | read as a cycle, the 64-row sequence shows every one of the 64 patterns |
| UniversalMask.CyclicMask | exploratory/braille_cell_mask_pattern/braille_cell_mask_pattern_per_cell.py:202-207 | `main`'s first mask is the 64-row sequence, and the checker returns false for it |
| UniversalMask.UnrolledMask | exploratory/braille_cell_mask_pattern/braille_cell_mask_pattern_per_cell.py:209-213 | `main`'s second mask is the recorded 66-row mask, and the checker returns true for it |
| Windows.LowerBound | exploratory/braille_cell_mask_pattern/braille_cell_mask_pattern_per_cell.py:18-21 | a mask containing N pairwise different patterns of width w has at least N + w - 1 symbols |
| Windows.Pigeonhole | exploratory/braille_cell_mask_pattern/braille_cell_mask_pattern_per_cell.py:18-21 | pairwise different integers in [0, b) number at most b |
| Windows.Unroll | exploratory/braille_cell_mask_pattern/braille_cell_mask_pattern_per_cell.py:211 | `s + s[:w - 1]`: the sequence itself followed by its first w - 1 elements (all of it if it is shorter), so w - 1 longer when w - 1 <= len(s) |
| Windows.UnrollCoversCyclicWindows | exploratory/braille_cell_mask_pattern/braille_cell_mask_pattern_per_cell.py:209-211 | every cyclic window, including those wrapping the end, is a linear window of the unrolled sequence |
| Windows.LinearWindowIsCyclic | exploratory/braille_cell_mask_pattern/braille_cell_mask_pattern_per_cell.py:21-22 | a linear window of a sequence is also one of its cyclic windows |
| Windows.FilterMember | exploratory/braille_cell_mask_pattern/braille_cell_mask_pattern_per_cell.py:104-110 | keeping the accepted candidates keeps exactly the accepted candidates |
| Windows.FilterOrdered | exploratory/braille_cell_mask_pattern/braille_cell_mask_pattern_per_cell.py:101-110 | keeping some candidates of an ordered sequence keeps them in order |
| CellSearch.Product | exploratory/braille_cell_mask_pattern/braille_cell_mask_pattern_per_cell.py:101 | `itertools.product([0, 1, 2, 3], repeat=L)`: for L = 0 the single empty strip, otherwise the strips led by 0, then by 1, 2, 3, each followed by all strips of length L - 1 (its length, members, completeness and order are the four lemmas below) |
| CellSearch.ProductFrom | exploratory/braille_cell_mask_pattern/braille_cell_mask_pattern_per_cell.py:101 | the part of the product whose first symbol is at least x, in the same order |
| CellSearch.ProductLength | exploratory/braille_cell_mask_pattern/braille_cell_mask_pattern_per_cell.py:101 | `itertools.product([0,1,2,3], repeat=L)` yields 4^L strips |
| CellSearch.ProductMembers | exploratory/braille_cell_mask_pattern/braille_cell_mask_pattern_per_cell.py:101 | each yielded strip has L symbols in 0..3 |
| CellSearch.ProductComplete | exploratory/braille_cell_mask_pattern/braille_cell_mask_pattern_per_cell.py:101 | every strip of L symbols in 0..3 is yielded |
| CellSearch.ProductSorted | exploratory/braille_cell_mask_pattern/braille_cell_mask_pattern_per_cell.py:101 | the strips come in strictly increasing lexicographic order |
| CellSearch.CompleteOnesSpec | exploratory/braille_cell_mask_pattern/braille_cell_mask_pattern_per_cell.py:104-110 | the kept strips are exactly the complete candidates, and they keep the candidates' order |
| CellSearch.TestEveryMask | exploratory/braille_cell_mask_pattern/braille_cell_mask_pattern_per_cell.py:93-112 | returns exactly the complete masks of length L over 0..3, in lexicographic order |
| CellSearch.SearchAtLength | exploratory/braille_cell_mask_pattern/braille_cell_mask_pattern_per_cell.py:140-146 | the search finds nothing below 66 rows and finds the recorded mask at 66 |
| CellSearch.ValidateEveryMask | exploratory/braille_cell_mask_pattern/braille_cell_mask_pattern_per_cell.py:140-146 | the length loop stops at 66, with exactly the complete 66-row masks, the recorded one among them |

## Left out

- Random search (`test_a_random_mask`, `validate_random_masks`): it depends on `random.randint`, runs an unbounded loop, and its only output is printing.
- All printing, f-string formatting, the banner of `validate_naive_mask`, and the `main` / `__main__` entry points. Only their computations are modelled: `CheckNaiveMask`, `CyclicMask`, `UnrolledMask` and the two length loops.
- `isinstance` checks on the mask and its elements: the Dafny types `seq<bool>` and `seq<int>` already rule those cases out.
- `count_transitions_in_mask` inside the binary `test_every_mask`: its result is only printed, so the call is not modelled.
- ColumnMask.FindShortestMasks: the number of complete length-10 masks (16 according to the script's docstring) is not proved. The model proves that the list at length 10 is non-empty and holds exactly the complete length-10 masks, but not its size. Counting them means either deciding completeness for all 1024 length-10 candidates in the proof, or proving that the complete masks are exactly the 16 rotations, unrolled, of the two binary de Bruijn cycles of order 3. The first is far beyond the verifier's resource limit for concrete evaluation, and the second is a combinatorial theorem of its own.
- UniversalMask.DeBruijn43Cyclic: states cyclic coverage for k = 4, n = 3 only. Coverage of every cyclic window by `de_bruijn(k, n)` for all k and n, and the general length k^n + n - 1, are a combinatorial theorem outside this model.
- ColumnMask.IntToBoolArray: takes `n: nat` and `bitLength: nat`, because no caller passes a negative value. For a negative n, `bin(n)[2:]` keeps a stray "b" in front of the digits, which becomes a leading false bit; that case is not modelled. A negative `bit_length` is also excluded: Python treats it as truthy, but `zfill` with a negative width pads nothing, so it would give the unpadded result.
- DeBruijn.DeBruijnSequence: requires k >= 2 and n >= 1, as do `Db` and `DbBranches`. Outside that range the program raises IndexError instead of returning, and that error path is not modelled. With k = 0 or k = 1 the buffer `[0] * k * n` has at most n cells, so `a[t] = a[t - p]` fails by t = n. With n = 0 the buffer is empty, so the leaf's `a[j]` fails at j = 1. The only call, `de_bruijn(4, 3)`, is inside the range.
- DeBruijn.Db: the buffer is an `array<int>` passed explicitly, and the output list is threaded through as a value instead of being a captured list that is appended to in place. The `for j` loop of `db` is the separate method `DbBranches`, and the leaf's append loop is `AppendWord`.
- CellMask.CountTransitionsInMask: the code after the `raise` never runs and is not modelled.
- Bitwise `&` and `>>` are written as `%` and `/`, which agree with them for the non-negative numbers the scripts use.
- How long the exhaustive enumerations take: the model specifies their results, not their 2^L or 4^L running time.
