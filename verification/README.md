# lambda: a verified model of the type-erased collection engine

The Go library `lambda` wraps a slice of any element type in an `_array` and
offers LINQ-style operations driven by caller-supplied functions: filtering,
projection, windows, joins, quantifiers, searches, sums, extrema and three
sorts. It never knows the element type statically. Instead it inspects
`reflect.Kind`s, checks every caller function's signature at run time
(`checkExpress`), accumulates sums in an `Add` accumulator chosen per kind
(Adder.go), and orders values through a three-way comparator (compare.go).

This project models that engine in Dafny. It has seven modules.

- `Kinds` (kinds.dfy) defines the kinds the engine distinguishes and the
  type-erased values. It also defines Go's fixed-width integer arithmetic:
  `Wrap` is two's-complement truncation to a kind's width, with int and uint
  64 bits wide.
- `Failures` (kinds.dfy) turns every panic and error of the source into a
  value (`Result`, `Outcome`).
- `Express` (express.dfy) holds `checkExpress` and `checkExpressRARTO`.
  A caller function is data: its signature as a `GoType` and its behaviour
  as a Dafny function value.
- `Comparators` (compare.dfy) holds `contain`, `BasicComparator` and
  `CompareTo`. User types that implement `CompareTo` or `Equals` are given
  by a `Methods` parameter.
- `Adders` (adder.dfy) holds `Adder` and the two accumulators `_int` and
  `_float`. The accumulators are classes whose field `v` is overwritten by
  `SetZero` and `Add`.
- `ArraySpec` (arrayspec.dfy) gives each operation's result as a function
  on the element sequence, with the library's promises proved as lemmas.
- `Sorting` (sorting.dfy) has Sort's in-place quicksort (`inner`) and
  SortByBubble's loops as methods on an `array`. SortMT's
  partition-then-concatenate rule is a function.
- `Arrays` (arrays.dfy) holds the `_array` class. Its methods follow the
  source's loops and are proved equal to the `ArraySpec` functions.

Sort and SortMT order their results in opposite directions:

- Sort puts an element `e` left of the pivot when `!less(pivot, e)`, so
  its result is ascending.
- SortMT emits the elements with `less(pivot, e)` first, so its result is
  descending.

`Sorting.SortMTIsReversedSort` proves that, for a strict order relating
any two distinct elements, SortMT returns exactly Sort's result reversed.
SortMT runs its two halves in goroutines, but it emits the elements above
the pivot first, so its order is the reverse of Sort's.

## Model

| member | source | states |
|---|---|---|
| Kinds.Wrap | Adder.go:97-134 | the value Go stores for a result computed in a kind lies in the kind's range and differs from the mathematical result by a multiple of 2^width |
| Kinds.CongruentInRangeEqual | Adder.go:97-134 | two in-range numbers of a kind that are congruent modulo 2^width are equal, so the stored value is determined |
| Kinds.WrapCongruent | Adder.go:97-134 | truncation depends only on the residue modulo 2^width, so repeated wrapping equals one wrap at the end |
| Express.FirstMismatch | array.go:365-371 | none exactly when the kind lists agree; otherwise the first differing position, with everything before it equal |
| Express.CheckExpress | array.go:355-385 | passes exactly when the expression is a func whose parameter kinds are `in` and (when `out` is given) whose result kinds are `out`; a failure names the first failing check: not a func, parameter count, the first wrong parameter, result count, the first wrong result |
| Express.CheckExpressRARTO | array.go:388-396 | passes exactly for a func with parameter kinds `in` and exactly one result, and returns that result's kind; a func with no result is refused first |
| Comparators.Contain | compare.go:39-46 | true exactly when the kind occurs in the list |
| Comparators.BasicComparator | compare.go:11-37 | a value whose type implements CompareTo is used as it is, before any kind check; otherwise only the listed integer, float and string kinds (no Int32, no plain uint) get a BasicCompare, and every other kind is "unknown type" |
| Comparators.OrderRefusesUnlisted | compare.go:11-37 | an int32, uint or bool receiver without its own CompareTo is refused as an unknown type whatever it is compared with, itself included; a struct with its own CompareTo is compared whatever its kind |
| Comparators.BasicCompareTo | compare.go:56-106 | operands of different kinds are a kind-mismatch panic; the result exists exactly for equal kinds among the integer (not plain uint), float and string kinds |
| Comparators.OrderKindMismatch | compare.go:58-61 | without its own CompareTo, a receiver compared with a value of another kind always fails: the kind-mismatch error naming both kinds for a listed kind, "unknown type" otherwise |
| Comparators.CompareTo | compare.go:48-50 | the Compare interface: a value's own CompareTo is the caller's method, applied to the argument; a BasicCompare compares as BasicCompareTo |
| Comparators.IntCompareIsWrappedDifference | compare.go:64-81 | the integer result is the difference truncated to the operands' width; for uint8/16/32 it is never negative |
| Comparators.IntCompareZeroIffEqual | compare.go:64-81 | for in-range integers of one kind the result is 0 exactly when the operands are equal, whichever way the difference wrapped |
| Comparators.WideCompareIsDifference | compare.go:64-81 | for int and int64, when the true difference fits in 64 bits the result is that difference |
| Comparators.Uint8CompareWraps | compare.go:66-67 | uint8 1 compared with uint8 2 gives 255 |
| Comparators.Int8CompareOverflows | compare.go:74-75 | int8 -128 compared with int8 1 gives 127 |
| Comparators.RoundedDifference | compare.go:82-100 | the rounded float difference has the sign of the difference |
| Comparators.Uint64CompareIsDifference | compare.go:72-73 | for uint64 operands differing by less than 2^63 the result is the true difference, so its sign orders them |
| Comparators.FloatCompareSign | compare.go:82-100 | float comparison never fails and its sign is the sign of x - y |
| Comparators.StringCompare | compare.go:101-102 | strings.Compare is -1, 0 or 1, and 0 exactly for equal strings |
| Comparators.StringCompareAntisymmetric | compare.go:101-102 | swapping the operands negates the result |
| Comparators.StringCompareIsLexicographic | compare.go:101-102 | the result is -1 exactly when the receiver comes first in lexicographic order (a proper prefix, or smaller at the first difference) |
| Comparators.CompareToSelfIsZero | compare.go:64-102 | comparing a value of any handled kind with itself gives 0 |
| Comparators.IntendedOrder | compare.go:64-81 | the corrected integer comparison: for two integers of one kind other than uint it never fails and its sign is the sign of the true difference; other values are compared as Order compares them |
| Comparators.IntendedOrderAgreesOnWide | compare.go:64-65 | for int and int64 values whose difference fits in 64 bits, the code's comparison and the corrected one have the same sign |
| Comparators.Order | compare.go:11-37 | BasicComparator followed by CompareTo: a value's own CompareTo when it has one; otherwise BasicCompare's result; its only errors are "unknown type" and kind mismatch |
| Adders.AdderFlavor | Adder.go:58-85 | Adder succeeds exactly for Int, Int8, Int16, Int64, Uint8, Uint16, Uint32, Uint64, Float32 and Float64 (Int32 is refused because Uint32 is listed twice); float kinds get a `_float`, integer kinds an `_int`; anything else is "not support type" |
| Adders.Zero | Adder.go:17-56 | SetZero's value has the accumulator's kind and fits it |
| Adders.Accumulate | Adder.go:93-152 | adding a value of another kind is a panic naming both kinds; otherwise the total keeps its kind, fits it, and is congruent to the true sum modulo 2^width |
| Adders.IntAccumulator.constructor | Adder.go:79-81 | a new `_int` of kind t holds a total in range |
| Adders.IntAccumulator.SetZero | Adder.go:17-38 | the total becomes 0 |
| Adders.IntAccumulator.Value | Adder.go:13-15 | the total as a value of the accumulator's kind; reading it changes nothing |
| Adders.IntAccumulator.Add | Adder.go:93-135 | a value of another kind panics and leaves the total unchanged; otherwise the total becomes (total + value) wrapped to the width, and the total stays in range; the step agrees with Accumulate |
| Adders.FloatAccumulator.constructor | Adder.go:76-77 | a new `_float` has kind t |
| Adders.FloatAccumulator.SetZero | Adder.go:49-56 | the total becomes 0 |
| Adders.FloatAccumulator.Value | Adder.go:45-47 | the total as a value of the accumulator's kind |
| Adders.FloatAccumulator.Add | Adder.go:137-152 | a value of another kind panics and leaves the total unchanged; otherwise the value is added; the step agrees with Accumulate |
| Adders.Add.Value | Adder.go:87-91 | the accumulator's total is a well-formed integer (not plain uint) or float |
| Adders.Add.AddValue | Adder.go:87-91 | Add through the interface agrees with Accumulate on the old total and keeps the accumulator valid |
| Adders.Adder | Adder.go:58-85 | succeeds exactly for the kinds AdderFlavor accepts, with a fresh accumulator of the right flavour whose Value is the zero of the kind; otherwise "not support type" |
| ArraySpec.Select | array.go:454-472 | Filter's result is no longer than the input |
| ArraySpec.MatchIndices | array.go:454-472 | the positions of the matching elements, strictly increasing, each a match, and every match included |
| ArraySpec.SelectIsOrderedSubsequence | array.go:454-472 | Filter keeps exactly the elements at the matching positions, in their original order, and as many as Count counts |
| ArraySpec.SelectMembership | array.go:454-472 | an element is in Filter's result exactly when it is in the input and satisfies the predicate |
| ArraySpec.CountWhere | array.go:234-250 | Count's result never exceeds the length |
| ArraySpec.CountBounds | array.go:234-250 | Count is at most the length; it equals the length exactly when all elements match, and is positive exactly when one does |
| ArraySpec.PredicateCheck | array.go:454-458 | a predicate passes exactly when it has signature func(element kind) bool |
| ArraySpec.Image | array.go:398-425 | Map's result has the input's length and holds f(source[i]) at every position i |
| ArraySpec.JoinedLength | array.go:443-451 | a join of n strings is as long as the strings plus n - 1 separators |
| ArraySpec.JoinedAppend | array.go:443-451 | joining two non-empty lists is joining each with one separator between |
| ArraySpec.Strings | array.go:443-451 | the `.(string)` assertion succeeds exactly when every element is a string, and yields their texts |
| ArraySpec.Separator | array.go:439-441 | the separator is never empty: the given symbol, or "," when none is given |
| ArraySpec.JoinSpec | array.go:432-452 | Join of a non-string array is "not string array"; of string values it is their texts joined by the separator |
| ArraySpec.FirstFrom | array.go:252-272 | the lowest matching position at or after start, with no match between; none when nothing from start on matches |
| ArraySpec.LastUpTo | array.go:252-272 | the highest matching position at or before start, with no match between; none when nothing up to start matches |
| ArraySpec.FindSpec | array.go:252-272 | an empty array is "empty array"; a bad predicate is refused; a result is an element of the array satisfying the predicate; any other failure is "not found" |
| ArraySpec.FirstIsLowestMatch | array.go:274-276 | First: "empty array" on an empty array; element 0 without a predicate; otherwise the lowest-positioned match, and "not found" exactly when nothing matches |
| ArraySpec.LastIsHighestMatch | array.go:278-280 | Last: "empty array" on an empty array; element 0 without a predicate; otherwise the highest-positioned match, and "not found" exactly when nothing matches |
| ArraySpec.ScanOrder | array.go:129-134 | Contains by comparator: false only when every element compares non-zero without a panic; true only when some element compares 0 |
| ArraySpec.ScanOrderFindsIntegers | array.go:129-134 | for an integer of a handled kind and elements of that kind, Contains answers exactly whether the value occurs |
| ArraySpec.SumKind | array.go:305-316 | with an expression, the sum's kind is the expression's first result kind, and the expression passed checkExpress with no result constraint |
| ArraySpec.Operands | array.go:325-331 | what Sum adds: the elements, or their images under the expression, position by position |
| ArraySpec.SumFold | array.go:333-336 | adding the operands one by one keeps the accumulator's kind, an integer kind other than uint or a float kind |
| ArraySpec.SumFoldErrorPersists | array.go:333-335 | once an Add panics the whole Sum fails with that panic |
| ArraySpec.SumFoldIsWrappedTotal | array.go:333-336 | adding integers of one kind to a zero total gives their mathematical sum wrapped once to the width |
| ArraySpec.SumSpec | array.go:305-337 | a refused expression is reported; a kind Adder does not support is "not supported"; a result has the sum's kind |
| ArraySpec.SumOfIntegers | array.go:305-337 | Sum without an expression over integers of a supported kind is their wrapped sum; over no elements it is the zero |
| ArraySpec.SumOfImages | array.go:305-337 | Sum with an expression of result kind k is the wrapped sum of the images |
| ArraySpec.Uint8SumWraps | Adder.go:102-105 | uint8 200 + 100 gives 44 |
| ArraySpec.AverageSpec | array.go:147-180 | Average is 0 for an empty array before anything is checked; otherwise Sum divided by the length, and Sum's panic when Sum fails |
| ArraySpec.ExtremeIndex | array.go:617-659 | the position maxOrMin settles on is a valid position |
| ArraySpec.ExtremeIndexNext | array.go:640-656 | one more key: the scan fails with the comparison's panic, moves to the new key on a strict improvement, or keeps its position |
| ArraySpec.ExtremeIndexErrorPersists | array.go:645-656 | once a comparison panics, maxOrMin fails with that panic |
| ArraySpec.ExtremeIndexIsFirstExtremum | array.go:617-659 | with a comparison whose sign orders the keys, maxOrMin selects the FIRST position holding the largest (smallest) key |
| ArraySpec.MaxOrMinSpec | array.go:617-659 | the result is an element of the array; a key expression not of signature func(element) int is refused first |
| ArraySpec.SourceOrderOnBoundedInts | compare.go:64-81 | the engine's comparison orders int keys below 2^62 in magnitude by value |
| ArraySpec.MaxOrMinByIntKey | array.go:617-667 | Max (Min) with an int key expression returns the first element whose key is largest (smallest): no key exceeds it and every earlier key is strictly smaller (larger) |
| ArraySpec.MaxOrMinOfInts | array.go:617-667 | Max (Min) without an expression over int or int64 elements below 2^62 in magnitude returns the first largest (smallest) element: none exceeds it and every earlier one is strictly smaller (larger) |
| ArraySpec.Uint8MaxPicksSmaller | array.go:640-650 | Max of the uint8 values [5, 3] returns 3, because comparing 3 with 5 gives 254 |
| ArraySpec.IntendedMaxOrMinOfInts | array.go:640-656 | with the corrected comparison, the scan selects the first largest (smallest) element for integers of any kind except uint, of any magnitude |
| ArraySpec.IntendedUint8MaxPicksLarger | array.go:640-650 | with the corrected comparison, Max of the uint8 values [5, 3] selects 5 |
| Sorting.SelectSplits | array.go:587-594 | SortMT's left and right parts together hold every non-pivot element once |
| Sorting.QuickMT | array.go:572-607 | SortMT's result is a permutation of the input |
| Sorting.QuickMTDescending | array.go:572-607 | for a strict order, SortMT's result has no earlier element less than a later one |
| Sorting.SortMTIsReversedSort | array.go:560-615 | for a strict order relating any two distinct elements, SortMT returns Sort's sorted permutation reversed |
| Sorting.QuickSortRange | array.go:529-555 | `inner(l, r)` rearranges a[l..r] (same elements, nothing outside moved) and, for a strict order, sorts it |
| Sorting.Partition | array.go:533-551 | the pivot a[l] ends at a position p with nothing before it above it and everything after it (up to r) above it; the segment keeps its elements and nothing outside moves |
| Sorting.FillFromRight | array.go:536-542 | the right scan and fill keep the partition invariant, with the hole moved to j |
| Sorting.FillFromLeft | array.go:543-549 | the left scan and fill keep the partition invariant, with the hole moved to i |
| Sorting.SkipAbove | array.go:536-538 | j stops at the first element from the right not above the pivot, or where the scans meet |
| Sorting.SkipNotAbove | array.go:543-545 | i stops at the first element from the left above the pivot, or where the scans meet |
| Sorting.QuickSortJoin | array.go:551-553 | a partition around p followed by sorting both sides sorts the whole segment |
| Sorting.BubbleSort | array.go:484-495 | SortByBubble's loops keep the elements and, for a strict order, leave the array sorted |
| Sorting.BubblePass | array.go:485-494 | one pass keeps the elements of the prefix, leaves everything from m on where it was, and carries a largest element of the prefix to its end |
| Sorting.BubbleStep | array.go:486-493 | one inner step: a[j] and a[j+1] are swapped unless less(a[j], a[j+1]) |
| Sorting.Bubbled | array.go:486-493 | the step touches only positions j and j+1, which either keep their elements or exchange them, so those two positions hold the same two elements as before |
| Arrays.LessCheck | array.go:511-515 | a "less than" passes exactly when it has signature func(element, element) bool |
| Arrays.Array.constructor | array.go:96-100 | a new `_array` wraps a fresh slice holding the given elements, all of the element kind, so the array is valid |
| Arrays.Array.Len | array.go:347-349 | the length of the wrapped slice |
| Arrays.Array.Index | array.go:282-287 | the element at i for 0 <= i < length; "out of range" past the end and, as reflect's panic, before the start |
| Arrays.Array.Filter | array.go:454-472 | nil is "express is null"; a bad predicate is refused; otherwise the matching elements in order |
| Arrays.Array.Map | array.go:398-425 | nil is refused; a bad expression is refused; otherwise the image of each element at its position |
| Arrays.Array.Take | array.go:289-303 | with skip >= 0 and count > 0 the window source[skip..min(skip+count, len)]; empty when count <= 0 or skip >= len; a negative skip with a positive count panics |
| Arrays.Array.Join | array.go:432-452 | without an expression JoinSpec of the elements; with one, JoinSpec of their images under it, after Map's check |
| Arrays.Array.Count | array.go:234-250 | the length without a predicate; otherwise the number of matching elements |
| Arrays.Array.Any | array.go:193-210 | "length > 0" without a predicate; otherwise whether some element matches |
| Arrays.Array.All | array.go:212-232 | "length > 0" without a predicate; otherwise whether the array is non-empty and every element matches, so an empty array is never "all" |
| Arrays.Array.Find | array.go:252-272 | for steps 1 and -1, exactly FindSpec: "empty array", element 0 without a predicate, the first match in the step's direction from start, or "not found" |
| Arrays.Array.First | array.go:274-276 | Find from position 0 forwards |
| Arrays.Array.Last | array.go:278-280 | Find from the last position backwards |
| Arrays.Array.Sum | array.go:305-337 | exactly SumSpec: the accumulator for the element (or result) kind fed every operand |
| Arrays.Array.Average | array.go:147-180 | exactly AverageSpec |
| Arrays.Array.MaxOrMin | array.go:617-659 | exactly MaxOrMinSpec: the check of the key expression, "zero value" on an empty array, then the scan keeping the first strict extremum |
| Arrays.Array.Max | array.go:661-663 | maxOrMin with isMax |
| Arrays.Array.Min | array.go:665-667 | maxOrMin without isMax |
| Arrays.Array.Contains | array.go:114-145 | nil is refused; a predicate answers whether some element matches; a comparable value answers by ScanOrder; a value with Equals answers whether it equals some element; anything else is "unknown type" |
| Arrays.Array.Append | array.go:182-191 | the first element of the wrong kind is reported and nothing changes; otherwise the array holds the old elements followed by the new ones; a valid array stays valid |
| Arrays.Array.Sort | array.go:511-558 | nil or a bad "less than" is refused and nothing changes; otherwise a fresh copy replaces the slice, the given slice is left as it was, and the copy is a permutation, sorted when less is a strict order; the array stays valid; for a strict order relating any two distinct elements, sorting a sorted array changes nothing, so sorting twice is sorting once |
| Arrays.Array.SortByBubble | array.go:474-498 | the slice itself becomes a permutation of itself, sorted when less is a strict order; the array stays valid; for a strict order relating any two distinct elements, sorting a sorted array changes nothing |
| Arrays.Array.SortMT | array.go:560-615 | nil or a bad "less than" is refused; otherwise SortMT's order QuickMT |
| Arrays.AddAll | array.go:333-336 | Sum's loop computes SumFold from the zero, stopping at the first panic |
| Arrays.JoinStrings | array.go:436-451 | Join's builder loop computes JoinSpec |

## Findings

| source | as written | input that shows it | evidently intended | confidence | as-written member | corrected member |
|---|---|---|---|---|---|---|
| compare.go:66-71 | uint8, uint16 and uint32 values are subtracted in their own width and widened afterwards, so the result is never negative and a smaller receiver compares "greater"; uint64 (lines 72-73) reads the wrapped difference back as a signed int, which keeps the sign whenever the operands differ by less than 2^63 (Comparators.Uint64CompareIsDifference) and gets it wrong only beyond | Max of the uint8 values [5, 3] returns 3 | the sign of the true difference, so that Max returns 5 | high; not executed | ArraySpec.Uint8MaxPicksSmaller | ArraySpec.IntendedMaxOrMinOfInts |

`Arrays.Array.Max` and `Arrays.Array.Min` model the code as written.
`Comparators.IntendedOrder` is the corrected comparison. With it,
`ArraySpec.IntendedMaxOrMinOfInts` proves that the scan returns the first
extremum for every integer kind except uint.

## Left out

- SortMT's goroutines and channels: SortMT is the deterministic function `QuickMT`, with no concurrency.
- IEEE floating point: float32/float64 values, the `_float` accumulator, the float branch of `CompareTo` and `Average`'s division use exact reals. Rounding, NaN, infinities and float32 narrowing are not modelled.
- Reflection plumbing is not modelled: `LambdaArray`, `Pointer`, `IsSlice`, the `reflect.New` array branch of `CopyValue`, `Map`'s choice between slice and array, and `Take`'s `MakeSlice`. Element kinds are a datatype; caller functions are a signature plus a Dafny function value.
- Operations that return a new Array (Filter, Map, Take, SortMT) return the sequence of its elements rather than a new `_array` object.
- Append: a fresh array always holds the result; Go's `reflect.Append` may reuse spare capacity of the caller's slice, and that aliasing is not modelled.
- Index returns the element itself rather than a `reflect.Value` wrapping it.
- List.go is not part of this model: its `Insert`, `IndexOf` and `RemoveAt` only panic with "implement me".
- `EachV` is not modelled as an operation of its own: its visit of every element in order is the loop of `Arrays.Array.MaxOrMin`.
- Go's int and uint are taken to be 64 bits wide.
- User `CompareTo` and `Equals` methods are caller code: they are a `Methods` parameter, keyed by struct type name.
- Named non-struct types are not modelled: a value's type is its kind, or its struct type name for structs.
- Arrays.Array.Find: only the steps 1 and -1 that First and Last use are modelled; other steps are excluded by its precondition.
- ArraySpec.ScanOrderFindsIntegers: stated for integer kinds only; for floats and strings the model proves the comparison facts separately (FloatCompareSign, StringCompare).
- ArraySpec.MaxOrMinByIntKey: stated for int keys below 2^62 in magnitude, where no difference of two keys overflows; larger keys can make the wrapped difference change sign.
- Arrays.Array.Sort and Arrays.Array.SortByBubble: sortedness is promised only when less is a strict order (irreflexive and transitive), as the library's callers supply.
- Arrays.Array.Sort: sorting twice gives the same result only when less relates any two distinct elements. For a strict weak order it does not hold: with two incomparable elements [a1, a2], `inner` moves the pivot a1 right of a2, giving [a2, a1], and sorting that gives [a1, a2] again.
- ArraySpec.MaxOrMinSpec: its own contract states only that the result is an element and that a bad expression is refused. That the result is the first extremum is stated by MaxOrMinByIntKey and MaxOrMinOfInts for Go int and int64 keys below 2^62 in magnitude. For unsigned narrow kinds it does not hold (see Findings), and for signed narrow kinds the difference can overflow.
- ArraySpec.MaxOrMinOfInts: stated for int and int64 elements below 2^62 in magnitude, like MaxOrMinByIntKey.
- Element types are tracked by kind, as `checkExpress` compares them. reflect's panics when a struct value, or a caller function's parameter, has the element kind but another struct type are not modelled. This affects Append (`reflect.Append`) and the `Call`s of Contains, Any, All, Count, Find, Map and Filter.
