/**
 * The three sorts of array.go, all driven by a caller-supplied "less than"
 * expression: Sort's quicksort, which moves elements in place around a hole
 * left by the pivot; SortByBubble's adjacent swaps; and SortMT's
 * partition-then-concatenate recursion, which emits the elements ranked
 * ABOVE the pivot first.
 */
module Sorting {
  import opened Kinds
  import opened ArraySpec

  /** less is a strict order: irreflexive and transitive. */
  ghost predicate StrictOrder(less: (Value, Value) -> bool) {
    (forall a :: !less(a, a)) &&
    (forall a, b, c :: less(a, b) && less(b, c) ==> less(a, c))
  }

  /** Any two elements of s are equal or related one way or the other. */
  ghost predicate TotalOn(less: (Value, Value) -> bool, s: seq<Value>) {
    forall i, j :: 0 <= i < |s| && 0 <= j < |s| ==> s[i] == s[j] || less(s[i], s[j]) || less(s[j], s[i])
  }

  /** No later element is less than an earlier one. */
  predicate SortedBy(s: seq<Value>, less: (Value, Value) -> bool) {
    forall i, j :: 0 <= i < j < |s| ==> !less(s[j], s[i])
  }

  /** No earlier element is less than a later one. */
  predicate SortedDescendingBy(s: seq<Value>, less: (Value, Value) -> bool) {
    forall i, j :: 0 <= i < j < |s| ==> !less(s[i], s[j])
  }

  function Reverse(s: seq<Value>): (r: seq<Value>)
    ensures |r| == |s| && multiset(r) == multiset(s)
    ensures forall i :: 0 <= i < |s| ==> r[i] == s[|s| - 1 - i]
  {
    if s == [] then []
    else
      var rest := Reverse(s[1..]);
      assert s == [s[0]] + s[1..];
      assert forall i :: 0 <= i < |s| - 1 ==> (rest + [s[0]])[i] == s[1..][|s| - 2 - i];
      rest + [s[0]]
  }

  /** Splitting by a test and by its negation keeps every element once. */
  lemma {:induction false} SelectSplits(s: seq<Value>, test: Value -> bool, rest: Value -> bool)
    requires forall e :: rest(e) == !test(e)
    ensures multiset(Select(s, test)) + multiset(Select(s, rest)) == multiset(s)
  {
    if s != [] {
      var init := s[..|s| - 1];
      SelectSplits(init, test, rest);
      assert s == init + [s[|s| - 1]];
    }
  }

  // ---------------------------------------------------------------------
  // SortMT

  /** SortMT without its goroutines: the first element is the pivot; the
      other elements e with less(pivot, e) are sorted into the part emitted
      before it, the rest into the part emitted after it. */
  function QuickMT(s: seq<Value>, less: (Value, Value) -> bool): (r: seq<Value>)
    ensures multiset(r) == multiset(s)
    decreases |s|
  {
    if |s| == 0 then []
    else if |s| == 1 then [s[0]]
    else
      var x, rest := s[0], s[1..];
      var above, notAbove := (e: Value) => less(x, e), (e: Value) => !less(x, e);
      SelectSplits(rest, above, notAbove);
      assert s == [x] + rest;
      QuickMT(Select(rest, above), less) + [x] + QuickMT(Select(rest, notAbove), less)
  }

  /** For a strict order, SortMT's result is descending: no element is less
      than one after it, the reverse of what Sort produces. */
  lemma {:induction false} QuickMTDescending(s: seq<Value>, less: (Value, Value) -> bool)
    requires StrictOrder(less)
    ensures SortedDescendingBy(QuickMT(s, less), less)
    decreases |s|
  {
    if |s| > 1 {
      var x, rest := s[0], s[1..];
      var above, notAbove := (e: Value) => less(x, e), (e: Value) => !less(x, e);
      QuickMTDescending(Select(rest, above), less);
      QuickMTDescending(Select(rest, notAbove), less);
      SortedPartSatisfies(rest, above, less);
      SortedPartSatisfies(rest, notAbove, less);
      AroundPivotDescending(QuickMT(Select(rest, above), less), x, QuickMT(Select(rest, notAbove), less), less);
    }
  }

  /** Every element of the sorted part built from the selected elements
      passes the selecting test. */
  lemma SortedPartSatisfies(s: seq<Value>, test: Value -> bool, less: (Value, Value) -> bool)
    ensures forall e :: e in QuickMT(Select(s, test), less) ==> test(e)
  {
    SelectMembership(s, test);
    forall e | e in QuickMT(Select(s, test), less) ensures test(e) {
      assert e in multiset(QuickMT(Select(s, test), less));
    }
  }

  /** Descending parts above and not above a pivot, joined around it, are
      descending. */
  lemma AroundPivotDescending(left: seq<Value>, x: Value, right: seq<Value>, less: (Value, Value) -> bool)
    requires StrictOrder(less)
    requires SortedDescendingBy(left, less) && SortedDescendingBy(right, less)
    requires forall e :: e in left ==> less(x, e)
    requires forall e :: e in right ==> !less(x, e)
    ensures SortedDescendingBy(left + [x] + right, less)
  {
    var r := left + [x] + right;
    forall i, j | 0 <= i < j < |r| ensures !less(r[i], r[j]) {
      if j < |left| {
        assert r[i] == left[i] && r[j] == left[j];
      } else if i < |left| && j == |left| {
        assert less(x, r[i]);
      } else if i < |left| {
        assert r[j] in right && less(x, r[i]);
      } else if i == |left| {
        assert r[j] in right;
      } else {
        assert r[i] == right[i - |left| - 1] && r[j] == right[j - |left| - 1];
      }
    }
  }

  /** Two sorted permutations of the same elements are equal when the order
      relates any two distinct elements among them. */
  lemma {:induction false} SortedPermutationUnique(s: seq<Value>, t: seq<Value>, less: (Value, Value) -> bool)
    requires TotalOn(less, s)
    requires multiset(s) == multiset(t) && SortedBy(s, less) && SortedBy(t, less)
    ensures s == t
    decreases |s|
  {
    assert |s| == |multiset(s)| == |t|;
    if s != [] {
      SortedHeadsEqual(s, t, less);
      TailsAlike(s, t, less);
      SortedPermutationUnique(s[1..], t[1..], less);
      assert s == [s[0]] + s[1..] && t == [t[0]] + t[1..];
    }
  }

  /** Removing equal first elements keeps the tails sorted permutations of
      each other, related by the order as before. */
  lemma TailsAlike(s: seq<Value>, t: seq<Value>, less: (Value, Value) -> bool)
    requires |s| > 0 && |t| > 0 && s[0] == t[0]
    requires TotalOn(less, s)
    requires multiset(s) == multiset(t) && SortedBy(s, less) && SortedBy(t, less)
    ensures multiset(s[1..]) == multiset(t[1..])
    ensures TotalOn(less, s[1..]) && SortedBy(s[1..], less) && SortedBy(t[1..], less)
  {
    TailElements(s);
    TailElements(t);
    TotalOnTail(s, less);
    SortedTail(s, less);
    SortedTail(t, less);
  }

  lemma TailElements(s: seq<Value>)
    requires |s| > 0
    ensures multiset(s[1..]) == multiset(s) - multiset{s[0]}
  {
    assert s == [s[0]] + s[1..];
  }

  lemma TotalOnTail(s: seq<Value>, less: (Value, Value) -> bool)
    requires |s| > 0 && TotalOn(less, s)
    ensures TotalOn(less, s[1..])
  {
    forall i, j | 0 <= i < |s[1..]| && 0 <= j < |s[1..]|
      ensures s[1..][i] == s[1..][j] || less(s[1..][i], s[1..][j]) || less(s[1..][j], s[1..][i])
    {
      assert s[1..][i] == s[i + 1] && s[1..][j] == s[j + 1];
    }
  }

  lemma SortedTail(s: seq<Value>, less: (Value, Value) -> bool)
    requires |s| > 0 && SortedBy(s, less)
    ensures SortedBy(s[1..], less)
  {
    forall i, j | 0 <= i < j < |s[1..]| ensures !less(s[1..][j], s[1..][i]) {
      assert s[1..][i] == s[i + 1] && s[1..][j] == s[j + 1];
    }
  }

  /** Two non-empty sorted permutations start with the same element. */
  lemma SortedHeadsEqual(s: seq<Value>, t: seq<Value>, less: (Value, Value) -> bool)
    requires TotalOn(less, s) && |s| > 0
    requires multiset(s) == multiset(t) && SortedBy(s, less) && SortedBy(t, less)
    ensures |t| > 0 && s[0] == t[0]
  {
    assert s[0] in multiset(t);
    var k :| 0 <= k < |t| && t[k] == s[0];
    assert t[0] in multiset(s);
    var m :| 0 <= m < |s| && s[m] == t[0];
    assert k == 0 || !less(t[k], t[0]);
    assert m == 0 || !less(s[m], s[0]);
  }

  /** For a strict order relating any two distinct elements, SortMT returns
      Sort's result reversed (a sorted permutation of the input). */
  lemma SortMTIsReversedSort(s: seq<Value>, sorted: seq<Value>, less: (Value, Value) -> bool)
    requires StrictOrder(less) && TotalOn(less, s)
    requires multiset(sorted) == multiset(s) && SortedBy(sorted, less)
    ensures QuickMT(s, less) == Reverse(sorted)
  {
    var q := QuickMT(s, less);
    QuickMTDescending(s, less);
    var rq := Reverse(q);
    ReverseOfDescending(q, less);
    TotalOnPermutation(rq, s, less);
    SortedPermutationUnique(rq, sorted, less);
    ReverseTwice(q);
  }

  /** A descending sequence read backwards is sorted. */
  lemma ReverseOfDescending(q: seq<Value>, less: (Value, Value) -> bool)
    requires SortedDescendingBy(q, less)
    ensures SortedBy(Reverse(q), less)
  {
    var rq := Reverse(q);
    forall i, j | 0 <= i < j < |rq| ensures !less(rq[j], rq[i]) {
      assert rq[j] == q[|q| - 1 - j] && rq[i] == q[|q| - 1 - i];
    }
  }

  /** Relating any two distinct elements depends only on the elements. */
  lemma TotalOnPermutation(t: seq<Value>, s: seq<Value>, less: (Value, Value) -> bool)
    requires multiset(t) == multiset(s) && TotalOn(less, s)
    ensures TotalOn(less, t)
  {
    forall i, j | 0 <= i < |t| && 0 <= j < |t|
      ensures t[i] == t[j] || less(t[i], t[j]) || less(t[j], t[i])
    {
      assert t[i] in multiset(s) && t[j] in multiset(s);
      var i' :| 0 <= i' < |s| && s[i'] == t[i];
      var j' :| 0 <= j' < |s| && s[j'] == t[j];
    }
  }

  lemma ReverseTwice(q: seq<Value>)
    ensures Reverse(Reverse(q)) == q
  {
    var rr := Reverse(Reverse(q));
    forall i | 0 <= i < |q| ensures rr[i] == q[i] {
      assert rr[i] == Reverse(q)[|q| - 1 - i];
    }
  }

  // ---------------------------------------------------------------------
  // Sort: quicksort in place

  /** The state of Sort's partition loop over a[l..r] (s, originally o) with
      pivot x and the hole at h: with x in the hole the segment holds its
      original elements, nothing outside it has moved, everything left of i
      is not above x and everything right of j is above x. */
  ghost predicate Partitioning(s: seq<Value>, o: seq<Value>, l: int, r: int, i: int, j: int, h: int,
                               x: Value, less: (Value, Value) -> bool) {
    0 <= l <= i <= j <= r < |s| == |o| && (h == i || h == j) &&
    multiset(s[l..r + 1][h - l := x]) == multiset(o[l..r + 1]) &&
    s[..l] == o[..l] && s[r + 1..] == o[r + 1..] &&
    (forall k :: l <= k < i ==> !less(x, s[k])) &&
    (forall k :: j < k <= r ==> less(x, s[k]))
  }

  /** f is o with the segment [lo, hi) rearranged: the segment holds the
      same elements, nothing outside it moved, and, when less is a strict
      order, the segment is sorted. */
  ghost predicate SortedSegment(f: seq<Value>, o: seq<Value>, lo: int, hi: int, less: (Value, Value) -> bool) {
    0 <= lo <= hi <= |f| == |o| &&
    multiset(f[lo..hi]) == multiset(o[lo..hi]) && f[..lo] == o[..lo] && f[hi..] == o[hi..] &&
    (StrictOrder(less) ==> SortedBy(f[lo..hi], less))
  }

  /** q is o with the segment [l, r] partitioned around position p: the
      segment holds the same elements, nothing outside it moved, nothing
      before p is above q[p] and everything after p up to r is. */
  ghost predicate PartitionedAt(q: seq<Value>, o: seq<Value>, l: int, p: int, r: int, less: (Value, Value) -> bool) {
    0 <= l <= p <= r < |q| == |o| &&
    multiset(q[l..r + 1]) == multiset(o[l..r + 1]) && q[..l] == o[..l] && q[r + 1..] == o[r + 1..] &&
    (forall k :: l <= k < p ==> !less(q[p], q[k])) &&
    (forall k :: p < k <= r ==> less(q[p], q[k]))
  }

  /** Sort's `inner(l, r)`: partitions a[l..r] around its first element,
      then sorts the part before the pivot and the part after it; a[l..r]
      ends up a sorted rearrangement of itself. */
  method QuickSortRange(a: array<Value>, l: int, r: int, less: (Value, Value) -> bool)
    requires 0 <= l <= r + 1 <= a.Length
    modifies a
    ensures SortedSegment(a[..], old(a[..]), l, r + 1, less)
    decreases r - l
  {
    if l < r {
      var p := Partition(a, l, r, less);
      ghost var parted := a[..];
      assert PartitionedAt(parted, old(a[..]), l, p, r, less);
      QuickSortRange(a, l, p - 1, less);
      ghost var leftDone := a[..];
      QuickSortRange(a, p + 1, r, less);
      QuickSortJoin(old(a[..]), parted, leftDone, a[..], l, p, r, less);
    } else {
      ShortSegmentSorted(a[..], l, r + 1, less);
    }
  }

  /** A segment of at most one element is already sorted. */
  lemma ShortSegmentSorted(s: seq<Value>, lo: int, hi: int, less: (Value, Value) -> bool)
    requires 0 <= lo <= hi <= |s| && hi - lo <= 1
    ensures SortedSegment(s, s, lo, hi, less)
  {
  }

  /** The facts after Sort's partition and its two recursive calls give the
      contract of `inner(l, r)`: o is the array before, q after the partition
      around position p, s after sorting the left part, f after sorting the
      right part. */
  lemma QuickSortJoin(o: seq<Value>, q: seq<Value>, s: seq<Value>, f: seq<Value>,
                      l: int, p: int, r: int, less: (Value, Value) -> bool)
    requires PartitionedAt(q, o, l, p, r, less)
    requires SortedSegment(s, q, l, p, less) && SortedSegment(f, s, p + 1, r + 1, less)
    ensures SortedSegment(f, o, l, r + 1, less)
  {
    var x := q[p];
    JoinFrame(o, q, s, f, l, p, r);
    assert multiset(f[l..r + 1]) == multiset(o[l..r + 1]) by {
      SplitAtPivot(q, l, p, r);
      SplitAtPivot(f, l, p, r);
    }
    PartSides(f[l..p], q, l, p, x, false, less);
    PartSides(f[p + 1..r + 1], q, p + 1, r + 1, x, true, less);
    if StrictOrder(less) {
      SplitAtPivot(f, l, p, r);
      AroundPivotSorted(f[l..p], x, f[p + 1..r + 1], less);
    }
  }

  /** The frame facts of QuickSortJoin: what each step left alone. */
  lemma JoinFrame(o: seq<Value>, q: seq<Value>, s: seq<Value>, f: seq<Value>, l: int, p: int, r: int)
    requires 0 <= l <= p <= r < |o| == |q| == |s| == |f|
    requires q[..l] == o[..l] && q[r + 1..] == o[r + 1..]
    requires s[..l] == q[..l] && s[p..] == q[p..]
    requires f[..p + 1] == s[..p + 1] && f[r + 1..] == s[r + 1..]
    ensures f[..l] == o[..l] && f[r + 1..] == o[r + 1..]
    ensures f[p] == q[p] && f[l..p] == s[l..p] && s[p + 1..r + 1] == q[p + 1..r + 1]
  {
    SlicesAgree(f, s, 0, p + 1, p, p + 1);
    SlicesAgree(s, q, p, |s|, p, p + 1);
    assert f[p] == f[p..p + 1][0];
    SlicesAgree(f, s, 0, p + 1, l, p);
    SlicesAgree(s, q, p, |s|, p + 1, r + 1);
    SlicesAgree(f, s, 0, p + 1, 0, l);
    SlicesAgree(s, q, p, |s|, r + 1, |s|);
  }

  /** Two sequences that agree on t[lo..hi] agree on every slice inside it. */
  lemma SlicesAgree(t: seq<Value>, u: seq<Value>, lo: int, hi: int, i: int, j: int)
    requires 0 <= lo <= i <= j <= hi <= |t| == |u|
    requires (lo == 0 && t[..hi] == u[..hi]) || (hi == |t| && t[lo..] == u[lo..])
    ensures t[i..j] == u[i..j]
  {
    forall k | i <= k < j ensures t[k] == u[k] {
      if lo == 0 && t[..hi] == u[..hi] {
        assert t[k] == t[..hi][k];
      } else {
        assert t[k] == t[lo..][k - lo];
      }
    }
  }

  /** A segment is its part before position p, the element at p and its
      part after p. */
  lemma SplitAtPivot(t: seq<Value>, l: int, p: int, r: int)
    requires 0 <= l <= p <= r < |t|
    ensures t[l..r + 1] == t[l..p] + [t[p]] + t[p + 1..r + 1]
  {
  }

  /** A rearrangement of q[lo..hi], all of whose elements are above x (or
      all not above x), has only such elements. */
  lemma PartSides(part: seq<Value>, q: seq<Value>, lo: int, hi: int, x: Value, above: bool,
                  less: (Value, Value) -> bool)
    requires 0 <= lo <= hi <= |q| && multiset(part) == multiset(q[lo..hi])
    requires forall k :: lo <= k < hi ==> less(x, q[k]) == above
    ensures forall e :: e in part ==> less(x, e) == above
  {
    forall e | e in part ensures less(x, e) == above {
      assert e in multiset(q[lo..hi]);
      var k :| 0 <= k < hi - lo && q[lo..hi][k] == e;
      assert q[lo + k] == e;
    }
  }

  /** Sorted parts not above and above a pivot, joined around it, are
      sorted. */
  lemma AroundPivotSorted(left: seq<Value>, x: Value, right: seq<Value>, less: (Value, Value) -> bool)
    requires StrictOrder(less)
    requires SortedBy(left, less) && SortedBy(right, less)
    requires forall e :: e in left ==> !less(x, e)
    requires forall e :: e in right ==> less(x, e)
    ensures SortedBy(left + [x] + right, less)
  {
    var r := left + [x] + right;
    forall i, j | 0 <= i < j < |r| ensures !less(r[j], r[i]) {
      if j < |left| {
        assert r[i] == left[i] && r[j] == left[j];
      } else if i < |left| && j == |left| {
        assert r[i] in left;
      } else if i < |left| {
        assert r[i] in left && r[j] in right;
      } else if i == |left| {
        assert r[j] in right;
      } else {
        assert r[i] == right[i - |left| - 1] && r[j] == right[j - |left| - 1];
      }
    }
  }

  /** One partition step of Sort's `inner(l, r)`: the pivot a[l] is lifted
      out, leaving a hole; from the right, the first element not above the
      pivot fills the hole; from the left, the first element above the pivot
      fills the new hole; until the scans meet, where the pivot is put back.
      Returns the pivot's final position. */
  method Partition(a: array<Value>, l: int, r: int, less: (Value, Value) -> bool) returns (p: int)
    requires 0 <= l < r < a.Length
    modifies a
    ensures l <= p <= r && a[p] == old(a[l])
    ensures multiset(a[l..r + 1]) == multiset(old(a[l..r + 1]))
    ensures a[..l] == old(a[..l]) && a[r + 1..] == old(a[r + 1..])
    ensures forall k :: l <= k < p ==> !less(a[p], a[k])
    ensures forall k :: p < k <= r ==> less(a[p], a[k])
  {
    var i, j, x := l, r, a[l];
    assert a[l..r + 1][i - l := x] == a[l..r + 1];
    while i < j
      invariant Partitioning(a[..], old(a[..]), l, r, i, j, i, x, less)
      decreases j - i
    {
      i, j := FillFromRight(a, l, r, i, j, x, less, old(a[..]));
      i, j := FillFromLeft(a, l, r, i, j, x, less, old(a[..]));
    }
    ghost var before := a[l..r + 1];
    a[i] := x;
    assert a[l..r + 1] == before[i - l := x];
    p := i;
  }

  /** With the hole at i: j scans left past elements above x; an element not
      above x found before the scans meet fills the hole, and i steps past
      it. The hole is then at j. */
  method FillFromRight(a: array<Value>, l: int, r: int, i: int, j: int, x: Value,
                       less: (Value, Value) -> bool, ghost o: seq<Value>) returns (i': int, j': int)
    requires Partitioning(a[..], o, l, r, i, j, i, x, less)
    modifies a
    ensures Partitioning(a[..], o, l, r, i', j', j', x, less)
    ensures j' - i' <= j - i && (i < j ==> j' - i' < j - i)
  {
    ghost var s := a[..];
    i' := i;
    j' := SkipAbove(a, i, j, x, less);
    assert forall k :: j' < k <= j ==> less(x, s[k]);
    if i' < j' {
      a[i'] := a[j'];
      i' := i' + 1;
    }
    assert a[..] == if i < j' then s[i := s[j']] else s;
    RightStep(s, o, l, r, i, j, j', x, less);
  }

  /** FillFromRight on values: j stopped at jj; if the scans have not met,
      s[jj], not above x, moves into the hole at i and i steps past it; the
      hole is then at jj. */
  lemma RightStep(s: seq<Value>, o: seq<Value>, l: int, r: int, i: int, j: int, jj: int,
                  x: Value, less: (Value, Value) -> bool)
    requires Partitioning(s, o, l, r, i, j, i, x, less)
    requires i <= jj <= j && (forall k :: jj < k <= j ==> less(x, s[k])) && (i < jj ==> !less(x, s[jj]))
    ensures Partitioning(if i < jj then s[i := s[jj]] else s, o, l, r, if i < jj then i + 1 else i, jj, jj, x, less)
  {
    if i < jj {
      RightFilled(s, o, l, r, i, j, jj, x, less);
    } else {
      ScansMet(s, o, l, r, i, j, i, x, less);
    }
  }

  /** RightStep when the scans have not met. */
  lemma RightFilled(s: seq<Value>, o: seq<Value>, l: int, r: int, i: int, j: int, jj: int,
                    x: Value, less: (Value, Value) -> bool)
    requires Partitioning(s, o, l, r, i, j, i, x, less)
    requires i < jj <= j && (forall k :: jj < k <= j ==> less(x, s[k])) && !less(x, s[jj])
    ensures Partitioning(s[i := s[jj]], o, l, r, i + 1, jj, jj, x, less)
  {
    HoleFilled(s, o, l, r, i, jj, x);
  }

  /** When the scans meet, with nothing moved, the hole (at i, or at j) is
      where they met. */
  lemma ScansMet(s: seq<Value>, o: seq<Value>, l: int, r: int, i: int, j: int, h: int,
                 x: Value, less: (Value, Value) -> bool)
    requires Partitioning(s, o, l, r, i, j, h, x, less)
    requires forall k :: i <= k < h ==> !less(x, s[k])
    requires forall k :: h < k <= j ==> less(x, s[k])
    ensures Partitioning(s, o, l, r, h, h, h, x, less)
  {
    assert forall k :: l <= k < h ==> !less(x, s[k]);
    assert forall k :: h < k <= r ==> less(x, s[k]);
  }

  /** With the hole at j: i scans right past elements not above x; an
      element above x found before the scans meet fills the hole, and j steps
      past it. The hole is then at i. */
  method FillFromLeft(a: array<Value>, l: int, r: int, i: int, j: int, x: Value,
                      less: (Value, Value) -> bool, ghost o: seq<Value>) returns (i': int, j': int)
    requires Partitioning(a[..], o, l, r, i, j, j, x, less)
    modifies a
    ensures Partitioning(a[..], o, l, r, i', j', i', x, less)
    ensures j' - i' <= j - i && (i < j ==> j' - i' < j - i)
  {
    ghost var s := a[..];
    i' := SkipNotAbove(a, i, j, x, less);
    assert forall k :: i <= k < i' ==> !less(x, s[k]);
    j' := j;
    if i' < j' {
      a[j'] := a[i'];
      j' := j' - 1;
    }
    assert a[..] == if i' < j then s[j := s[i']] else s;
    LeftStep(s, o, l, r, i, j, i', x, less);
  }

  /** FillFromLeft on values: i stopped at ii; if the scans have not met,
      s[ii], above x, moves into the hole at j and j steps past it; the hole
      is then at ii. */
  lemma LeftStep(s: seq<Value>, o: seq<Value>, l: int, r: int, i: int, j: int, ii: int,
                 x: Value, less: (Value, Value) -> bool)
    requires Partitioning(s, o, l, r, i, j, j, x, less)
    requires i <= ii <= j && (forall k :: i <= k < ii ==> !less(x, s[k])) && (ii < j ==> less(x, s[ii]))
    ensures Partitioning(if ii < j then s[j := s[ii]] else s, o, l, r, ii, if ii < j then j - 1 else j, ii, x, less)
  {
    if ii < j {
      LeftFilled(s, o, l, r, i, j, ii, x, less);
    } else {
      ScansMet(s, o, l, r, i, j, j, x, less);
    }
  }

  /** LeftStep when the scans have not met. */
  lemma LeftFilled(s: seq<Value>, o: seq<Value>, l: int, r: int, i: int, j: int, ii: int,
                   x: Value, less: (Value, Value) -> bool)
    requires Partitioning(s, o, l, r, i, j, j, x, less)
    requires i <= ii < j && (forall k :: i <= k < ii ==> !less(x, s[k])) && less(x, s[ii])
    ensures Partitioning(s[j := s[ii]], o, l, r, ii, j - 1, ii, x, less)
  {
    HoleFilled(s, o, l, r, j, ii, x);
  }

  /** Moving s[src] into the hole at h moves the hole to src: with x in the
      hole the segment still holds the original elements, and nothing outside
      the segment moves. */
  lemma HoleFilled(s: seq<Value>, o: seq<Value>, l: int, r: int, h: int, src: int, x: Value)
    requires 0 <= l <= h <= r < |s| == |o| && l <= src <= r
    requires multiset(s[l..r + 1][h - l := x]) == multiset(o[l..r + 1])
    requires s[..l] == o[..l] && s[r + 1..] == o[r + 1..]
    ensures multiset(s[h := s[src]][l..r + 1][src - l := x]) == multiset(o[l..r + 1])
    ensures s[h := s[src]][..l] == o[..l] && s[h := s[src]][r + 1..] == o[r + 1..]
  {
    var seg := s[l..r + 1];
    HoleMoves(seg, h - l, src - l, x);
    assert s[h := s[src]][l..r + 1] == seg[h - l := seg[src - l]];
    assert s[h := s[src]][..l] == s[..l];
    assert s[h := s[src]][r + 1..] == s[r + 1..];
  }

  /** Sort's scan from the right: j moves left past elements above x, and
      stops at i or at an element not above x. */
  method SkipAbove(a: array<Value>, i: int, j: int, x: Value, less: (Value, Value) -> bool) returns (j': int)
    requires 0 <= i <= j < a.Length
    ensures i <= j' <= j
    ensures forall k :: j' < k <= j ==> less(x, a[k])
    ensures i < j' ==> !less(x, a[j'])
  {
    j' := j;
    while i < j' && less(x, a[j'])
      invariant i <= j' <= j
      invariant forall k :: j' < k <= j ==> less(x, a[k])
    {
      j' := j' - 1;
    }
  }

  /** Sort's scan from the left: i moves right past elements not above x,
      and stops at j or at an element above x. */
  method SkipNotAbove(a: array<Value>, i: int, j: int, x: Value, less: (Value, Value) -> bool) returns (i': int)
    requires 0 <= i <= j < a.Length
    ensures i <= i' <= j
    ensures forall k :: i <= k < i' ==> !less(x, a[k])
    ensures i' < j ==> less(x, a[i'])
  {
    i' := i;
    while i' < j && !less(x, a[i'])
      invariant i <= i' <= j
      invariant forall k :: i <= k < i' ==> !less(x, a[k])
    {
      i' := i' + 1;
    }
  }

  // ---------------------------------------------------------------------
  // SortByBubble: adjacent swaps in place

  /** From position m on, s is sorted and no element there is less than an
      element before m: the positions m.. hold their final elements. */
  ghost predicate SettledFrom(s: seq<Value>, m: int, less: (Value, Value) -> bool) {
    0 <= m <= |s| &&
    (forall i, j :: m <= i < j < |s| ==> !less(s[j], s[i])) &&
    (forall p, q :: 0 <= p < m <= q < |s| ==> !less(s[q], s[p]))
  }

  /** SortByBubble's loops: pass i runs j over 0 .. length-i-2 and swaps
      a[j] and a[j+1] unless less(a[j], a[j+1]). The array ends up holding the
      same elements; when less is a strict order it is sorted. */
  method BubbleSort(a: array<Value>, less: (Value, Value) -> bool)
    modifies a
    ensures multiset(a[..]) == multiset(old(a[..]))
    ensures StrictOrder(less) ==> SortedBy(a[..], less)
  {
    var n := a.Length;
    var i := 0;
    while i < n - 1
      invariant 0 <= i && (n > 0 ==> i <= n - 1)
      invariant multiset(a[..]) == multiset(old(a[..]))
      invariant StrictOrder(less) ==> SettledFrom(a[..], n - i, less)
    {
      BubblePass(a, n - i, less);
      i := i + 1;
    }
  }

  /** One pass of SortByBubble over a[..m]: afterwards a[m-1] is not less than
      anything before it, the prefix holds the same elements, and nothing
      from m on has moved. */
  method BubblePass(a: array<Value>, m: int, less: (Value, Value) -> bool)
    requires 2 <= m <= a.Length
    modifies a
    ensures multiset(a[..]) == multiset(old(a[..]))
    ensures multiset(a[..m]) == multiset(old(a[..m])) && a[m..] == old(a[m..])
    ensures StrictOrder(less) && SettledFrom(old(a[..]), m, less) ==> SettledFrom(a[..], m - 1, less)
  {
    var j := 0;
    while j < m - 1
      invariant PassSoFar(a[..], old(a[..]), m, j, less)
    {
      ghost var s := a[..];
      BubbleStep(a, m, j, less);
      PassStep(s, old(a[..]), m, j, less);
      j := j + 1;
    }
    PassDone(a[..], old(a[..]), m, less);
  }

  /** The state of a pass over o[..m] after j steps: s[..m] holds the
      elements of o[..m], the rest is untouched, and, for a strict order,
      nothing before s[j] is above it. */
  ghost predicate PassSoFar(s: seq<Value>, o: seq<Value>, m: int, j: int, less: (Value, Value) -> bool) {
    0 <= j < m <= |s| == |o| &&
    multiset(s[..m]) == multiset(o[..m]) && s[m..] == o[m..] &&
    (StrictOrder(less) ==> forall k :: 0 <= k < j ==> !less(s[j], s[k]))
  }

  lemma PassStep(s: seq<Value>, o: seq<Value>, m: int, j: int, less: (Value, Value) -> bool)
    requires PassSoFar(s, o, m, j, less) && j < m - 1
    ensures PassSoFar(Bubbled(s, j, less), o, m, j + 1, less)
  {
    BubbledKeeps(s, j, m, less);
    if StrictOrder(less) {
      BubbledCarries(s, j, less);
    }
  }

  /** At the end of a pass, the array holds the same elements, and a
      settled suffix grows by one. */
  lemma PassDone(s: seq<Value>, o: seq<Value>, m: int, less: (Value, Value) -> bool)
    requires PassSoFar(s, o, m, m - 1, less)
    ensures multiset(s) == multiset(o)
    ensures StrictOrder(less) && SettledFrom(o, m, less) ==> SettledFrom(s, m - 1, less)
  {
    assert s == s[..m] + s[m..] && o == o[..m] + o[m..];
    if StrictOrder(less) && SettledFrom(o, m, less) {
      PassSettles(o, s, m, less);
    }
  }

  /** The body of SortByBubble's inner loop: a[j] and a[j+1] are swapped
      unless less(a[j], a[j+1]); the larger of the two, in the order's sense,
      moves on to position j+1. */
  method BubbleStep(a: array<Value>, m: int, j: int, less: (Value, Value) -> bool)
    requires 0 <= j < m - 1 && m <= a.Length
    modifies a
    ensures a[..] == Bubbled(old(a[..]), j, less)
  {
    if !less(a[j], a[j + 1]) {
      a[j], a[j + 1] := a[j + 1], a[j];
    }
  }

  /** s after SortByBubble's step at j: s[j] and s[j+1] swapped unless
      less(s[j], s[j+1]). */
  function Bubbled(s: seq<Value>, j: int, less: (Value, Value) -> bool): (r: seq<Value>)
    requires 0 <= j < |s| - 1
    ensures |r| == |s|
    ensures (r[j] == s[j] && r[j + 1] == s[j + 1]) || (r[j] == s[j + 1] && r[j + 1] == s[j])
    ensures multiset(r[j..j + 2]) == multiset(s[j..j + 2])
    ensures forall k :: 0 <= k < |s| && k != j && k != j + 1 ==> r[k] == s[k]
  {
    if less(s[j], s[j + 1]) then s else s[j := s[j + 1]][j + 1 := s[j]]
  }

  /** A step at j < m - 1 keeps the elements of s[..m] and leaves the rest
      alone. */
  lemma BubbledKeeps(s: seq<Value>, j: int, m: int, less: (Value, Value) -> bool)
    requires 0 <= j < m - 1 && m <= |s|
    ensures multiset(Bubbled(s, j, less)[..m]) == multiset(s[..m])
    ensures Bubbled(s, j, less)[m..] == s[m..]
  {
    var b := Bubbled(s, j, less);
    assert b[m..] == s[m..];
    if !less(s[j], s[j + 1]) {
      assert b[..m] == s[..m][j := s[j + 1]][j + 1 := s[j]];
    }
  }

  /** For a strict order, the step carries forward an element nothing
      before it is above: afterwards nothing up to j is above b[j+1]. */
  lemma BubbledCarries(s: seq<Value>, j: int, less: (Value, Value) -> bool)
    requires StrictOrder(less) && 0 <= j < |s| - 1
    requires forall k :: 0 <= k < j ==> !less(s[j], s[k])
    ensures forall k :: 0 <= k <= j ==> !less(Bubbled(s, j, less)[j + 1], Bubbled(s, j, less)[k])
  {
    if less(s[j], s[j + 1]) {
      assert forall k :: 0 <= k <= j ==> !less(s[j + 1], s[k]);
    }
  }

  /** A pass that kept the elements of the prefix a[..m], left the rest alone
      and brought to m-1 an element nothing before it is above extends the
      settled suffix by one position. */
  lemma PassSettles(o: seq<Value>, s: seq<Value>, m: int, less: (Value, Value) -> bool)
    requires StrictOrder(less) && SettledFrom(o, m, less)
    requires 1 <= m <= |s| == |o|
    requires multiset(s[..m]) == multiset(o[..m]) && s[m..] == o[m..]
    requires forall k :: 0 <= k < m - 1 ==> !less(s[m - 1], s[k])
    ensures SettledFrom(s, m - 1, less)
  {
    forall k | m <= k < |s| ensures s[k] == o[k] {
      assert s[k] == s[m..][k - m];
      assert o[k] == o[m..][k - m];
    }
    forall p | 0 <= p < m ensures exists p' :: 0 <= p' < m && o[p'] == s[p] {
      assert s[p] in multiset(o[..m]);
      var p' :| 0 <= p' < m && o[..m][p'] == s[p];
    }
  }

  /** Moving the element at q into the hole at p leaves the hole at q; the
      elements, with the pivot in the hole, are the same. */
  lemma HoleMoves(s: seq<Value>, p: int, q: int, x: Value)
    requires 0 <= p < |s| && 0 <= q < |s|
    ensures multiset(s[p := s[q]][q := x]) == multiset(s[p := x])
  {
    if p != q {
      var t := s[p := x];
      assert s[p := s[q]][q := x] == t[p := t[q]][q := t[p]];
    }
  }
}
