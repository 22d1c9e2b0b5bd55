/**
 * What the `_array` operations of array.go compute, as functions on the
 * sequence of elements, with the properties the library promises proved
 * about them. The methods of Arrays.Array compute the same results with the
 * source's loops and are proved equal to these functions.
 *
 * Folds that the source computes with a forward loop are defined on the
 * prefix without the last element, so that each loop step adds one element.
 */
module ArraySpec {
  import opened Kinds
  import opened Failures
  import opened Express
  import opened Comparators
  import opened Adders

  // ---------------------------------------------------------------------
  // Filter and Count

  /** The elements satisfying test, in their order (Filter's result). */
  function Select(s: seq<Value>, test: Value -> bool): (r: seq<Value>)
    ensures |r| <= |s|
  {
    if s == [] then []
    else Select(s[..|s| - 1], test) + (if test(s[|s| - 1]) then [s[|s| - 1]] else [])
  }

  /** The number of elements satisfying test (Count's result). */
  function CountWhere(s: seq<Value>, test: Value -> bool): (r: nat)
    ensures r <= |s|
  {
    if s == [] then 0
    else CountWhere(s[..|s| - 1], test) + (if test(s[|s| - 1]) then 1 else 0)
  }

  /** The positions whose element satisfies test, in increasing order: an
      independent description of which elements Filter keeps. */
  function MatchIndices(s: seq<Value>, test: Value -> bool): (idx: seq<nat>)
    ensures forall k :: 0 <= k < |idx| ==> idx[k] < |s| && test(s[idx[k]])
    ensures forall k, l :: 0 <= k < l < |idx| ==> idx[k] < idx[l]
    ensures forall i :: 0 <= i < |s| && test(s[i]) ==> i in idx
  {
    if s == [] then []
    else
      var rest := MatchIndices(s[..|s| - 1], test);
      assert forall i :: 0 <= i < |s| - 1 && test(s[i]) ==> i in rest by {
        forall i | 0 <= i < |s| - 1 && test(s[i]) ensures i in rest {
          assert s[..|s| - 1][i] == s[i];
        }
      }
      rest + (if test(s[|s| - 1]) then [|s| - 1] else [])
  }

  /** Filter keeps exactly the elements at the matching positions, in their
      original order, and keeps as many as Count counts. */
  lemma {:induction false} SelectIsOrderedSubsequence(s: seq<Value>, test: Value -> bool)
    ensures |Select(s, test)| == |MatchIndices(s, test)| == CountWhere(s, test)
    ensures forall k :: 0 <= k < |Select(s, test)| ==> Select(s, test)[k] == s[MatchIndices(s, test)[k]]
  {
    if s != [] {
      var init := s[..|s| - 1];
      SelectIsOrderedSubsequence(init, test);
      forall k | 0 <= k < |Select(init, test)|
        ensures Select(s, test)[k] == s[MatchIndices(s, test)[k]]
      {
        assert Select(s, test)[k] == Select(init, test)[k];
        assert MatchIndices(s, test)[k] == MatchIndices(init, test)[k];
      }
    }
  }

  /** Every element Filter returns satisfies the predicate, and every element
      of the input that satisfies it is returned. */
  lemma SelectMembership(s: seq<Value>, test: Value -> bool)
    ensures forall x :: x in Select(s, test) <==> x in s && test(x)
  {
    SelectIsOrderedSubsequence(s, test);
    var r, idx := Select(s, test), MatchIndices(s, test);
    forall x | x in r ensures x in s && test(x) {
      var k :| 0 <= k < |r| && r[k] == x;
    }
    forall x | x in s && test(x) ensures x in r {
      var i :| 0 <= i < |s| && s[i] == x;
      var k :| 0 <= k < |idx| && idx[k] == i;
    }
  }

  /** Count with a predicate is at most the length, and equals it exactly
      when every element satisfies the predicate. */
  lemma {:induction false} CountBounds(s: seq<Value>, test: Value -> bool)
    ensures CountWhere(s, test) <= |s|
    ensures CountWhere(s, test) == |s| <==> forall i :: 0 <= i < |s| ==> test(s[i])
    ensures CountWhere(s, test) > 0 <==> exists i :: 0 <= i < |s| && test(s[i])
  {
    if s != [] {
      var init := s[..|s| - 1];
      CountBounds(init, test);
      assert forall i :: 0 <= i < |init| ==> init[i] == s[i];
      if !test(s[|s| - 1]) {
        assert CountWhere(s, test) < |s|;
      }
    }
  }

  /** The check Filter, Count, Any, All, Find and Contains apply to a
      predicate: one parameter of the element kind, one bool result. */
  function PredicateCheck(p: Predicate, elementType: Kind): (r: Outcome)
    ensures r.Pass? <==> p.t == GoType(Func, [elementType], [Bool])
  {
    CheckExpress(p.t, [elementType], Some([Bool]))
  }

  // ---------------------------------------------------------------------
  // Map

  /** The element-wise images (Map's result). */
  function Image(s: seq<Value>, f: Value -> Value): (r: seq<Value>)
    ensures |r| == |s| && forall i :: 0 <= i < |s| ==> r[i] == f(s[i])
  {
    seq(|s|, i requires 0 <= i < |s| => f(s[i]))
  }

  // ---------------------------------------------------------------------
  // Take

  function Min(a: int, b: int): int {
    if a < b then a else b
  }

  // ---------------------------------------------------------------------
  // Join

  /** The strings separated by sep (strings.Builder in Join). */
  function Joined(items: seq<string>, sep: string): (r: string) {
    if |items| == 0 then ""
    else if |items| == 1 then items[0]
    else Joined(items[..|items| - 1], sep) + sep + items[|items| - 1]
  }

  function TotalLength(items: seq<string>): nat {
    if items == [] then 0 else TotalLength(items[..|items| - 1]) + |items[|items| - 1]|
  }

  /** A join of n strings holds their characters and n - 1 separators. */
  lemma {:induction false} JoinedLength(items: seq<string>, sep: string)
    requires |items| > 0
    ensures |Joined(items, sep)| == TotalLength(items) + (|items| - 1) * |sep|
  {
    if |items| > 1 {
      JoinedLength(items[..|items| - 1], sep);
    }
  }

  /** Joining two non-empty lists is joining each and putting a separator
      between the two. */
  lemma {:induction false} JoinedAppend(a: seq<string>, b: seq<string>, sep: string)
    requires |a| > 0 && |b| > 0
    ensures Joined(a + b, sep) == Joined(a, sep) + sep + Joined(b, sep)
    decreases |b|
  {
    var ab := a + b;
    if |b| == 1 {
      assert ab[..|ab| - 1] == a;
    } else {
      var b' := b[..|b| - 1];
      assert ab[..|ab| - 1] == a + b';
      JoinedAppend(a, b', sep);
    }
  }

  /** Writing one more string: after a first string, a separator comes
      before it. */
  lemma JoinedSnoc(done: seq<string>, s: string, sep: string)
    ensures Joined(done + [s], sep) == if done == [] then s else Joined(done, sep) + sep + s
  {
    assert (done + [s])[..|done|] == done;
  }

  /** What Join's builder holds after writing the strings done: them joined,
      and a separator after the last one when more strings follow. */
  function Built(done: seq<string>, sep: string, more: bool): string {
    if done == [] then "" else Joined(done, sep) + (if more then sep else "")
  }

  /** Writing one more string, and a separator when more follow, extends
      the builder's contents by that string. */
  lemma BuiltStep(done: seq<string>, s: string, sep: string, more: bool)
    ensures Built(done, sep, true) + s + (if more then sep else "") == Built(done + [s], sep, more)
  {
    JoinedSnoc(done, s, sep);
  }

  /** The strings held by the values, if all of them are strings (the
      `.(string)` assertion Join applies to each element). */
  function Strings(s: seq<Value>): (r: Option<seq<string>>)
    ensures r.Some? <==> forall i :: 0 <= i < |s| ==> s[i].StrV?
    ensures r.Some? ==> |r.value| == |s| && forall i :: 0 <= i < |s| ==> r.value[i] == s[i].s
  {
    if s == [] then Some([])
    else match Strings(s[..|s| - 1])
      case None => None
      case Some(init) => if s[|s| - 1].StrV? then Some(init + [s[|s| - 1].s]) else None
  }

  /** One more string element extends the strings of the prefix. */
  lemma StringsStep(items: seq<Value>, i: nat)
    requires i < |items| && items[i].StrV? && Strings(items[..i]).Some?
    ensures Strings(items[..i + 1]) == Some(Strings(items[..i]).value + [items[i].s])
  {
    assert items[..i + 1][..i] == items[..i];
  }

  /** The separator Join uses: the option's Symbol, or "," when it is empty. */
  function Separator(symbol: string): (sep: string)
    ensures sep != "" && (symbol != "" ==> sep == symbol)
  {
    if symbol == "" then "," else symbol
  }

  /** Join without an expression, over elements of kind itemKind: a non-string
      kind is refused before anything is written; otherwise the strings are
      joined with the separator. */
  function JoinSpec(items: seq<Value>, itemKind: Kind, symbol: string): (r: Result<string>)
    ensures itemKind != String ==> r == Err(NotStringArray)
    ensures itemKind == String && Strings(items).Some? ==> r == Ok(Joined(Strings(items).value, Separator(symbol)))
    ensures itemKind == String && Strings(items).None? ==> r == Err(TypeAssertion)
  {
    if itemKind != String then Err(NotStringArray)
    else match Strings(items)
      case None => Err(TypeAssertion)
      case Some(ss) => Ok(Joined(ss, Separator(symbol)))
  }

  // ---------------------------------------------------------------------
  // Find, First, Last

  /** The lowest position at or after lo whose element satisfies test. */
  function FirstFrom(s: seq<Value>, test: Value -> bool, lo: nat): (r: Option<nat>)
    ensures r.Some? ==> lo <= r.value < |s| && test(s[r.value])
    ensures r.Some? ==> forall j :: lo <= j < r.value ==> !test(s[j])
    ensures r.None? ==> forall j :: lo <= j < |s| ==> !test(s[j])
    decreases |s| - lo
  {
    if lo >= |s| then None
    else if test(s[lo]) then Some(lo)
    else FirstFrom(s, test, lo + 1)
  }

  /** The highest position at or before hi whose element satisfies test. */
  function LastUpTo(s: seq<Value>, test: Value -> bool, hi: int): (r: Option<nat>)
    requires hi < |s|
    ensures r.Some? ==> r.value <= hi && test(s[r.value])
    ensures r.Some? ==> forall j :: r.value < j <= hi ==> !test(s[j])
    ensures r.None? ==> forall j :: 0 <= j <= hi ==> !test(s[j])
    decreases hi + 1
  {
    if hi < 0 then None
    else if test(s[hi]) then Some(hi)
    else LastUpTo(s, test, hi - 1)
  }

  /** Find(express, start, step) for the steps 1 and -1: an empty array is an
      error; without an expression the first element is returned; otherwise
      the positions from start on, in the step's direction and while they are
      inside the array, are tried in turn. */
  function FindSpec(s: seq<Value>, elementType: Kind, express: Option<Predicate>, start: int, step: int): (r: Result<Value>)
    requires step == 1 || step == -1
    ensures |s| == 0 ==> r == Err(EmptyArray)
    ensures |s| > 0 && express.Some? && PredicateCheck(express.value, elementType).Fail? ==>
      r == Err(PredicateCheck(express.value, elementType).error)
    ensures r.Ok? ==> r.value in s && (express.Some? ==> express.value.test(r.value))
    ensures r.Err? ==> r.error in {EmptyArray, NotFound} || (express.Some? && PredicateCheck(express.value, elementType).Fail?)
  {
    if |s| == 0 then Err(EmptyArray)
    else if express.None? then Ok(s[0])
    else match PredicateCheck(express.value, elementType)
      case Fail(e) => Err(e)
      case Pass =>
        var found :=
          if step == 1 then (if start < 0 then None else FirstFrom(s, express.value.test, start))
          else (if start >= |s| then None else LastUpTo(s, express.value.test, start));
        match found
        case None => Err(NotFound)
        case Some(i) => Ok(s[i])
  }

  /** First(express) = Find(express, 0, 1): the lowest-positioned element that
      satisfies the predicate, "not found" when none does, the first element
      without a predicate, and "empty array" on an empty array. */
  lemma FirstIsLowestMatch(s: seq<Value>, elementType: Kind, express: Option<Predicate>)
    ensures |s| == 0 ==> FindSpec(s, elementType, express, 0, 1) == Err(EmptyArray)
    ensures |s| > 0 && express.None? ==> FindSpec(s, elementType, express, 0, 1) == Ok(s[0])
    ensures |s| > 0 && express.Some? && PredicateCheck(express.value, elementType).Pass? ==>
      var test, r := express.value.test, FindSpec(s, elementType, express, 0, 1);
      (r == Err(NotFound) <==> forall j :: 0 <= j < |s| ==> !test(s[j])) &&
      (r.Ok? ==> exists i :: 0 <= i < |s| && r.value == s[i] && test(s[i]) && forall j :: 0 <= j < i ==> !test(s[j]))
  {
  }

  /** Last(express) = Find(express, len-1, -1): the highest-positioned element
      that satisfies the predicate, "not found" when none does, and, like
      First, the first element without a predicate. */
  lemma LastIsHighestMatch(s: seq<Value>, elementType: Kind, express: Option<Predicate>)
    ensures |s| == 0 ==> FindSpec(s, elementType, express, |s| - 1, -1) == Err(EmptyArray)
    ensures |s| > 0 && express.None? ==> FindSpec(s, elementType, express, |s| - 1, -1) == Ok(s[0])
    ensures |s| > 0 && express.Some? && PredicateCheck(express.value, elementType).Pass? ==>
      var test, r := express.value.test, FindSpec(s, elementType, express, |s| - 1, -1);
      (r == Err(NotFound) <==> forall j :: 0 <= j < |s| ==> !test(s[j])) &&
      (r.Ok? ==> exists i :: 0 <= i < |s| && r.value == s[i] && test(s[i]) && forall j :: i < j < |s| ==> !test(s[j]))
  {
  }

  // ---------------------------------------------------------------------
  // Contains

  /** Compares v with the elements front to back through BasicComparator(v):
      true at the first result 0, an error at the first comparison that
      panics, false when no element compares equal. */
  function ScanOrder(v: Value, s: seq<Value>, m: Methods): (r: Result<bool>)
    ensures r == Ok(false) ==> forall i :: 0 <= i < |s| ==> Order(v, s[i], m).Ok? && Order(v, s[i], m).value != 0
    ensures r == Ok(true) ==> exists i :: 0 <= i < |s| && Order(v, s[i], m) == Ok(0)
  {
    if s == [] then Ok(false)
    else match Order(v, s[0], m)
      case Err(e) => Err(e)
      case Ok(c) =>
        if c == 0 then Ok(true)
        else
          var r := ScanOrder(v, s[1..], m);
          assert r == Ok(true) ==> exists i :: 0 <= i < |s| && Order(v, s[i], m) == Ok(0) by {
            if r == Ok(true) {
              var i :| 0 <= i < |s[1..]| && Order(v, s[1..][i], m) == Ok(0);
              assert s[i + 1] == s[1..][i];
            }
          }
          r
  }

  /** For an integer of a kind BasicCompare handles and elements of that
      kind, Contains by value answers exactly whether the value occurs. */
  lemma {:induction false} ScanOrderFindsIntegers(v: Value, s: seq<Value>, m: Methods)
    requires v.IntV? && v.ikind != Uint && v.ikind != Int32 && WellFormed(v)
    requires AllOfKind(s, KindOf(v))
    ensures ScanOrder(v, s, m) == Ok(v in s)
  {
    if s != [] {
      IntCompareZeroIffEqual(v.ikind, v.n, s[0].n);
      assert s[0] == IntV(v.ikind, s[0].n);
      if Order(v, s[0], m) != Ok(0) {
        ScanOrderFindsIntegers(v, s[1..], m);
        assert s == [s[0]] + s[1..];
      }
    }
  }

  // ---------------------------------------------------------------------
  // Sum and Average

  /** The kind Sum accumulates in: the element kind without an expression,
      the expression's first result kind with one. */
  function SumKind(elementType: Kind, express: Option<Projection>): (r: Result<Kind>)
    ensures express.Some? && r.Ok? ==>
      CheckExpress(express.value.t, [elementType], None).Pass? &&
      |express.value.t.results| > 0 && r.value == express.value.t.results[0]
  {
    match express
    case None => Ok(elementType)
    case Some(p) =>
      match CheckExpress(p.t, [elementType], None)
      case Fail(e) => Err(e)
      case Pass => if |p.t.results| == 0 then Err(OutOfRange(0)) else Ok(p.t.results[0])
  }

  /** What Sum adds and what maxOrMin compares: the elements themselves
      without an expression, their images under it with one. */
  function Operands(s: seq<Value>, express: Option<Projection>): (r: seq<Value>)
    ensures |r| == |s|
    ensures forall i :: 0 <= i < |s| ==> r[i] == (if express.None? then s[i] else express.value.apply(s[i]))
  {
    match express
    case None => s
    case Some(p) => Image(s, p.apply)
  }

  /** Adding the values one by one to a running total. */
  function SumFold(acc: Value, s: seq<Value>): (r: Result<Value>)
    requires (acc.IntV? && acc.ikind != Uint) || acc.FloatV?
    ensures r.Ok? ==> KindOf(r.value) == KindOf(acc) && ((r.value.IntV? && r.value.ikind != Uint) || r.value.FloatV?)
  {
    if s == [] then Ok(acc)
    else match SumFold(acc, s[..|s| - 1])
      case Err(e) => Err(e)
      case Ok(t) => Accumulate(t, s[|s| - 1])
  }

  /** Once adding fails, the whole sum fails with the same error: the panic
      ends the loop. */
  lemma {:induction false} SumFoldErrorPersists(acc: Value, s: seq<Value>, j: nat)
    requires (acc.IntV? && acc.ikind != Uint) || acc.FloatV?
    requires j <= |s| && SumFold(acc, s[..j]).Err?
    ensures SumFold(acc, s) == SumFold(acc, s[..j])
    decreases |s|
  {
    if j < |s| {
      assert s[..|s| - 1][..j] == s[..j];
      SumFoldErrorPersists(acc, s[..|s| - 1], j);
    } else {
      assert s[..j] == s;
    }
  }

  /** Sum(express): the accumulator kind must be one Adder supports; an
      empty array gives that kind's zero; otherwise every summand is added. */
  function SumSpec(s: seq<Value>, elementType: Kind, express: Option<Projection>): (r: Result<Value>)
    ensures SumKind(elementType, express).Err? ==> r == Err(SumKind(elementType, express).error)
    ensures SumKind(elementType, express).Ok? && AdderFlavor(SumKind(elementType, express).value).Err? ==>
      r == Err(NotSupported(SumKind(elementType, express).value))
    ensures r.Ok? ==> SumKind(elementType, express).Ok? && KindOf(r.value) == SumKind(elementType, express).value
  {
    match SumKind(elementType, express)
    case Err(e) => Err(e)
    case Ok(k) =>
      if AdderFlavor(k).Err? then Err(NotSupported(k))
      else if |s| == 0 then Ok(Zero(k))
      else SumFold(Zero(k), Operands(s, express))
  }

  /** The mathematical sum of integer values. */
  function Total(s: seq<Value>): int {
    if s == [] then 0 else Total(s[..|s| - 1]) + (if s[|s| - 1].IntV? then s[|s| - 1].n else 0)
  }

  /** Adding integers of one kind to a zero total gives their sum wrapped
      once to the kind's width: the wrap at each step does not matter. */
  lemma {:induction false} SumFoldIsWrappedTotal(k: AccIntKind, s: seq<Value>)
    requires AllOfKind(s, k)
    ensures SumFold(IntV(k, 0), s) == Ok(IntV(k, Wrap(k, Total(s))))
  {
    if s == [] {
      WrapInRange(k, 0);
    } else {
      var init, last := s[..|s| - 1], s[|s| - 1];
      AllOfKindPrefix(s, k, |s| - 1);
      SumFoldIsWrappedTotal(k, init);
      assert SumFold(IntV(k, 0), s) == Accumulate(IntV(k, Wrap(k, Total(init))), last);
      WrappedStep(k, Total(init), last);
    }
  }

  /** A prefix of values of one kind holds values of that kind. */
  lemma AllOfKindPrefix(s: seq<Value>, k: Kind, j: nat)
    requires j <= |s| && AllOfKind(s, k)
    ensures AllOfKind(s[..j], k)
  {
    forall i | 0 <= i < j ensures KindOf(s[..j][i]) == k && WellFormed(s[..j][i]) {
      assert s[..j][i] == s[i];
    }
  }

  /** Rearranging values of one kind leaves values of that kind. */
  lemma AllOfKindPermutation(s: seq<Value>, t: seq<Value>, k: Kind)
    requires multiset(s) == multiset(t) && AllOfKind(s, k)
    ensures AllOfKind(t, k)
  {
    forall i | 0 <= i < |t| ensures KindOf(t[i]) == k && WellFormed(t[i]) {
      assert t[i] in multiset(s);
    }
  }

  /** Adding x to the wrapped total t is wrapping t + x. */
  lemma WrappedStep(k: AccIntKind, t: int, x: Value)
    requires x.IntV? && KindOf(x) == k
    ensures Accumulate(IntV(k, Wrap(k, t)), x) == Ok(IntV(k, Wrap(k, t + x.n)))
  {
    var w := Wrap(k, t);
    assert (w + x.n) - (t + x.n) == w - t;
    WrapCongruent(k, w + x.n, t + x.n);
  }

  /** Sum without an expression over integer elements of a kind Adder
      supports is their sum wrapped to the width; over no elements it is 0. */
  lemma SumOfIntegers(s: seq<Value>, k: AccIntKind)
    requires k != Int32 && AllOfKind(s, k)
    ensures SumSpec(s, k, None) == Ok(IntV(k, Wrap(k, Total(s))))
  {
    if s == [] {
      WrapInRange(k, 0);
    } else {
      SumFoldIsWrappedTotal(k, s);
    }
  }

  /** Sum with an expression of declared result kind k adds the images,
      wrapped to k's width, provided the expression returns values of kind k. */
  lemma SumOfImages(s: seq<Value>, elementType: Kind, p: Projection, k: AccIntKind)
    requires k != Int32 && p.t == GoType(Func, [elementType], [k])
    requires AllOfKind(Operands(s, Some(p)), k)
    ensures SumSpec(s, elementType, Some(p)) == Ok(IntV(k, Wrap(k, Total(Operands(s, Some(p))))))
  {
    assert CheckExpress(p.t, [elementType], None).Pass?;
    assert SumKind(elementType, Some(p)) == Ok(k);
    assert Zero(k) == IntV(k, 0);
    if s == [] {
      WrapInRange(k, 0);
    } else {
      SumFoldIsWrappedTotal(k, Operands(s, Some(p)));
    }
  }

  /** uint8 200 + 100 is 44. */
  lemma Uint8SumWraps()
    ensures Accumulate(IntV(Uint8, 200), IntV(Uint8, 100)) == Ok(IntV(Uint8, 44))
  {
  }

  /** A sum converted to float64 (exactly, here). */
  function AsReal(v: Value): real {
    match v
    case IntV(_, n) => n as real
    case FloatV(_, x) => x
    case _ => 0.0
  }

  /** Average(express): 0 for an empty array, before the expression is even
      checked; otherwise Sum divided by the length. */
  function AverageSpec(s: seq<Value>, elementType: Kind, express: Option<Projection>): (r: Result<real>)
    ensures |s| == 0 ==> r == Ok(0.0)
    ensures |s| > 0 && SumSpec(s, elementType, express).Ok? ==>
      r == Ok(AsReal(SumSpec(s, elementType, express).value) / (|s| as real))
    ensures |s| > 0 && SumSpec(s, elementType, express).Err? ==> r == Err(SumSpec(s, elementType, express).error)
  {
    if |s| == 0 then Ok(0.0)
    else match SumSpec(s, elementType, express)
      case Err(e) => Err(e)
      case Ok(v) => Ok(AsReal(v) / (|s| as real))
  }

  // ---------------------------------------------------------------------
  // Max and Min

  /** The comparison maxOrMin uses: BasicComparator(candidate) compared with
      the current extremum. */
  function SourceOrder(m: Methods): (Value, Value) -> Result<int> {
    (a, b) => Order(a, b, m)
  }

  /** The position maxOrMin settles on for keys scanned front to back: a later
      key replaces the current one only when it compares strictly greater (for
      Max) or strictly less (for Min). */
  function ExtremeIndex(keys: seq<Value>, isMax: bool, cmp: (Value, Value) -> Result<int>): (r: Result<nat>)
    requires |keys| > 0
    ensures r.Ok? ==> r.value < |keys|
    decreases |keys|
  {
    if |keys| == 1 then Ok(0)
    else
      match ExtremeIndex(keys[..|keys| - 1], isMax, cmp)
      case Err(e) => Err(e)
      case Ok(b) =>
        match cmp(keys[|keys| - 1], keys[b])
        case Err(e) => Err(e)
        case Ok(c) => if (isMax && c > 0) || (!isMax && c < 0) then Ok(|keys| - 1) else Ok(b)
  }

  /** One more key: the scan either fails on the comparison, moves to the
      new key, or keeps the current one. */
  lemma ExtremeIndexNext(keys: seq<Value>, i: nat, b: nat, isMax: bool, cmp: (Value, Value) -> Result<int>)
    requires 0 < i < |keys| && ExtremeIndex(keys[..i], isMax, cmp) == Ok(b)
    ensures ExtremeIndex(keys[..i + 1], isMax, cmp) ==
      match cmp(keys[i], keys[b])
      case Err(e) => Err(e)
      case Ok(c) => if (isMax && c > 0) || (!isMax && c < 0) then Ok(i) else Ok(b)
  {
    assert keys[..i + 1][..i] == keys[..i];
  }

  /** Once a comparison fails, the scan fails with the same error: the
      panic ends the loop. */
  lemma {:induction false} ExtremeIndexErrorPersists(keys: seq<Value>, j: nat, isMax: bool, cmp: (Value, Value) -> Result<int>)
    requires 0 < j <= |keys| && ExtremeIndex(keys[..j], isMax, cmp).Err?
    ensures ExtremeIndex(keys, isMax, cmp) == ExtremeIndex(keys[..j], isMax, cmp)
    decreases |keys|
  {
    if j < |keys| {
      assert keys[..|keys| - 1][..j] == keys[..j];
      ExtremeIndexErrorPersists(keys[..|keys| - 1], j, isMax, cmp);
    } else {
      assert keys[..j] == keys;
    }
  }

  /** maxOrMin(express, isMax): an expression must map the element kind to
      int; an empty array has no extremum (the zero reflect.Value panics);
      otherwise the element whose key ExtremeIndex selects. */
  function MaxOrMinSpec(s: seq<Value>, elementType: Kind, express: Option<Projection>, isMax: bool, m: Methods): (r: Result<Value>)
    ensures r.Ok? ==> r.value in s
    ensures express.Some? && CheckExpress(express.value.t, [elementType], Some([Int])).Fail? ==>
      r == Err(CheckExpress(express.value.t, [elementType], Some([Int])).error)
  {
    if express.Some? && CheckExpress(express.value.t, [elementType], Some([Int])).Fail? then
      Err(CheckExpress(express.value.t, [elementType], Some([Int])).error)
    else if |s| == 0 then Err(ZeroValue)
    else
      match ExtremeIndex(Operands(s, express), isMax, SourceOrder(m))
      case Err(e) => Err(e)
      case Ok(b) => Ok(s[b])
  }

  /** cmp orders the integer keys by their numeric value: its sign is the
      sign of the difference, and it never fails on them. */
  ghost predicate SignCorrectOn(cmp: (Value, Value) -> Result<int>, keys: seq<Value>) {
    (forall i :: 0 <= i < |keys| ==> keys[i].IntV?) &&
    forall i, j :: 0 <= i < |keys| && 0 <= j < |keys| ==>
      cmp(keys[i], keys[j]).Ok? &&
      (cmp(keys[i], keys[j]).value > 0 <==> keys[i].n > keys[j].n) &&
      (cmp(keys[i], keys[j]).value < 0 <==> keys[i].n < keys[j].n)
  }

  /** Position b holds the largest (isMax) or smallest key of keys, and no
      earlier position holds a key as large (as small). */
  ghost predicate FirstExtremum(keys: seq<Value>, b: nat, isMax: bool) {
    b < |keys| && (forall i :: 0 <= i < |keys| ==> keys[i].IntV?) &&
    (forall j :: 0 <= j < |keys| ==> if isMax then keys[j].n <= keys[b].n else keys[j].n >= keys[b].n) &&
    (forall j :: 0 <= j < b ==> if isMax then keys[j].n < keys[b].n else keys[j].n > keys[b].n)
  }

  /** With a comparison that orders the keys by value, the scan selects the
      FIRST position holding the largest (Max) or smallest (Min) key. */
  lemma {:induction false} ExtremeIndexIsFirstExtremum(keys: seq<Value>, isMax: bool, cmp: (Value, Value) -> Result<int>)
    requires |keys| > 0 && SignCorrectOn(cmp, keys)
    ensures ExtremeIndex(keys, isMax, cmp).Ok?
    ensures FirstExtremum(keys, ExtremeIndex(keys, isMax, cmp).value, isMax)
  {
    if |keys| > 1 {
      var init := keys[..|keys| - 1];
      SignCorrectOnPrefix(cmp, keys);
      ExtremeIndexIsFirstExtremum(init, isMax, cmp);
      var b := ExtremeIndex(init, isMax, cmp).value;
      ExtremeStep(keys, isMax, cmp, b);
    }
  }

  lemma SignCorrectOnPrefix(cmp: (Value, Value) -> Result<int>, keys: seq<Value>)
    requires |keys| > 0 && SignCorrectOn(cmp, keys)
    ensures SignCorrectOn(cmp, keys[..|keys| - 1])
  {
    var init := keys[..|keys| - 1];
    forall i | 0 <= i < |init| ensures init[i] == keys[i] { }
  }

  /** One more key: the scan keeps its position or moves to the new key,
      and either way the result is the first extremum of the longer run. */
  lemma ExtremeStep(keys: seq<Value>, isMax: bool, cmp: (Value, Value) -> Result<int>, b: nat)
    requires |keys| > 1 && b < |keys| - 1 && keys[|keys| - 1].IntV? && keys[b].IntV?
    requires cmp(keys[|keys| - 1], keys[b]).Ok?
    requires cmp(keys[|keys| - 1], keys[b]).value > 0 <==> keys[|keys| - 1].n > keys[b].n
    requires cmp(keys[|keys| - 1], keys[b]).value < 0 <==> keys[|keys| - 1].n < keys[b].n
    requires ExtremeIndex(keys[..|keys| - 1], isMax, cmp) == Ok(b)
    requires FirstExtremum(keys[..|keys| - 1], b, isMax)
    ensures ExtremeIndex(keys, isMax, cmp).Ok?
    ensures FirstExtremum(keys, ExtremeIndex(keys, isMax, cmp).value, isMax)
  {
    var init, last := keys[..|keys| - 1], |keys| - 1;
    assert init[b] == keys[b];
    var c := cmp(keys[last], keys[b]).value;
    if (isMax && c > 0) || (!isMax && c < 0) {
      assert ExtremeIndex(keys, isMax, cmp) == Ok(last);
      forall j | 0 <= j < last
        ensures keys[j].IntV? && if isMax then keys[j].n < keys[last].n else keys[j].n > keys[last].n
      {
        assert init[j] == keys[j];
      }
      assert FirstExtremum(keys, last, isMax);
    } else {
      assert ExtremeIndex(keys, isMax, cmp) == Ok(b);
      forall j | 0 <= j < last
        ensures keys[j].IntV? && if isMax then keys[j].n <= keys[b].n else keys[j].n >= keys[b].n
      {
        assert init[j] == keys[j];
      }
      forall j | 0 <= j < b
        ensures if isMax then keys[j].n < keys[b].n else keys[j].n > keys[b].n
      {
        assert init[j] == keys[j];
      }
      assert FirstExtremum(keys, b, isMax);
    }
  }

  /** BasicCompare orders Go int (int64) values by value as long as no
      difference of two keys overflows 64 bits, which holds for keys below
      2^62 in magnitude. */
  lemma SourceOrderOnBoundedInts(keys: seq<Value>, k: Kind, m: Methods)
    requires k == Int || k == Int64
    requires forall i :: 0 <= i < |keys| ==>
      keys[i].IntV? && keys[i].ikind == k && -0x4000_0000_0000_0000 <= keys[i].n < 0x4000_0000_0000_0000
    ensures SignCorrectOn(SourceOrder(m), keys)
  {
    forall i, j | 0 <= i < |keys| && 0 <= j < |keys|
      ensures SourceOrder(m)(keys[i], keys[j]) == Ok(keys[i].n - keys[j].n)
    {
      WideCompareIsDifference(k, keys[i].n, keys[j].n);
    }
  }

  /** Max and Min with a key expression returning small enough Go ints return
      the first element whose key is largest (smallest); b is its position. */
  lemma MaxOrMinByIntKey(s: seq<Value>, elementType: Kind, p: Projection, isMax: bool, m: Methods) returns (b: nat)
    requires |s| > 0 && p.t == GoType(Func, [elementType], [Int])
    requires forall i :: 0 <= i < |s| ==>
      p.apply(s[i]).IntV? && p.apply(s[i]).ikind == Int &&
      -0x4000_0000_0000_0000 <= p.apply(s[i]).n < 0x4000_0000_0000_0000
    ensures b < |s| && MaxOrMinSpec(s, elementType, Some(p), isMax, m) == Ok(s[b])
    ensures forall j :: 0 <= j < |s| ==>
      if isMax then p.apply(s[j]).n <= p.apply(s[b]).n else p.apply(s[j]).n >= p.apply(s[b]).n
    ensures forall j :: 0 <= j < b ==>
      if isMax then p.apply(s[j]).n < p.apply(s[b]).n else p.apply(s[j]).n > p.apply(s[b]).n
  {
    var keys := Operands(s, Some(p));
    assert forall i :: 0 <= i < |s| ==> keys[i] == p.apply(s[i]);
    SourceOrderOnBoundedInts(keys, Int, m);
    ExtremeIndexIsFirstExtremum(keys, isMax, SourceOrder(m));
    b := ExtremeIndex(keys, isMax, SourceOrder(m)).value;
    assert CheckExpress(p.t, [elementType], Some([Int])).Pass?;
    assert MaxOrMinSpec(s, elementType, Some(p), isMax, m) == Ok(s[b]);
    assert FirstExtremum(keys, b, isMax);
    forall j | 0 <= j < |s|
      ensures if isMax then p.apply(s[j]).n <= p.apply(s[b]).n else p.apply(s[j]).n >= p.apply(s[b]).n
    {
      assert keys[j] == p.apply(s[j]) && keys[b] == p.apply(s[b]);
    }
    forall j | 0 <= j < b
      ensures if isMax then p.apply(s[j]).n < p.apply(s[b]).n else p.apply(s[j]).n > p.apply(s[b]).n
    {
      assert keys[j] == p.apply(s[j]) && keys[b] == p.apply(s[b]);
    }
  }

  /** Max and Min without an expression, over Go int or int64 elements small
      enough that no difference overflows: the first largest (smallest)
      element; b is its position. */
  lemma MaxOrMinOfInts(s: seq<Value>, k: Kind, isMax: bool, m: Methods) returns (b: nat)
    requires |s| > 0 && (k == Int || k == Int64)
    requires forall i :: 0 <= i < |s| ==>
      s[i].IntV? && s[i].ikind == k && -0x4000_0000_0000_0000 <= s[i].n < 0x4000_0000_0000_0000
    ensures b < |s| && MaxOrMinSpec(s, k, None, isMax, m) == Ok(s[b])
    ensures forall j :: 0 <= j < |s| ==> if isMax then s[j].n <= s[b].n else s[j].n >= s[b].n
    ensures forall j :: 0 <= j < b ==> if isMax then s[j].n < s[b].n else s[j].n > s[b].n
  {
    assert Operands(s, None) == s;
    SourceOrderOnBoundedInts(s, k, m);
    ExtremeIndexIsFirstExtremum(s, isMax, SourceOrder(m));
    b := ExtremeIndex(s, isMax, SourceOrder(m)).value;
    assert FirstExtremum(s, b, isMax);
  }

  /** Max over the uint8 values [5, 3] returns 3: comparing 3 with 5 gives
      uint8(3 - 5) = 254, which reads as "greater", so the scan moves to the
      smaller element. */
  lemma Uint8MaxPicksSmaller(m: Methods)
    ensures MaxOrMinSpec([IntV(Uint8, 5), IntV(Uint8, 3)], Uint8, None, true, m) == Ok(IntV(Uint8, 3))
  {
    var s := [IntV(Uint8, 5), IntV(Uint8, 3)];
    assert Operands(s, None) == s;
    assert Wrap(Uint8, 3 - 5) == 254;
    WrapInRange(Int, 254);
    assert SourceOrder(m)(s[1], s[0]) == Ok(254);
    assert s[..1] == [s[0]];
    assert ExtremeIndex(s, true, SourceOrder(m)) == Ok(1);
  }

  function IntendedSourceOrder(m: Methods): (Value, Value) -> Result<int> {
    (a, b) => IntendedOrder(a, b, m)
  }

  /** With the intended integer comparison, the scan of maxOrMin selects the
      first largest (smallest) element for integers of any width except
      Go's plain uint, with no bound on their magnitude. */
  lemma IntendedMaxOrMinOfInts(s: seq<Value>, k: Kind, isMax: bool, m: Methods) returns (b: nat)
    requires |s| > 0 && k != Uint
    requires forall i :: 0 <= i < |s| ==> s[i].IntV? && s[i].ikind == k
    ensures ExtremeIndex(s, isMax, IntendedSourceOrder(m)) == Ok(b)
    ensures FirstExtremum(s, b, isMax)
  {
    forall i, j | 0 <= i < |s| && 0 <= j < |s|
      ensures IntendedSourceOrder(m)(s[i], s[j]) == IntendedOrder(s[i], s[j], m)
    {
    }
    assert SignCorrectOn(IntendedSourceOrder(m), s);
    ExtremeIndexIsFirstExtremum(s, isMax, IntendedSourceOrder(m));
    b := ExtremeIndex(s, isMax, IntendedSourceOrder(m)).value;
  }

  /** On the uint8 values [5, 3] the intended comparison makes Max return 5. */
  lemma IntendedUint8MaxPicksLarger(m: Methods)
    ensures ExtremeIndex([IntV(Uint8, 5), IntV(Uint8, 3)], true, IntendedSourceOrder(m)) == Ok(0)
  {
    var b := IntendedMaxOrMinOfInts([IntV(Uint8, 5), IntV(Uint8, 3)], Uint8, true, m);
  }
}
