/**
 * The `_array` of array.go: a wrapper around a sequence of elements of one
 * kind, with LINQ-style operations driven by caller-supplied expressions.
 * Operations that build a new Array return its elements; Append, Sort and
 * SortByBubble change the wrapper (or the wrapped array) itself.
 */
module Arrays {
  import opened Kinds
  import opened Failures
  import opened Express
  import opened Comparators
  import opened Adders
  import opened ArraySpec
  import opened Sorting

  /** Join's options: the separator, and an optional expression mapping each
      element to the string to write. */
  datatype JoinOptions = JoinOptions(symbol: string, express: Option<Projection>)

  /** What Contains may be given: a predicate, or a value to look for.
      Contains chooses its path by the argument's reflect kind, so FuncArg
      stands for an argument of kind Func (its p.t.kind is Func) and every
      argument of another kind is a ValueArg. */
  datatype Operand = FuncArg(p: Predicate) | ValueArg(v: Value)

  /** The check Sort, SortByBubble and SortMT apply to a "less than": two
      parameters of the element kind, one bool result. */
  function LessCheck(l: LessThan, elementType: Kind): (r: Outcome)
    ensures r.Pass? <==> l.t == GoType(Func, [elementType, elementType], [Bool])
  {
    CheckExpress(l.t, [elementType, elementType], Some([Bool]))
  }

  /** Holds for the elements that are not of kind k. */
  function OtherKind(k: Kind): Value -> bool {
    e => KindOf(e) != k
  }

  class Array {
    /** `elementType`: the kind of every element. */
    const elementType: Kind
    /** `value`: the wrapped slice. */
    var value: array<Value>

    ghost predicate Valid()
      reads this, value
    {
      AllOfKind(value[..], elementType)
    }

    /** innerLambdaArray: wraps a fresh slice holding the given elements, all
        of the slice's element kind. */
    constructor (elementType: Kind, elements: seq<Value>)
      requires AllOfKind(elements, elementType)
      ensures this.elementType == elementType && fresh(value) && value[..] == elements
      ensures Valid()
    {
      this.elementType := elementType;
      value := new Value[|elements|](i requires 0 <= i < |elements| => elements[i]);
    }

    function Len(): (n: nat)
      reads this
      ensures n == value.Length
    {
      value.Length
    }

    /** Index(i): the element at position i; past the end an "out of range"
        error, and before the start the panic of reflect's Index. */
    function Index(i: int): (r: Result<Value>)
      reads this, value
      ensures r.Ok? <==> 0 <= i < value.Length
      ensures r.Ok? ==> r.value == value[i]
      ensures r.Err? ==> r == Err(OutOfRange(i))
    {
      if i < value.Length then
        if i < 0 then Err(OutOfRange(i)) else Ok(value[i])
      else Err(OutOfRange(i))
    }

    /** Filter(express): the elements the predicate holds for, in order. */
    method Filter(express: Option<Predicate>) returns (r: Result<seq<Value>>)
      ensures express.None? ==> r == Err(NilExpress)
      ensures express.Some? && PredicateCheck(express.value, elementType).Fail? ==>
        r == Err(PredicateCheck(express.value, elementType).error)
      ensures express.Some? && PredicateCheck(express.value, elementType).Pass? ==>
        r == Ok(Select(value[..], express.value.test))
    {
      if express.None? {
        return Err(NilExpress);
      }
      var p := express.value;
      var check := PredicateCheck(p, elementType);
      if check.Fail? {
        return Err(check.error);
      }
      var ret: seq<Value> := [];
      for i := 0 to value.Length
        invariant ret == Select(value[..i], p.test)
      {
        assert value[..i + 1][..i] == value[..i];
        if p.test(value[i]) {
          ret := ret + [value[i]];
        }
      }
      assert value[..value.Length] == value[..];
      r := Ok(ret);
    }

    /** Map(express): the image of every element, position by position; the
        expression must have one result, whose kind the new Array takes. */
    method Map(express: Option<Projection>) returns (r: Result<seq<Value>>)
      ensures express.None? ==> r == Err(NilExpress)
      ensures express.Some? && CheckExpressRARTO(express.value.t, [elementType]).Err? ==>
        r == Err(CheckExpressRARTO(express.value.t, [elementType]).error)
      ensures express.Some? && CheckExpressRARTO(express.value.t, [elementType]).Ok? ==>
        r.Ok? && |r.value| == value.Length &&
        forall i :: 0 <= i < value.Length ==> r.value[i] == express.value.apply(value[i])
    {
      if express.None? {
        return Err(NilExpress);
      }
      var p := express.value;
      var ot := CheckExpressRARTO(p.t, [elementType]);
      if ot.Err? {
        return Err(ot.error);
      }
      var result := new Value[value.Length];
      for i := 0 to value.Length
        invariant forall k :: 0 <= k < i ==> result[k] == p.apply(value[k])
      {
        result[i] := p.apply(value[i]);
      }
      r := Ok(result[..]);
    }

    /** Take(skip, count): up to count elements from position skip on. A
        negative skip with a positive count reaches reflect's Index with a
        negative position and panics. */
    method Take(skip: int, count: int) returns (r: Result<seq<Value>>)
      ensures skip < 0 && count > 0 ==> r == Err(OutOfRange(skip))
      ensures (count <= 0 || skip >= value.Length) ==> r == Ok([])
      ensures 0 <= skip < value.Length && count > 0 ==>
        r == Ok(value[skip..ArraySpec.Min(skip + count, value.Length)])
    {
      var length := value.Length;
      var ret: seq<Value> := [];
      var c := count;
      var i := skip;
      while i < length
        invariant count > 0 && skip < 0 ==> i == skip && c == count
        invariant count > 0 && skip >= 0 ==>
          skip <= i <= (if skip < length then length else skip) && |ret| == i - skip &&
          c == count - |ret| && c > 0 && forall k :: 0 <= k < |ret| ==> ret[k] == value[skip + k]
        invariant count <= 0 ==> ret == [] && c == count
        decreases length - i
      {
        if c > 0 {
          if i < 0 {
            return Err(OutOfRange(i));
          }
          ret := ret + [value[i]];
          c := c - 1;
        }
        if c == 0 {
          break;
        }
        i := i + 1;
      }
      if 0 <= skip < length && count > 0 {
        assert ret == value[skip..ArraySpec.Min(skip + count, length)];
      }
      r := Ok(ret);
    }

    /** Join(options): with an expression, Join of the Map of the elements;
        without one, the string elements separated by the Symbol (or ","). */
    method Join(options: JoinOptions) returns (r: Result<string>)
      ensures options.express.None? ==> r == JoinSpec(value[..], elementType, options.symbol)
      ensures options.express.Some? && CheckExpressRARTO(options.express.value.t, [elementType]).Err? ==>
        r == Err(CheckExpressRARTO(options.express.value.t, [elementType]).error)
      ensures options.express.Some? && CheckExpressRARTO(options.express.value.t, [elementType]).Ok? ==>
        r == JoinSpec(Image(value[..], options.express.value.apply),
                      CheckExpressRARTO(options.express.value.t, [elementType]).value, options.symbol)
    {
      if options.express.Some? {
        var mapped := Map(options.express);
        if mapped.Err? {
          return Err(mapped.error);
        }
        var ot := CheckExpressRARTO(options.express.value.t, [elementType]).value;
        assert mapped.value == Image(value[..], options.express.value.apply);
        r := JoinStrings(mapped.value, ot, options.symbol);
      } else {
        r := JoinStrings(value[..], elementType, options.symbol);
      }
    }

    /** Count(express): the length without a predicate, otherwise how many
        elements the predicate holds for. */
    method Count(express: Option<Predicate>) returns (r: Result<int>)
      ensures express.None? ==> r == Ok(value.Length)
      ensures express.Some? && PredicateCheck(express.value, elementType).Fail? ==>
        r == Err(PredicateCheck(express.value, elementType).error)
      ensures express.Some? && PredicateCheck(express.value, elementType).Pass? ==>
        r == Ok(CountWhere(value[..], express.value.test))
    {
      if express.None? {
        return Ok(value.Length);
      }
      var p := express.value;
      var check := PredicateCheck(p, elementType);
      if check.Fail? {
        return Err(check.error);
      }
      var count := 0;
      for i := 0 to value.Length
        invariant count == CountWhere(value[..i], p.test)
      {
        assert value[..i + 1][..i] == value[..i];
        if p.test(value[i]) {
          count := count + 1;
        }
      }
      assert value[..value.Length] == value[..];
      r := Ok(count);
    }

    /** Any(express): without a predicate, whether there is an element;
        otherwise whether the predicate holds for some element. */
    method Any(express: Option<Predicate>) returns (r: Result<bool>)
      ensures express.None? ==> r == Ok(value.Length > 0)
      ensures express.Some? && PredicateCheck(express.value, elementType).Fail? ==>
        r == Err(PredicateCheck(express.value, elementType).error)
      ensures express.Some? && PredicateCheck(express.value, elementType).Pass? ==>
        r == Ok(exists i :: 0 <= i < value.Length && express.value.test(value[i]))
    {
      if express.None? {
        return Ok(value.Length > 0);
      }
      var p := express.value;
      var check := PredicateCheck(p, elementType);
      if check.Fail? {
        return Err(check.error);
      }
      for i := 0 to value.Length
        invariant forall k :: 0 <= k < i ==> !p.test(value[k])
      {
        if p.test(value[i]) {
          return Ok(true);
        }
      }
      r := Ok(false);
    }

    /** All(express): without a predicate, whether there is an element;
        otherwise whether the predicate holds for every element AND there is
        one: an empty array is never "all". */
    method All(express: Option<Predicate>) returns (r: Result<bool>)
      ensures express.None? ==> r == Ok(value.Length > 0)
      ensures express.Some? && PredicateCheck(express.value, elementType).Fail? ==>
        r == Err(PredicateCheck(express.value, elementType).error)
      ensures express.Some? && PredicateCheck(express.value, elementType).Pass? ==>
        r == Ok(value.Length > 0 && forall i :: 0 <= i < value.Length ==> express.value.test(value[i]))
    {
      if express.None? {
        return Ok(value.Length > 0);
      }
      var p := express.value;
      var check := PredicateCheck(p, elementType);
      if check.Fail? {
        return Err(check.error);
      }
      for i := 0 to value.Length
        invariant forall k :: 0 <= k < i ==> p.test(value[k])
      {
        if !p.test(value[i]) {
          return Ok(false);
        }
      }
      r := Ok(value.Length > 0);
    }

    /** Find(express, start, step), for the steps First and Last use. */
    method Find(express: Option<Predicate>, start: int, step: int) returns (r: Result<Value>)
      requires step == 1 || step == -1
      ensures r == FindSpec(value[..], elementType, express, start, step)
    {
      var length := value.Length;
      if length == 0 {
        return Err(EmptyArray);
      }
      if express.None? {
        return Ok(value[0]);
      }
      var p := express.value;
      var check := PredicateCheck(p, elementType);
      if check.Fail? {
        return Err(check.error);
      }
      var i := start;
      while i < length && i >= 0
        invariant step == 1 && start >= 0 ==> start <= i && FirstFrom(value[..], p.test, start) == FirstFrom(value[..], p.test, i)
        invariant step == 1 && start < 0 ==> i == start
        invariant step == -1 && start < length ==> i <= start && LastUpTo(value[..], p.test, start) == LastUpTo(value[..], p.test, i)
        invariant step == -1 && start >= length ==> i == start
        decreases if step == 1 then length - i else i + 1
      {
        if p.test(value[i]) {
          return Ok(value[i]);
        }
        i := i + step;
      }
      r := Err(NotFound);
    }

    /** First(express) = Find(express, 0, 1). */
    method First(express: Option<Predicate>) returns (r: Result<Value>)
      ensures r == FindSpec(value[..], elementType, express, 0, 1)
    {
      r := Find(express, 0, 1);
    }

    /** Last(express) = Find(express, Len()-1, -1). */
    method Last(express: Option<Predicate>) returns (r: Result<Value>)
      ensures r == FindSpec(value[..], elementType, express, value.Length - 1, -1)
    {
      r := Find(express, Len() - 1, -1);
    }

    /** Sum(express): the accumulator Adder builds for the element kind (or the
        expression's first result kind), fed every element (or its image). */
    method Sum(express: Option<Projection>) returns (r: Result<Value>)
      ensures r == SumSpec(value[..], elementType, express)
    {
      var k := SumKind(elementType, express);
      if k.Err? {
        return Err(k.error);
      }
      var t := k.value;
      var made := Adder(t);
      if made.Err? {
        return Err(made.error);
      }
      var add := made.value;
      if value.Length == 0 {
        return Ok(add.Value());
      }
      r := AddAll(add, t, Operands(value[..], express));
    }

    /** Average(express): 0 for an empty array; otherwise Sum, converted to a
        float, divided by the length. */
    method Average(express: Option<Projection>) returns (r: Result<real>)
      ensures r == AverageSpec(value[..], elementType, express)
    {
      if value.Length == 0 {
        return Ok(0.0);
      }
      var sum := Sum(express);
      if sum.Err? {
        return Err(sum.error);
      }
      r := Ok(AsReal(sum.value) / (value.Length as real));
    }

    /** maxOrMin(express, isMax): scans front to back, keeping the element
        whose key is the current extremum; a later key replaces it only when
        BasicComparator(key).CompareTo(current key) is > 0 (< 0 for Min). */
    method MaxOrMin(express: Option<Projection>, isMax: bool, m: Methods) returns (r: Result<Value>)
      ensures r == MaxOrMinSpec(value[..], elementType, express, isMax, m)
    {
      if express.Some? {
        var check := CheckExpress(express.value.t, [elementType], Some([Int]));
        if check.Fail? {
          return Err(check.error);
        }
      }
      var length := value.Length;
      if length == 0 {
        return Err(ZeroValue);
      }
      ghost var keys := Operands(value[..], express);
      var b := 0;
      var mc := if express.None? then value[0] else express.value.apply(value[0]);
      for i := 1 to length
        invariant ExtremeIndex(keys[..i], isMax, SourceOrder(m)) == Ok(b) && b < i && mc == keys[b]
      {
        var vc := if express.None? then value[i] else express.value.apply(value[i]);
        ExtremeIndexNext(keys, i, b, isMax, SourceOrder(m));
        assert SourceOrder(m)(keys[i], keys[b]) == Order(vc, mc, m);
        var tor := BasicComparator(vc, m);
        if tor.Err? {
          ExtremeIndexErrorPersists(keys, i + 1, isMax, SourceOrder(m));
          return Err(tor.error);
        }
        var c := CompareTo(tor.value, mc, m);
        if c.Err? {
          ExtremeIndexErrorPersists(keys, i + 1, isMax, SourceOrder(m));
          return Err(c.error);
        }
        if (isMax && c.value > 0) || (!isMax && c.value < 0) {
          b, mc := i, vc;
        }
      }
      assert keys[..length] == keys;
      r := Ok(value[b]);
    }

    method Max(express: Option<Projection>, m: Methods) returns (r: Result<Value>)
      ensures r == MaxOrMinSpec(value[..], elementType, express, true, m)
    {
      r := MaxOrMin(express, true, m);
    }

    method Min(express: Option<Projection>, m: Methods) returns (r: Result<Value>)
      ensures r == MaxOrMinSpec(value[..], elementType, express, false, m)
    {
      r := MaxOrMin(express, false, m);
    }

    /** Contains(express): a predicate is asked of each element; a value
        BasicComparator accepts is compared with each element until one
        compares 0; a value with an Equals method is asked about each element;
        anything else is an "unknown type" panic, and nil a "null" one. */
    method Contains(express: Option<Operand>, m: Methods) returns (r: Result<bool>)
      ensures express.None? ==> r == Err(NilExpress)
      ensures express.Some? && express.value.FuncArg? ==>
        var p := express.value.p;
        r == if PredicateCheck(p, elementType).Fail? then Err(PredicateCheck(p, elementType).error)
             else Ok(exists i :: 0 <= i < value.Length && p.test(value[i]))
      ensures express.Some? && express.value.ValueArg? ==>
        var v := express.value.v;
        r == if BasicComparator(v, m).Ok? then ScanOrder(v, value[..], m)
             else if ImplementsEquals(v, m) then Ok(exists i :: 0 <= i < value.Length && m.equals(v, value[i]))
             else Err(UnknownType)
    {
      if express.None? {
        return Err(NilExpress);
      }
      match express.value
      case FuncArg(p) =>
        var check := PredicateCheck(p, elementType);
        if check.Fail? {
          return Err(check.error);
        }
        for i := 0 to value.Length
          invariant forall k :: 0 <= k < i ==> !p.test(value[k])
        {
          if p.test(value[i]) {
            return Ok(true);
          }
        }
        r := Ok(false);
      case ValueArg(v) =>
        var tor := BasicComparator(v, m);
        if tor.Ok? {
          for i := 0 to value.Length
            invariant ScanOrder(v, value[..], m) == ScanOrder(v, value[i..], m)
          {
            assert value[i..][1..] == value[i + 1..];
            var c := CompareTo(tor.value, value[i], m);
            if c.Err? {
              return Err(c.error);
            }
            if c.value == 0 {
              return Ok(true);
            }
          }
          r := Ok(false);
        } else if ImplementsEquals(v, m) {
          for i := 0 to value.Length
            invariant forall k :: 0 <= k < i ==> !m.equals(v, value[k])
          {
            if m.equals(v, value[i]) {
              return Ok(true);
            }
          }
          r := Ok(false);
        } else {
          r := Err(UnknownType);
        }
    }

    /** Append(elements...): every element must have the element kind, the
        first that does not is reported and nothing is appended; otherwise the
        wrapper holds the old elements followed by the new ones. Every Go
        value fits its kind. */
    method Append(elements: seq<Value>) returns (r: Outcome)
      requires Valid() && forall i :: 0 <= i < |elements| ==> WellFormed(elements[i])
      modifies this
      ensures FirstFrom(elements, OtherKind(elementType), 0).None? ==>
        r == Pass && fresh(value) && value[..] == old(value[..]) + elements
      ensures FirstFrom(elements, OtherKind(elementType), 0).Some? ==>
        var j := FirstFrom(elements, OtherKind(elementType), 0).value;
        r == Fail(ElementType(KindOf(elements[j]), elementType)) && value == old(value)
      ensures Valid()
    {
      for i := 0 to |elements|
        invariant FirstFrom(elements, OtherKind(elementType), 0) == FirstFrom(elements, OtherKind(elementType), i)
      {
        if KindOf(elements[i]) != elementType {
          return Fail(ElementType(KindOf(elements[i]), elementType));
        }
      }
      var old_ := value;
      value := new Value[old_.Length + |elements|](i requires 0 <= i < old_.Length + |elements| reads old_ =>
        if i < old_.Length then old_[i] else elements[i - old_.Length]);
      assert value[..] == old_[..] + elements;
      r := Pass;
    }

    /** Sort(express): replaces the wrapped slice by a copy and quicksorts the
        copy in place; the slice given before is left as it was. */
    method Sort(express: Option<LessThan>) returns (r: Outcome)
      requires Valid()
      modifies this
      ensures Valid()
      ensures express.None? ==> r == Fail(NilExpress) && value == old(value)
      ensures express.Some? && LessCheck(express.value, elementType).Fail? ==>
        r == Fail(LessCheck(express.value, elementType).error) && value == old(value)
      ensures express.Some? && LessCheck(express.value, elementType).Pass? ==>
        r == Pass && fresh(value) && old(value)[..] == old(value[..]) &&
        multiset(value[..]) == multiset(old(value[..])) &&
        (StrictOrder(express.value.less) ==> SortedBy(value[..], express.value.less))
      // Sorting again changes nothing, when any two distinct elements are related.
      ensures (express.Some? && LessCheck(express.value, elementType).Pass? &&
               StrictOrder(express.value.less) && TotalOn(express.value.less, old(value[..])) &&
               SortedBy(old(value[..]), express.value.less)) ==>
        value[..] == old(value[..])
    {
      if express.None? {
        return Fail(NilExpress);
      }
      var check := LessCheck(express.value, elementType);
      if check.Fail? {
        return Fail(check.error);
      }
      var source := value;
      value := new Value[source.Length](i requires 0 <= i < source.Length reads source => source[i]);
      assert value[0..value.Length] == value[..] == source[..];
      QuickSortRange(value, 0, value.Length - 1, express.value.less);
      assert value[0..value.Length] == value[..];
      AllOfKindPermutation(source[..], value[..], elementType);
      if StrictOrder(express.value.less) && TotalOn(express.value.less, source[..]) &&
         SortedBy(source[..], express.value.less) {
        SortedPermutationUnique(source[..], value[..], express.value.less);
      }
      r := Pass;
    }

    /** SortByBubble(express): sorts the wrapped slice itself, in place. */
    method SortByBubble(express: Option<LessThan>) returns (r: Outcome)
      requires Valid()
      modifies value
      ensures Valid()
      ensures express.None? ==> r == Fail(NilExpress) && value[..] == old(value[..])
      ensures express.Some? && LessCheck(express.value, elementType).Fail? ==>
        r == Fail(LessCheck(express.value, elementType).error) && value[..] == old(value[..])
      ensures express.Some? && LessCheck(express.value, elementType).Pass? ==>
        r == Pass && multiset(value[..]) == multiset(old(value[..])) &&
        (StrictOrder(express.value.less) ==> SortedBy(value[..], express.value.less))
      // Sorting again changes nothing, when any two distinct elements are related.
      ensures (express.Some? && LessCheck(express.value, elementType).Pass? &&
               StrictOrder(express.value.less) && TotalOn(express.value.less, old(value[..])) &&
               SortedBy(old(value[..]), express.value.less)) ==>
        value[..] == old(value[..])
    {
      if express.None? {
        return Fail(NilExpress);
      }
      var check := LessCheck(express.value, elementType);
      if check.Fail? {
        return Fail(check.error);
      }
      ghost var before := value[..];
      BubbleSort(value, express.value.less);
      AllOfKindPermutation(before, value[..], elementType);
      if StrictOrder(express.value.less) && TotalOn(express.value.less, before) &&
         SortedBy(before, express.value.less) {
        SortedPermutationUnique(before, value[..], express.value.less);
      }
      r := Pass;
    }

    /** SortMT(express): the elements in SortMT's order, in a new Array. */
    method SortMT(express: Option<LessThan>) returns (r: Result<seq<Value>>)
      ensures express.None? ==> r == Err(NilExpress)
      ensures express.Some? && LessCheck(express.value, elementType).Fail? ==>
        r == Err(LessCheck(express.value, elementType).error)
      ensures express.Some? && LessCheck(express.value, elementType).Pass? ==>
        r == Ok(QuickMT(value[..], express.value.less))
    {
      if express.None? {
        return Err(NilExpress);
      }
      var check := LessCheck(express.value, elementType);
      if check.Fail? {
        return Err(check.error);
      }
      r := Ok(QuickMT(value[..], express.value.less));
    }
  }

  /** Sum's loop: every operand is added to the accumulator, which starts at
      the zero of t; the first Add that panics ends the sum. */
  method AddAll(add: Add, t: Kind, xs: seq<Value>) returns (r: Result<Value>)
    requires IsInteger(t) || IsFloat(t)
    requires add.Valid() && add.Value() == Zero(t)
    modifies add.Repr()
    ensures r == SumFold(Zero(t), xs)
  {
    for i := 0 to |xs|
      invariant add.Valid()
      invariant SumFold(Zero(t), xs[..i]) == Ok(add.Value())
    {
      assert xs[..i + 1][..i] == xs[..i];
      var added := add.AddValue(xs[i]);
      if added.Fail? {
        SumFoldErrorPersists(Zero(t), xs, i + 1);
        return Err(added.error);
      }
    }
    assert xs[..|xs|] == xs;
    r := Ok(add.Value());
  }

  /** Join's builder loop over items of kind itemKind: each string, followed
      by the separator unless it is the last. */
  method JoinStrings(items: seq<Value>, itemKind: Kind, symbol: string) returns (r: Result<string>)
    ensures r == JoinSpec(items, itemKind, symbol)
  {
    if itemKind != String {
      return Err(NotStringArray);
    }
    var sep := Separator(symbol);
    var n := |items|;
    var build := "";
    ghost var done: seq<string> := [];
    for i := 0 to n
      invariant Strings(items[..i]) == Some(done)
      invariant build == Built(done, sep, i < n)
    {
      if !items[i].StrV? {
        assert Strings(items).None? by {
          assert !items[i].StrV?;
        }
        return Err(TypeAssertion);
      }
      var s := items[i].s;
      StringsStep(items, i);
      BuiltStep(done, s, sep, i < n - 1);
      build := build + s;
      done := done + [s];
      if i < n - 1 {
        build := build + sep;
      }
    }
    assert items[..n] == items;
    assert build == Joined(done, sep) by {
      assert done == [] ==> Joined(done, sep) == "";
    }
    r := Ok(build);
  }
}
