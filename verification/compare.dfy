/**
 * The three-way comparator of compare.go. A value either brings its own
 * CompareTo (a method of its struct type), or, when its kind is one of the
 * listed built-in kinds, is wrapped in a BasicCompare whose CompareTo
 * subtracts in the operands' own kind.
 */
module Comparators {
  import opened Kinds
  import opened Failures

  /** Methods that user struct types define: whether a type has a CompareTo
      (the Compare interface) or an Equals (the Equal interface), and what they
      compute. They are the caller's code, not part of the engine. */
  datatype Methods = Methods(
    hasCompare: string -> bool,
    compareTo: (Value, Value) -> int,
    hasEquals: string -> bool,
    equals: (Value, Value) -> bool)

  predicate ImplementsCompare(v: Value, m: Methods) {
    v.StructV? && m.hasCompare(v.typeName)
  }

  predicate ImplementsEquals(v: Value, m: Methods) {
    v.StructV? && m.hasEquals(v.typeName)
  }

  /** The support list of BasicComparator, as written: Uint32 appears twice
      and Int32 not at all. */
  const ComparableKinds: seq<Kind> :=
    [Int, Uint8, Uint16, Uint32, Uint64, Int8, Int16, Uint32, Int64, Float32, Float64, String]

  /** contain(kinds, target): a linear scan for target. */
  method Contain(kinds: seq<Kind>, target: Kind) returns (found: bool)
    ensures found <==> target in kinds
  {
    for i := 0 to |kinds|
      invariant target !in kinds[..i]
    {
      if kinds[i] == target {
        return true;
      }
    }
    return false;
  }

  /** What BasicComparator hands back: the value's own CompareTo, or a
      BasicCompare wrapping it. */
  datatype Comparator = Own(recv: Value) | Basic(recv: Value)

  /** BasicComparator(ele): a value whose type implements Compare is used as
      it is, before its kind is looked at; otherwise the kind must be in the
      support list, and any other kind is an "unknown type" error. */
  function BasicComparator(ele: Value, m: Methods): (r: Result<Comparator>)
    ensures ImplementsCompare(ele, m) ==> r == Ok(Own(ele))
    ensures !ImplementsCompare(ele, m) ==>
      (r.Ok? <==>
         KindOf(ele) in {Int, Int8, Int16, Int64, Uint8, Uint16, Uint32, Uint64, Float32, Float64, String})
    ensures !ImplementsCompare(ele, m) && r.Ok? ==> r.value == Basic(ele)
    ensures r.Err? ==> r.error == UnknownType
  {
    if ImplementsCompare(ele, m) then Ok(Own(ele))
    else if KindOf(ele) in ComparableKinds then Ok(Basic(ele))
    else Err(UnknownType)
  }

  /** strings.Compare: -1, 0 or 1 by lexicographic order. Go compares the
      UTF-8 bytes; for well-formed text that is the order of the code points
      compared here. */
  function StringCompare(a: string, b: string): (r: int)
    ensures -1 <= r <= 1
    ensures r == 0 <==> a == b
  {
    if |a| == 0 then (if |b| == 0 then 0 else -1)
    else if |b| == 0 then 1
    else if a[0] < b[0] then -1
    else if a[0] > b[0] then 1
    else
      var r := StringCompare(a[1..], b[1..]);
      assert r == 0 ==> a == [a[0]] + a[1..] == [b[0]] + b[1..] == b;
      r
  }

  /** a comes strictly before b in lexicographic order: at the first position
      where they differ a is smaller, or a is a proper prefix of b. */
  ghost predicate LexLess(a: string, b: string) {
    exists k :: 0 <= k <= |a| && k <= |b| && a[..k] == b[..k] &&
      ((k == |a| && k < |b|) || (k < |a| && k < |b| && a[k] < b[k]))
  }

  /** The float branch of CompareTo: the difference rounded away from zero
      (math.Ceil when positive, math.Floor when negative). */
  function RoundedDifference(d: real): (r: int)
    ensures r > 0 <==> d > 0.0
    ensures r < 0 <==> d < 0.0
  {
    if d > 0.0 then -((-d).Floor)
    else if d == 0.0 then 0
    else d.Floor
  }

  /** BasicCompare.CompareTo(a): the receiver and the argument must have the
      same kind. Integers are subtracted in their own kind (so the difference
      wraps in that width) and the result is converted to Go's 64-bit int;
      floats give the rounded difference; strings give strings.Compare. Any
      other kind, Go's plain uint included, is an "unknown type" panic. */
  function BasicCompareTo(v: Value, a: Value): (r: Result<int>)
    ensures KindOf(v) != KindOf(a) ==> r == Err(KindMismatch(KindOf(v), KindOf(a)))
    ensures r.Ok? ==> KindOf(v) == KindOf(a)
    ensures r.Ok? <==> (KindOf(v) == KindOf(a) && KindOf(v) in
      {Int, Int8, Int16, Int32, Int64, Uint8, Uint16, Uint32, Uint64, Float32, Float64, String})
  {
    if KindOf(v) != KindOf(a) then Err(KindMismatch(KindOf(v), KindOf(a)))
    else match (v, a)
      case (IntV(k, x), IntV(_, y)) =>
        if k == Uint then Err(UnknownType) else Ok(Wrap(Int, Wrap(k, x - y)))
      case (FloatV(_, x), FloatV(_, y)) => Ok(RoundedDifference(x - y))
      case (StrV(s), StrV(t)) => Ok(StringCompare(s, t))
      case _ => Err(UnknownType)
  }

  /** Compare.CompareTo, whichever implementation BasicComparator chose. */
  function CompareTo(c: Comparator, a: Value, m: Methods): (r: Result<int>)
    ensures c.Own? ==> r == Ok(m.compareTo(c.recv, a))
    ensures c.Basic? ==> r == BasicCompareTo(c.recv, a)
  {
    match c
    case Own(v) => Ok(m.compareTo(v, a))
    case Basic(v) => BasicCompareTo(v, a)
  }

  /** BasicComparator(v) followed by CompareTo(w): the comparison the engine
      performs whenever it orders or matches two values. */
  function Order(v: Value, w: Value, m: Methods): (r: Result<int>)
    ensures r.Err? && !ImplementsCompare(v, m) ==> r.error in {UnknownType, KindMismatch(KindOf(v), KindOf(w))}
    ensures ImplementsCompare(v, m) ==> r == Ok(m.compareTo(v, w))
    ensures !ImplementsCompare(v, m) && BasicComparator(v, m).Ok? ==> r == BasicCompareTo(v, w)
  {
    match BasicComparator(v, m)
    case Err(e) => Err(e)
    case Ok(c) => CompareTo(c, w, m)
  }

  // ---------------------------------------------------------------------
  // Properties of CompareTo

  /** Swapping the operands of strings.Compare negates the result. */
  lemma {:induction false} StringCompareAntisymmetric(a: string, b: string)
    ensures StringCompare(a, b) == -StringCompare(b, a)
  {
    if |a| > 0 && |b| > 0 && a[0] == b[0] {
      StringCompareAntisymmetric(a[1..], b[1..]);
    }
  }

  /** strings.Compare gives -1 exactly when the receiver comes first in
      lexicographic order. */
  lemma StringCompareIsLexicographic(a: string, b: string)
    ensures StringCompare(a, b) == -1 <==> LexLess(a, b)
  {
    if StringCompare(a, b) == -1 {
      LessHasWitness(a, b);
    }
    if LexLess(a, b) {
      var k :| 0 <= k <= |a| && k <= |b| && a[..k] == b[..k] &&
        ((k == |a| && k < |b|) || (k < |a| && k < |b| && a[k] < b[k]));
      WitnessGivesLess(a, b, k);
    }
  }

  lemma {:induction false} LessHasWitness(a: string, b: string)
    requires StringCompare(a, b) == -1
    ensures LexLess(a, b)
  {
    if |a| == 0 {
      assert a[..0] == b[..0];
    } else if a[0] < b[0] {
      assert a[..0] == b[..0];
    } else {
      LessHasWitness(a[1..], b[1..]);
      var k :| 0 <= k <= |a[1..]| && k <= |b[1..]| && a[1..][..k] == b[1..][..k] &&
        ((k == |a[1..]| && k < |b[1..]|) || (k < |a[1..]| && k < |b[1..]| && a[1..][k] < b[1..][k]));
      assert a[..k + 1] == [a[0]] + a[1..][..k] == [b[0]] + b[1..][..k] == b[..k + 1];
      assert (k + 1 == |a| && k + 1 < |b|) || (k + 1 < |a| && k + 1 < |b| && a[k + 1] < b[k + 1]);
    }
  }

  lemma {:induction false} WitnessGivesLess(a: string, b: string, k: nat)
    requires k <= |a| && k <= |b| && a[..k] == b[..k]
    requires (k == |a| && k < |b|) || (k < |a| && k < |b| && a[k] < b[k])
    ensures StringCompare(a, b) == -1
  {
    if k > 0 {
      assert a[0] == a[..k][0] == b[..k][0] == b[0];
      assert a[1..][..k - 1] == a[..k][1..] == b[..k][1..] == b[1..][..k - 1];
      WitnessGivesLess(a[1..], b[1..], k - 1);
    }
  }

  /** Comparing a value with itself gives 0 for every kind BasicCompare
      handles. */
  lemma CompareToSelfIsZero(v: Value)
    requires KindOf(v) in
      {Int, Int8, Int16, Int32, Int64, Uint8, Uint16, Uint32, Uint64, Float32, Float64, String}
    ensures BasicCompareTo(v, v) == Ok(0)
  {
    if v.IntV? {
      assert Wrap(v.ikind, 0) == 0 by { WrapInRange(v.ikind, 0); }
      WrapInRange(Int, 0);
    }
  }

  /** The engine's comparison refuses operands of different kinds, whatever
      their values, unless the receiver's type brings its own CompareTo: a
      listed kind panics on the mismatch, any other on the unknown type. */
  lemma OrderKindMismatch(v: Value, w: Value, m: Methods)
    requires !ImplementsCompare(v, m) && KindOf(v) != KindOf(w)
    ensures Order(v, w, m).Err?
    ensures BasicComparator(v, m).Ok? ==> Order(v, w, m).error == KindMismatch(KindOf(v), KindOf(w))
    ensures BasicComparator(v, m).Err? ==> Order(v, w, m).error == UnknownType
  {
  }

  /** For an integer kind the result is the difference truncated to the
      operands' width, then read as a 64-bit int. Narrow kinds (up to 32 bits,
      and the signed 64-bit ones) keep that truncated difference unchanged, so
      unsigned narrow results are never negative; only uint64 can turn
      negative in the conversion. */
  lemma IntCompareIsWrappedDifference(k: IntKind, x: int, y: int)
    requires k != Uint
    ensures BasicCompareTo(IntV(k, x), IntV(k, y)).Ok?
    ensures k != Uint64 ==> BasicCompareTo(IntV(k, x), IntV(k, y)).value == Wrap(k, x - y)
    ensures k in {Uint8, Uint16, Uint32} ==> BasicCompareTo(IntV(k, x), IntV(k, y)).value >= 0
  {
    var w := Wrap(k, x - y);
    assert BasicCompareTo(IntV(k, x), IntV(k, y)) == Ok(Wrap(Int, w));
    if k != Uint64 {
      NarrowFitsInt(k, w);
      WrapInRange(Int, w);
    }
  }

  /** For in-range integers of one kind, CompareTo is 0 exactly when the two
      are equal, whichever way the difference wrapped. */
  lemma IntCompareZeroIffEqual(k: IntKind, x: int, y: int)
    requires k != Uint && InRange(k, x) && InRange(k, y)
    ensures BasicCompareTo(IntV(k, x), IntV(k, y)) == Ok(0) <==> x == y
  {
    var w := Wrap(k, x - y);
    assert BasicCompareTo(IntV(k, x), IntV(k, y)) == Ok(Wrap(Int, w));
    if x == y {
      WrapInRange(k, 0);
      WrapInRange(Int, 0);
    }
    if k == Uint64 {
      if w == 0 {
        WrapZeroMeansEqual(k, x, y);
      } else {
        NonzeroUint64StaysNonzero(w);
      }
    } else {
      NarrowFitsInt(k, w);
      WrapInRange(Int, w);
      if w == 0 {
        WrapZeroMeansEqual(k, x, y);
      }
    }
  }

  /** Two in-range integers of one kind whose difference wraps to 0 are
      equal. */
  lemma WrapZeroMeansEqual(k: IntKind, x: int, y: int)
    requires InRange(k, x) && InRange(k, y) && Wrap(k, x - y) == 0
    ensures x == y
  {
    assert (0 - (x - y)) % Modulus(k) == 0;
    NegatedMultiple(k, x - y);
    CongruentInRangeEqual(k, x, y);
  }

  /** Converting a non-zero uint64 to int never gives 0: it is either the
      same number or that number minus 2^64. */
  lemma NonzeroUint64StaysNonzero(w: int)
    requires 0 < w < 0x1_0000_0000_0000_0000
    ensures Wrap(Int, w) != 0
  {
    if w < 0x8000_0000_0000_0000 {
      WrapInRange(Int, w);
    } else {
      WrapInRange(Int, w - 0x1_0000_0000_0000_0000);
      WrapCongruent(Int, w, w - 0x1_0000_0000_0000_0000);
    }
  }

  /** -d is a multiple of a kind's modulus exactly when d is. */
  lemma NegatedMultiple(k: IntKind, d: int)
    requires (-d) % Modulus(k) == 0
    ensures d % Modulus(k) == 0
  {
    ModSum3(k, 0, 0, d);
  }

  /** Go's int and int64: when the true difference fits in 64 bits the result
      is that difference, so its sign orders the operands. */
  lemma WideCompareIsDifference(k: IntKind, x: int, y: int)
    requires k == Int || k == Int64
    requires InRange(Int, x - y)
    ensures BasicCompareTo(IntV(k, x), IntV(k, y)) == Ok(x - y)
  {
    WrapInRange(k, x - y);
    WrapInRange(Int, x - y);
  }

  /** uint64: the difference wraps to 64 bits and is read back as a signed
      int, which restores the true difference whenever it fits in int, that
      is, whenever the operands differ by less than 2^63. */
  lemma Uint64CompareIsDifference(x: int, y: int)
    requires InRange(Int, x - y)
    ensures BasicCompareTo(IntV(Uint64, x), IntV(Uint64, y)) == Ok(x - y)
  {
    var w := Wrap(Uint64, x - y);
    assert BasicCompareTo(IntV(Uint64, x), IntV(Uint64, y)) == Ok(Wrap(Int, w));
    WrapCongruent(Int, w, x - y);
    WrapInRange(Int, x - y);
  }

  /** Floats: the sign of the result is the sign of the difference. */
  lemma FloatCompareSign(k: FloatKind, x: real, y: real)
    ensures BasicCompareTo(FloatV(k, x), FloatV(k, y)).Ok?
    ensures BasicCompareTo(FloatV(k, x), FloatV(k, y)).value > 0 <==> x > y
    ensures BasicCompareTo(FloatV(k, x), FloatV(k, y)).value < 0 <==> x < y
  {
  }

  /** uint8 1 compared with uint8 2 gives 255, not a negative number. */
  lemma Uint8CompareWraps()
    ensures BasicCompareTo(IntV(Uint8, 1), IntV(Uint8, 2)) == Ok(255)
  {
    assert Wrap(Uint8, 1 - 2) == 255;
    WrapInRange(Int, 255);
  }

  /** int8 -128 compared with int8 1 gives 127: the difference overflows. */
  lemma Int8CompareOverflows()
    ensures BasicCompareTo(IntV(Int8, -128), IntV(Int8, 1)) == Ok(127)
  {
    assert Wrap(Int8, -128 - 1) == 127;
    WrapInRange(Int, 127);
  }

  /** int32, plain uint and bool receivers without their own CompareTo are
      refused before the other operand is looked at, even when both operands
      are the same value; a struct with its own CompareTo is compared by it
      whatever its kind. */
  lemma OrderRefusesUnlisted(v: Value, w: Value, m: Methods)
    ensures !ImplementsCompare(v, m) && KindOf(v) in {Int32, Uint, Bool} ==>
      Order(v, w, m) == Err(UnknownType) && Order(v, v, m) == Err(UnknownType)
    ensures ImplementsCompare(v, m) && KindOf(v) !in ComparableKinds ==> Order(v, w, m).Ok?
  {
  }

  // ---------------------------------------------------------------------
  // The comparison the integer branch evidently intends

  /** The order BasicCompare.CompareTo means to give integers: the sign of
      the true difference, for every width. The engine's comparison otherwise
      unchanged. */
  function IntendedOrder(v: Value, w: Value, m: Methods): (r: Result<int>)
    ensures v.IntV? && w.IntV? && v.ikind == w.ikind && v.ikind != Uint ==>
      r.Ok? && (r.value > 0 <==> v.n > w.n) && (r.value < 0 <==> v.n < w.n)
    ensures !v.IntV? || !w.IntV? ==> r == Order(v, w, m)
  {
    if v.IntV? && w.IntV? && v.ikind == w.ikind && v.ikind != Uint then
      Ok(if v.n < w.n then -1 else if v.n == w.n then 0 else 1)
    else Order(v, w, m)
  }

  /** Where the code as written already orders integers correctly (Go ints
      whose difference fits in 64 bits) the intended order agrees with it in
      sign. */
  lemma IntendedOrderAgreesOnWide(k: IntKind, x: int, y: int, m: Methods)
    requires k == Int || k == Int64
    requires InRange(Int, x - y)
    ensures Order(IntV(k, x), IntV(k, y), m).Ok? && IntendedOrder(IntV(k, x), IntV(k, y), m).Ok?
    ensures Order(IntV(k, x), IntV(k, y), m).value > 0 <==> IntendedOrder(IntV(k, x), IntV(k, y), m).value > 0
    ensures Order(IntV(k, x), IntV(k, y), m).value < 0 <==> IntendedOrder(IntV(k, x), IntV(k, y), m).value < 0
  {
    WideCompareIsDifference(k, x, y);
  }
}
