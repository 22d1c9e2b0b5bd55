/**
 * The numeric accumulator of Adder.go. Adder picks an accumulator for a
 * kind; the accumulator starts at that kind's zero and adds values of exactly
 * that kind with the kind's own arithmetic, which for integers wraps around
 * in the kind's width.
 */
module Adders {
  import opened Kinds
  import opened Failures
  import Comparators

  /** The support list of Adder, as written: Uint32 appears twice and Int32
      not at all. */
  const AdderKinds: seq<Kind> :=
    [Int, Uint8, Uint16, Uint32, Uint64, Int8, Int16, Uint32, Int64, Float32, Float64]

  /** Which accumulator Adder builds: `_int` or `_float`. */
  datatype Flavor = IntFlavor | FloatFlavor

  /** Adder's decision for a kind: float kinds get a `_float`, the other
      listed kinds an `_int`, and every other kind (Int32, plain uint, bool,
      string, struct, ...) is refused. */
  function AdderFlavor(k: Kind): (r: Result<Flavor>)
    ensures r.Ok? <==> k in {Int, Int8, Int16, Int64, Uint8, Uint16, Uint32, Uint64, Float32, Float64}
    ensures r.Ok? ==> (r.value == FloatFlavor <==> IsFloat(k))
    ensures r.Ok? ==> (r.value == IntFlavor <==> IsInteger(k))
    ensures r.Err? ==> r == Err(NotSupported(k))
  {
    if k in AdderKinds then
      if k == Float64 || k == Float32 then Ok(FloatFlavor) else Ok(IntFlavor)
    else Err(NotSupported(k))
  }

  /** The zero SetZero stores for a kind. */
  function Zero(k: Kind): (z: Value)
    requires IsInteger(k) || IsFloat(k)
    ensures KindOf(z) == k && WellFormed(z)
  {
    if IsFloat(k) then FloatV(k, 0.0) else IntV(k, 0)
  }

  /** One Add on a running total `acc` (an integer total of a kind other than
      plain uint, or a float total): the value must have the total's kind;
      integers add modulo the width, floats add exactly. */
  function Accumulate(acc: Value, x: Value): (r: Result<Value>)
    requires (acc.IntV? && acc.ikind != Uint) || acc.FloatV?
    ensures KindOf(x) != KindOf(acc) ==> r == Err(AddMismatch(KindOf(acc), KindOf(x)))
    ensures KindOf(x) == KindOf(acc) ==> r.Ok? && KindOf(r.value) == KindOf(acc) && WellFormed(r.value)
    ensures acc.IntV? && KindOf(x) == KindOf(acc) ==>
      ((r.value.n - (acc.n + x.n)) % Modulus(acc.ikind) == 0)
  {
    if KindOf(x) != KindOf(acc) then Err(AddMismatch(KindOf(acc), KindOf(x)))
    else match (acc, x)
      case (IntV(k, a), IntV(_, b)) => Ok(IntV(k, Wrap(k, a + b)))
      case (FloatV(k, a), FloatV(_, b)) => Ok(FloatV(k, a + b))
  }

  /** The integer kinds an `_int` can hold: those its SetZero and Add
      switch on, which are all integer kinds but plain uint. */
  type AccIntKind = k: Kind | IsInteger(k) && k != Uint witness Int

  /** `_int`: a running integer total of kind t. */
  class IntAccumulator {
    const t: AccIntKind
    var v: int

    ghost predicate Valid()
      reads this
    {
      InRange(t, v)
    }

    /** `&_int{t: t}`; Adder calls SetZero on it straight away. */
    constructor (t: AccIntKind)
      ensures this.t == t && Valid()
    {
      this.t := t;
      v := 0;
    }

    /** SetZero: the total becomes the zero of t. */
    method SetZero()
      requires Valid()
      modifies this
      ensures Valid() && v == 0
    {
      v := 0;
    }

    /** Value: the total, as a value of kind t; reading it changes nothing. */
    function Value(): (r: Kinds.Value)
      reads this
      ensures KindOf(r) == t && r.n == v
    {
      IntV(t, v)
    }

    /** Add: a value of another kind is a panic and leaves the total alone;
        otherwise the total becomes (total + value) wrapped to t's width. */
    method Add(value: Kinds.Value) returns (r: Outcome)
      requires Valid()
      modifies this
      ensures Valid()
      ensures KindOf(value) != t ==> r == Fail(AddMismatch(t, KindOf(value))) && v == old(v)
      ensures KindOf(value) == t ==> r == Pass && v == Wrap(t, old(v) + value.n)
      ensures Accumulate(old(Value()), value) == (if r.Pass? then Ok(Value()) else Err(r.error))
    {
      if KindOf(value) != t {
        return Fail(AddMismatch(t, KindOf(value)));
      }
      var sum := v;
      sum := Wrap(t, sum + value.n);
      v := sum;
      r := Pass;
    }
  }

  /** `_float`: a running float total of kind t. */
  class FloatAccumulator {
    const t: FloatKind
    var v: real

    /** `&_float{t: t}`; Adder calls SetZero on it straight away. */
    constructor (t: FloatKind)
      ensures this.t == t
    {
      this.t := t;
      v := 0.0;
    }

    method SetZero()
      modifies this
      ensures v == 0.0
    {
      v := 0.0;
    }

    function Value(): (r: Kinds.Value)
      reads this
      ensures KindOf(r) == t && r.x == v
    {
      FloatV(t, v)
    }

    method Add(value: Kinds.Value) returns (r: Outcome)
      modifies this
      ensures KindOf(value) != t ==> r == Fail(AddMismatch(t, KindOf(value))) && v == old(v)
      ensures KindOf(value) == t ==> r == Pass && v == old(v) + value.x
      ensures Accumulate(old(Value()), value) == (if r.Pass? then Ok(Value()) else Err(r.error))
    {
      if KindOf(value) != t {
        return Fail(AddMismatch(t, KindOf(value)));
      }
      var sum := v;
      sum := sum + value.x;
      v := sum;
      r := Pass;
    }
  }

  /** The Add interface: one of the two accumulators. */
  datatype Add = IntAdd(i: IntAccumulator) | FloatAdd(f: FloatAccumulator) {

    ghost function Repr(): set<object> {
      if IntAdd? then {i} else {f}
    }

    ghost predicate Valid()
      reads Repr()
    {
      IntAdd? ==> i.Valid()
    }

    function Value(): (r: Kinds.Value)
      reads Repr()
      ensures (r.IntV? && r.ikind != Uint) || r.FloatV?
      ensures Valid() ==> WellFormed(r)
    {
      match this
      case IntAdd(i) => i.Value()
      case FloatAdd(f) => f.Value()
    }
  
    function Kind(): Kind {
      if IntAdd? then i.t else f.t
    }

    /** Add through the interface: dispatches to the accumulator held. */
    method AddValue(x: Kinds.Value) returns (r: Outcome)
      requires Valid()
      modifies Repr()
      ensures Valid()
      ensures Accumulate(old(Value()), x) == (if r.Pass? then Ok(Value()) else Err(r.error))
    {
      match this
      case IntAdd(i) => r := i.Add(x);
      case FloatAdd(f) => r := f.Add(x);
    }
  }

  /** Adder(t): looks t up in the support list; a float kind gets a `_float`,
      any other listed kind an `_int`, both set to the zero of t. An unlisted
      kind is a "not support type" panic. */
  method Adder(t: Kind) returns (r: Result<Add>)
    ensures r.Ok? <==> AdderFlavor(t).Ok?
    ensures r.Err? ==> r == Err(NotSupported(t))
    ensures r.Ok? ==> fresh(r.value.Repr()) && r.value.Valid()
    ensures r.Ok? ==> (r.value.FloatAdd? <==> AdderFlavor(t) == Ok(FloatFlavor))
    ensures r.Ok? ==> r.value.Kind() == t && r.value.Value() == Zero(t)
  {
    var supported := Comparators.Contain(AdderKinds, t);
    if !supported {
      return Err(NotSupported(t));
    }
    if t == Float64 || t == Float32 {
      var f := new FloatAccumulator(t);
      f.SetZero();
      r := Ok(FloatAdd(f));
    } else {
      var i := new IntAccumulator(t);
      i.SetZero();
      r := Ok(IntAdd(i));
    }
  }
}
