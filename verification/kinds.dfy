/**
 * Runtime kinds and type-erased values.
 *
 * The collection engine never knows its element type statically: it asks
 * each value for its reflect.Kind and dispatches on it. This module gives the
 * kinds the engine distinguishes, the values that carry them, and the
 * fixed-width integer arithmetic (two's-complement truncation) that Go applies
 * to every integer kind.
 */
module Kinds {

  /** The part of Go's reflect.Kind that the engine inspects. Func, Slice and
      Interface occur only as the kinds of parameters or of caller-supplied
      functions; no Value has them. */
  datatype Kind =
    | Bool
    | Int | Int8 | Int16 | Int32 | Int64
    | Uint | Uint8 | Uint16 | Uint32 | Uint64
    | Float32 | Float64
    | String
    | Struct
    | Func
    | Slice
    | Interface

  predicate IsInteger(k: Kind) {
    k.Int? || k.Int8? || k.Int16? || k.Int32? || k.Int64? ||
    k.Uint? || k.Uint8? || k.Uint16? || k.Uint32? || k.Uint64?
  }

  predicate IsSigned(k: Kind) {
    k.Int? || k.Int8? || k.Int16? || k.Int32? || k.Int64?
  }

  predicate IsFloat(k: Kind) {
    k.Float32? || k.Float64?
  }

  type IntKind = k: Kind | IsInteger(k) witness Int
  type FloatKind = k: Kind | IsFloat(k) witness Float64

  /** 2^w for the width w of an integer kind; int and uint are 64 bits wide. */
  function Modulus(k: IntKind): (m: nat)
    ensures m >= 0x100 && m % 2 == 0
  {
    match k
    case Int8 | Uint8 => 0x100
    case Int16 | Uint16 => 0x1_0000
    case Int32 | Uint32 => 0x1_0000_0000
    case Int | Int64 | Uint | Uint64 => 0x1_0000_0000_0000_0000
  }

  function MinOf(k: IntKind): int {
    if IsSigned(k) then -(Modulus(k) / 2) else 0
  }

  function MaxOf(k: IntKind): int {
    if IsSigned(k) then Modulus(k) / 2 - 1 else Modulus(k) - 1
  }

  predicate InRange(k: IntKind, n: int) {
    MinOf(k) <= n <= MaxOf(k)
  }

  /** The value Go stores when the mathematical result n is computed in kind k:
      n truncated to the kind's width and read back as signed or unsigned. */
  function Wrap(k: IntKind, n: int): (r: int)
    ensures InRange(k, r)
    ensures (r - n) % Modulus(k) == 0
  {
    var m := Modulus(k);
    if IsSigned(k) then (n + m / 2) % m - m / 2 else n % m
  }

  /** Two numbers in the range of one kind that are congruent modulo its
      modulus are equal: Wrap is determined by its two postconditions. */
  lemma {:induction false} CongruentInRangeEqual(k: IntKind, a: int, b: int)
    requires InRange(k, a) && InRange(k, b)
    requires (a - b) % Modulus(k) == 0
    ensures a == b
  {
    ModulusCases(k);
  }

  /** Each modulus is one of four constants; knowing which keeps the
      arithmetic modulo it linear. */
  lemma ModulusCases(k: IntKind)
    ensures Modulus(k) == 0x100 || Modulus(k) == 0x1_0000 ||
            Modulus(k) == 0x1_0000_0000 || Modulus(k) == 0x1_0000_0000_0000_0000
  {
  }

  /** Wrap leaves a number that already fits the kind alone. */
  lemma WrapInRange(k: IntKind, n: int)
    requires InRange(k, n)
    ensures Wrap(k, n) == n
  {
    CongruentInRangeEqual(k, Wrap(k, n), n);
  }

  /** A number that fits a kind narrower than 64 bits also fits Go's int. */
  lemma NarrowFitsInt(k: IntKind, n: int)
    requires k != Uint64 && k != Uint && InRange(k, n)
    ensures InRange(Int, n)
  {
  }

  /** Wrapping depends only on the residue modulo the width. */
  lemma WrapCongruent(k: IntKind, a: int, b: int)
    requires (a - b) % Modulus(k) == 0
    ensures Wrap(k, a) == Wrap(k, b)
  {
    var m, ra, rb := Modulus(k), Wrap(k, a), Wrap(k, b);
    assert (ra - rb) % m == 0 by {
      assert (ra - a) % m == 0 && (rb - b) % m == 0;
      ModSum3(k, ra - a, a - b, b - rb);
    }
    CongruentInRangeEqual(k, ra, rb);
  }

  /** Three multiples of a kind's modulus add up to a multiple of it. */
  lemma ModSum3(k: IntKind, x: int, y: int, z: int)
    requires x % Modulus(k) == 0 && y % Modulus(k) == 0 && (-z) % Modulus(k) == 0
    ensures (x + y + z) % Modulus(k) == 0
  {
    ModulusCases(k);
    var m := Modulus(k);
    if m == 0x100 {
      MultiplesOf8Bits(x, y, z);
    } else if m == 0x1_0000 {
      MultiplesOf16Bits(x, y, z);
    } else if m == 0x1_0000_0000 {
      MultiplesOf32Bits(x, y, z);
    } else {
      MultiplesOf64Bits(x, y, z);
    }
  }

  // ModSum3 for each literal modulus, where the arithmetic stays linear.

  lemma MultiplesOf8Bits(x: int, y: int, z: int)
    requires x % 0x100 == 0 && y % 0x100 == 0 && (-z) % 0x100 == 0
    ensures (x + y + z) % 0x100 == 0
  {
  }

  lemma MultiplesOf16Bits(x: int, y: int, z: int)
    requires x % 0x1_0000 == 0 && y % 0x1_0000 == 0 && (-z) % 0x1_0000 == 0
    ensures (x + y + z) % 0x1_0000 == 0
  {
  }

  lemma MultiplesOf32Bits(x: int, y: int, z: int)
    requires x % 0x1_0000_0000 == 0 && y % 0x1_0000_0000 == 0 && (-z) % 0x1_0000_0000 == 0
    ensures (x + y + z) % 0x1_0000_0000 == 0
  {
  }

  lemma MultiplesOf64Bits(x: int, y: int, z: int)
    requires x % 0x1_0000_0000_0000_0000 == 0 && y % 0x1_0000_0000_0000_0000 == 0
    requires (-z) % 0x1_0000_0000_0000_0000 == 0
    ensures (x + y + z) % 0x1_0000_0000_0000_0000 == 0
  {
  }

  /** A type-erased value: what reflect.Value.Interface() returns. Struct
      values carry their type's name, which decides whether the type provides a
      CompareTo or Equals method. */
  datatype Value =
    | BoolV(b: bool)
    | IntV(ikind: IntKind, n: int)
    | FloatV(fkind: FloatKind, x: real)
    | StrV(s: string)
    | StructV(typeName: string, fields: seq<Value>)

  function KindOf(v: Value): Kind {
    match v
    case BoolV(_) => Bool
    case IntV(k, _) => k
    case FloatV(k, _) => k
    case StrV(_) => String
    case StructV(_, _) => Struct
  }

  /** An integer value fits its kind. */
  predicate WellFormed(v: Value) {
    v.IntV? ==> InRange(v.ikind, v.n)
  }

  /** The caller's view of the values handled: all have kind k and fit it. */
  predicate AllOfKind(s: seq<Value>, k: Kind) {
    forall i :: 0 <= i < |s| ==> KindOf(s[i]) == k && WellFormed(s[i])
  }

  /** The reflect.Type of a caller-supplied expression: its kind and, when it
      is a function, the kinds of its parameters and of its results. */
  datatype GoType = GoType(kind: Kind, params: seq<Kind>, results: seq<Kind>)
}

/** Panics of the source, as values. */
module Failures {
  import opened Kinds

  datatype Error =
    | NilExpress                          // "express is null", or a nil express passed to reflection
    | NotAFunc                            // "express is not a func express"
    | ParamCount(wantParams: nat)               // "lambda express parameter count must be %d"
    | ParamKind(param: nat)               // "the %d'th parameter Type must be ..."
    | ResultCount(wantResults: nat)              // "return Types count must be %d"
    | ResultKind(result: nat)              // "the %d'th return Type must be ..."
    | NoResult                            // "lambda express must has only one return-value."
    | NotSupported(kind: Kind)            // Adder: "not support type ..."
    | AddMismatch(want: Kind, got: Kind)  // _int.Add / _float.Add: "not support %s add %s"
    | UnknownType                         // "unknown type"
    | KindMismatch(left: Kind, right: Kind) // CompareTo: "%s is not %s"
    | EmptyArray                          // Find: "empty array"
    | NotFound                            // Find: "not found"
    | OutOfRange(index: int)              // Index, and reflection's index panics
    | NotStringArray                      // Join: "the array is not string array"
    | TypeAssertion                       // a failed .(string) assertion
    | ElementType(given: Kind, expected: Kind)  // Append: "element type[%s] is not %s."
    | ZeroValue                           // Interface() on the zero reflect.Value

  datatype Result<+T> = Ok(value: T) | Err(error: Error)

  datatype Outcome = Pass | Fail(error: Error)

  datatype Option<+T> = None | Some(value: T)
}
