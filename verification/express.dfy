/**
 * The contract checker: before any element is touched, a caller-supplied
 * expression is checked against the kinds the operation will pass to it and
 * the kinds it must return (checkExpress and checkExpressRARTO of array.go).
 * Only kinds are compared, never named types.
 */
module Express {
  import opened Kinds
  import opened Failures

  /** A unary boolean expression such as `func(ele int) bool`: the reflect.Type
      the checker sees, and the function the engine calls once it passed. */
  datatype Predicate = Predicate(t: GoType, test: Value -> bool)

  /** A unary expression producing a value, such as `func(u user) int`. */
  datatype Projection = Projection(t: GoType, apply: Value -> Value)

  /** A binary "less than" expression such as `func(a, b int) bool`. */
  datatype LessThan = LessThan(t: GoType, less: (Value, Value) -> bool)

  /** The first position at which two kind lists of equal length differ. */
  function FirstMismatch(want: seq<Kind>, got: seq<Kind>): (r: Option<nat>)
    requires |want| == |got|
    ensures r.None? <==> want == got
    ensures r.Some? ==> r.value < |want| && want[r.value] != got[r.value]
    ensures r.Some? ==> want[..r.value] == got[..r.value]
  {
    if want == [] then None
    else if want[0] != got[0] then Some(0)
    else
      match FirstMismatch(want[1..], got[1..])
      case None => None
      case Some(i) =>
        assert want[1..][..i] == want[1..i + 1] && got[1..][..i] == got[1..i + 1];
        Some(i + 1)
  }

  /** checkExpress(exp, in, out): the expression must be a function whose
      parameter kinds are `ins`; when `outs` is given (a non-nil slice), its
      result kinds must be `outs` too. The failure reported is the first check
      that fails, in the order: kind, parameter count, parameters left to right,
      result count, results left to right. */
  function CheckExpress(exp: GoType, ins: seq<Kind>, outs: Option<seq<Kind>>): (r: Outcome)
    ensures r.Pass? <==>
      exp.kind == Func && exp.params == ins && (outs.Some? ==> exp.results == outs.value)
    ensures exp.kind != Func ==> r == Fail(NotAFunc)
    ensures exp.kind == Func && |exp.params| != |ins| ==> r == Fail(ParamCount(|ins|))
    ensures r.Fail? && r.error.ParamKind? ==>
      var i := r.error.param;
      i < |ins| == |exp.params| && exp.params[..i] == ins[..i] && exp.params[i] != ins[i]
    ensures r.Fail? && (r.error.ResultCount? || r.error.ResultKind?) ==>
      exp.kind == Func && exp.params == ins && outs.Some?
    ensures r.Fail? && r.error.ResultKind? ==>
      var i := r.error.result;
      outs.Some? && i < |outs.value| == |exp.results| &&
      exp.results[..i] == outs.value[..i] && exp.results[i] != outs.value[i]
  {
    if exp.kind != Func then Fail(NotAFunc)
    else if |exp.params| != |ins| then Fail(ParamCount(|ins|))
    else match FirstMismatch(ins, exp.params)
      case Some(i) => Fail(ParamKind(i))
      case None =>
        if outs.None? then Pass
        else if |exp.results| != |outs.value| then Fail(ResultCount(|outs.value|))
        else match FirstMismatch(outs.value, exp.results)
          case Some(i) => Fail(ResultKind(i))
          case None => Pass
  }

  /** checkExpressRARTO(express, in): the expression must have a result, and
      its first result kind becomes the expected one; so it passes exactly for
      a function with parameter kinds `ins` and ONE result, whose kind it
      returns. A function with no result is refused before its parameters are
      looked at. */
  function CheckExpressRARTO(exp: GoType, ins: seq<Kind>): (r: Result<Kind>)
    ensures r.Ok? <==> exp.kind == Func && exp.params == ins && |exp.results| == 1
    ensures r.Ok? ==> r.value == exp.results[0]
    ensures exp.kind == Func && exp.results == [] ==> r == Err(NoResult)
    ensures exp.kind == Func && exp.params == ins && |exp.results| > 1 ==>
      r == Err(ResultCount(1))
  {
    if exp.kind != Func then Err(NotAFunc)
    else if |exp.results| == 0 then Err(NoResult)
    else
      match CheckExpress(exp, ins, Some([exp.results[0]]))
      case Fail(e) => Err(e)
      case Pass => Ok(exp.results[0])
  }
}
