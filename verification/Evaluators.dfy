/** `pkg/filter/evaluator.go` and the `evaluate_*.go` files: the ten rule evaluators
    and their negation. */
module Evaluators {
  import opened Common
  import opened GoValues

  datatype Evaluator =
    | Regexp(pattern: string)
    | Equal(ref: Value)
    | EqualFold(ref: Value)
    | HasPrefix(prefix: string)
    | HasSuffix(suffix: string)
    | Contains(part: string)
    | LT(bound: Float) | LTE(bound: Float) | GT(bound: Float) | GTE(bound: Float)
    | Not(inner: Evaluator)

  // ---------- normalisation ----------

  predicate IsNil(v: Value) { v.Nil? || (v.Reference? && v.target.None?) }

  /** Predeclared numbers become `float64`; types defined from them stay as they are. */
  function ConvertValue(w: World, v: Value): Value {
    match v
    case Integer(t, i) =>
      if t in {Predeclared(Int), Predeclared(Int8), Predeclared(Int16), Predeclared(Int32), Predeclared(Int64),
               Predeclared(Uint), Predeclared(Uint8), Predeclared(Uint16), Predeclared(Uint32), Predeclared(Uint64)}
      then Floating(Predeclared(Float64), w.float64(i)) else v
    case Floating(t, f) => if t == Predeclared(Float32) then Floating(Predeclared(Float64), f) else v
    case _ => v
  }

  predicate IsFloat64(v: Value) { v.Floating? && v.t.Plain? && v.t.kind == Float64 }

  function ConvertFloatValue(w: World, v: Value): Outcome<Float> {
    var c := ConvertValue(w, v);
    if IsFloat64(c) then Ok(c.f) else Err(BadRuleValue)
  }

  // ---------- Go's operators ----------

  predicate Below(a: Float, b: Float) {
    match (a, b)
    case (NaN, _) => false
    case (_, NaN) => false
    case (NegInf, _) => b != NegInf
    case (Finite(x), Finite(y)) => x < y
    case (Finite(_), _) => b == PosInf
    case (PosInf, _) => false
  }

  predicate SameFloat(a: Float, b: Float) { a == b && a != NaN }

  /** `a == b` on two interfaces. */
  function SameInterface(w: World, a: Value, b: Value): Outcome<bool> {
    if a.Nil? || b.Nil? then Ok(a.Nil? && b.Nil?)
    else if TypeOf(a) != TypeOf(b) then Ok(false)
    else if a.Floating? && b.Floating? then Ok(SameFloat(a.f, b.f))
    else if a.Integer? || a.Text? || a.Reference? then Ok(a == b)
    else w.compare(a, b)
  }

  predicate ContainsAt(s: string, part: string, k: nat) { k + |part| <= |s| && s[k..k + |part|] == part }

  // ---------- the evaluators ----------

  /** Kinds whose length the ordering evaluators compare. */
  function Length(v: Value): Option<nat> {
    match v
    case Text(_, s) => Some(|s|)
    case Collection(_, n, _) => Some(n)
    case _ => None
  }

  function Ordered(w: World, raw: Value, onFloat: Float -> bool, onLength: nat -> bool): bool {
    var v := ConvertValue(w, raw);
    if IsNil(v) then false
    else if IsFloat64(v) then onFloat(v.f)
    else if Length(v).Some? then onLength(Length(v).value)
    else false
  }

  function Evaluate(w: World, e: Evaluator, v: Value): Outcome<bool> {
    match e
    case Not(inner) =>
      (match Evaluate(w, inner, v)
       case Ok(b) => Ok(!b)
       case failed => failed)
    case Regexp(pattern) => Ok(IsString(v) && w.matches(pattern, v.s))
    case HasPrefix(p) => Ok(IsString(v) && p <= v.s)
    case HasSuffix(p) => Ok(IsString(v) && |p| <= |v.s| && v.s[|v.s| - |p|..] == p)
    case Contains(p) => Ok(IsString(v) && exists k | 0 <= k <= |v.s| :: ContainsAt(v.s, p, k))
    case Equal(ref) => EqualOrBothNil(w, ConvertValue(w, v), ref)
    case EqualFold(ref) =>
      var c := ConvertValue(w, v);
      if c.Text? && ref.Text? then Ok(w.fold(c.s, ref.s)) else EqualOrBothNil(w, c, ref)
    case LT(b) => Ok(Ordered(w, v, f => Below(f, b), n => n < w.truncate(b)))
    case LTE(b) => Ok(Ordered(w, v, f => Below(f, b) || SameFloat(f, b), n => n <= w.truncate(b)))
    case GT(b) => Ok(Ordered(w, v, f => Below(b, f), n => n > w.truncate(b)))
    case GTE(b) => Ok(Ordered(w, v, f => Below(b, f) || SameFloat(f, b), n => n >= w.truncate(b)))
  }

  /** `v.(string)` succeeds: the predeclared string type, not a type defined from it. */
  predicate IsString(v: Value) { v.Text? && v.t == Predeclared(String) }

  function EqualOrBothNil(w: World, v: Value, ref: Value): Outcome<bool> {
    match SameInterface(w, v, ref)
    case Ok(same) => Ok(same || (IsNil(v) && IsNil(ref)))
    case failed => failed
  }

  // ---------- what the orderings mean ----------

  /** What the orderings can say something about: a number that is not NaN, or a length. */
  predicate Comparable(w: World, v: Value, b: Float) {
    var c := ConvertValue(w, v);
    (IsFloat64(c) && c.f != NaN && b != NaN) || Length(c).Some?
  }

  /** "<" and ">=" answer opposite ways exactly on the values they can compare; on
      everything else (nil, NaN, other kinds) both answer no. */
  lemma LessComplement(w: World, v: Value, b: Float)
    ensures Comparable(w, v, b) <==> Evaluate(w, LT(b), v) != Evaluate(w, GTE(b), v)
    ensures !Comparable(w, v, b) ==> Evaluate(w, LT(b), v) == Evaluate(w, GTE(b), v) == Ok(false)
  {
  }

  /** The same of ">" and "<=". */
  lemma GreaterComplement(w: World, v: Value, b: Float)
    ensures Comparable(w, v, b) <==> Evaluate(w, GT(b), v) != Evaluate(w, LTE(b), v)
    ensures !Comparable(w, v, b) ==> Evaluate(w, GT(b), v) == Evaluate(w, LTE(b), v) == Ok(false)
  {
  }

  /** Rounding a real number toward zero. */
  function TowardZero(r: real): int {
    if r >= 0.0 then r.Floor else -((-r).Floor)
  }

  /** `int(f)` is defined by Go only when the result fits; then it rounds toward zero. */
  ghost predicate TruncatesTowardZero(w: World) {
    forall r: real :: -9223372036854775808 <= TowardZero(r) < 9223372036854775808 ==>
      w.truncate(Finite(r)) == TowardZero(r)
  }

  /** A length is compared with the reference cut down to an integer, not with the
      reference itself. "<" tells the truth about `length < reference` exactly when the
      length is not the integer part of a fractional positive reference. */
  lemma LengthBelowReference(w: World, v: Value, r: real)
    requires TruncatesTowardZero(w) && -9223372036854775808 <= TowardZero(r) < 9223372036854775808
    requires Length(v).Some?
    ensures Evaluate(w, LT(Finite(r)), v) == Ok(Length(v).value as real < r) <==>
            !(Length(v).value == r.Floor && r.Floor as real < r)
  {
  }
}
