/** `pkg/filter/rule.go`: a rule and its memoised evaluator. */
module Rules {
  import opened Common
  import opened GoValues
  import opened Evaluators

  /** The part of a rule its author writes. */
  datatype RuleSpec = RuleSpec(field: string, typ: string, value: Value)

  function LowerChar(c: char): char { if 'A' <= c <= 'Z' then 'a' + (c - 'A') else c }

  /** `strings.ToLower`; no letter outside ASCII has a lower case that occurs in a rule type. */
  function ToLower(s: string): string {
    if s == "" then "" else [LowerChar(s[0])] + ToLower(s[1..])
  }

  function StringArgument(v: Value): Outcome<string> {
    if IsString(v) then Ok(v.s) else Err(BadRuleValue)
  }

  function BaseEvaluator(w: World, t: string, value: Value): Outcome<Evaluator> {
    match t
    case "==" => Ok(Equal(ConvertValue(w, value)))
    case "=" => Ok(EqualFold(ConvertValue(w, value)))
    case "regexp" =>
      (match StringArgument(value)
       case Ok(s) => if w.compiles(s) then Ok(Regexp(s)) else Err(BadRegexp)
       case Err(e) => Err(e)
       case Panic(p) => Panic(p))
    case "^=" => WithString(value, s => HasPrefix(s))
    case "=$" => WithString(value, s => HasSuffix(s))
    case "~=" => WithString(value, s => Contains(s))
    case "<" => WithFloat(w, value, f => LT(f))
    case "<=" => WithFloat(w, value, f => LTE(f))
    case ">" => WithFloat(w, value, f => GT(f))
    case ">=" => WithFloat(w, value, f => GTE(f))
    case _ => Err(UnsupportedType)
  }

  function WithString(value: Value, make: string -> Evaluator): Outcome<Evaluator> {
    if IsString(value) then Ok(make(value.s)) else Err(BadRuleValue)
  }

  function WithFloat(w: World, value: Value, make: Float -> Evaluator): Outcome<Evaluator> {
    match ConvertFloatValue(w, value)
    case Ok(f) => Ok(make(f))
    case Err(e) => Err(e)
    case Panic(p) => Panic(p)
  }

  /** Builds the evaluator afresh from what the author wrote. */
  function Build(w: World, r: RuleSpec): Outcome<Evaluator> {
    var t := ToLower(r.typ);
    if "!" <= t then
      match BaseEvaluator(w, t[1..], r.value)
      case Ok(e) => Ok(Not(e))
      case failed => failed
    else BaseEvaluator(w, t, r.value)
  }

  /** The stateless meaning of `Rule.Evaluate`. */
  function EvaluateFresh(w: World, r: RuleSpec, v: Value): Outcome<bool> {
    match Build(w, r)
    case Ok(e) => Evaluate(w, e, v)
    case Err(e) => Err(e)
    case Panic(p) => Panic(p)
  }

  class Rule {
    const field: string
    const typ: string
    const value: Value
    var eval: Option<Evaluator>

    constructor (spec: RuleSpec)
      ensures Spec() == spec && eval == None
    {
      field, typ, value := spec.field, spec.typ, spec.value;
      eval := None;
    }

    function Spec(): RuleSpec { RuleSpec(field, typ, value) }

    /** The memo, if set, is what building afresh would give. */
    ghost predicate Sound(w: World)
      reads this
    {
      eval.Some? ==> Build(w, Spec()) == Ok(eval.value)
    }

    /** Always the stateless answer; a failed build leaves the memo unset. */
    method EvaluateRule(w: World, v: Value) returns (r: Outcome<bool>)
      requires Sound(w)
      modifies this
      ensures r == EvaluateFresh(w, Spec(), v)
      ensures Sound(w) && (eval.Some? <==> Build(w, Spec()).Ok?)
    {
      if eval.None? {
        var built := Build(w, Spec());
        if !built.Ok? {
          return if built.Err? then Err(built.error) else Panic(built.fault);
        }
        eval := Some(built.value);
      }
      r := Evaluate(w, eval.value, v);
    }
  }

  // ---------- negation ----------

  lemma {:induction false} LowerOfNegated(s: string)
    ensures ToLower("!" + s) == "!" + ToLower(s)
  {
    assert ("!" + s)[1..] == s;
  }

  /** A rule type that does not itself begin with "!" and its "!" form: the negated rule
      builds exactly when the plain one does, with the same error otherwise, and answers
      the opposite on every value. */
  lemma NegationIsOpposite(w: World, r: RuleSpec, v: Value)
    requires !("!" <= r.typ)
    ensures var negated := EvaluateFresh(w, r.(typ := "!" + r.typ), v);
      match EvaluateFresh(w, r, v)
      case Ok(b) => negated == Ok(!b)
      case failed => negated == failed
  {
  }

  /** Two marks do not cancel: such a rule never builds. */
  lemma DoubleNegationRejected(w: World, r: RuleSpec)
    ensures Build(w, r.(typ := "!!" + r.typ)) == Err(UnsupportedType)
  {
    LowerOfNegated("!" + r.typ);
    LowerOfNegated(r.typ);
    assert "!!" + r.typ == "!" + ("!" + r.typ);
    var rest := "!" + ToLower(r.typ);
    assert ("!" + rest)[1..] == rest && rest[0] == '!';
    assert BaseEvaluator(w, rest, r.value) == Err(UnsupportedType);
  }

  // ---------- what the rule types mean ----------

  predicate PredeclaredInteger(t: GoType) {
    t in {Predeclared(Int), Predeclared(Int8), Predeclared(Int16), Predeclared(Int32), Predeclared(Int64),
          Predeclared(Uint), Predeclared(Uint8), Predeclared(Uint16), Predeclared(Uint32), Predeclared(Uint64)}
  }

  /** The integer is one float64 represents without rounding. */
  ghost predicate Exact(w: World, t: GoType, i: int) {
    PredeclaredInteger(t) && w.float64(i) == Finite(i as real)
  }

  /** Which evaluator the four orderings build. */
  lemma OrderingsBuild(w: World, field: string, value: Value, f: Float)
    requires ConvertFloatValue(w, value) == Ok(f)
    ensures Build(w, RuleSpec(field, "<", value)) == Ok(LT(f)) && Build(w, RuleSpec(field, "<=", value)) == Ok(LTE(f))
    ensures Build(w, RuleSpec(field, ">", value)) == Ok(GT(f)) && Build(w, RuleSpec(field, ">=", value)) == Ok(GTE(f))
  {
    LowerOfSymbols();
  }

  lemma ExactConverts(w: World, t: GoType, i: int)
    requires Exact(w, t, i)
    ensures ConvertValue(w, Integer(t, i)) == Floating(Predeclared(Float64), Finite(i as real))
  {
  }

  /** On integers that convert exactly, of whatever predeclared integer types, the
      orderings and "==" are those of the integers. */
  lemma IntegerLess(w: World, field: string, t: GoType, i: int, u: GoType, ref: int)
    requires Exact(w, t, i) && Exact(w, u, ref)
    ensures EvaluateFresh(w, RuleSpec(field, "<", Integer(u, ref)), Integer(t, i)) == Ok(i < ref)
    ensures EvaluateFresh(w, RuleSpec(field, "<=", Integer(u, ref)), Integer(t, i)) == Ok(i <= ref)
  {
    ExactConverts(w, t, i);
    ExactConverts(w, u, ref);
    OrderingsBuild(w, field, Integer(u, ref), Finite(ref as real));
  }

  lemma IntegerGreater(w: World, field: string, t: GoType, i: int, u: GoType, ref: int)
    requires Exact(w, t, i) && Exact(w, u, ref)
    ensures EvaluateFresh(w, RuleSpec(field, ">", Integer(u, ref)), Integer(t, i)) == Ok(i > ref)
    ensures EvaluateFresh(w, RuleSpec(field, ">=", Integer(u, ref)), Integer(t, i)) == Ok(i >= ref)
  {
    ExactConverts(w, t, i);
    ExactConverts(w, u, ref);
    OrderingsBuild(w, field, Integer(u, ref), Finite(ref as real));
  }

  lemma IntegerEqual(w: World, field: string, t: GoType, i: int, u: GoType, ref: int)
    requires Exact(w, t, i) && Exact(w, u, ref)
    ensures EvaluateFresh(w, RuleSpec(field, "==", Integer(u, ref)), Integer(t, i)) == Ok(i == ref)
  {
    LowerOfSymbols();
  }

  lemma LowerOfSymbols()
    ensures ToLower("<") == "<" && ToLower("<=") == "<=" && ToLower(">") == ">" && ToLower(">=") == ">="
    ensures ToLower("==") == "==" && ToLower("^=") == "^=" && ToLower("=$") == "=$" && ToLower("~=") == "~="
  {
    assert "<"[1..] == "" && ">"[1..] == "" && "="[1..] == "" && "$"[1..] == "";
    assert ToLower("=") == "=" && ToLower("$") == "$";
    assert "<="[1..] == "=" && ">="[1..] == "=" && "=="[1..] == "=";
    assert "^="[1..] == "=" && "=$"[1..] == "$" && "~="[1..] == "=";
  }

  /** The string rules: the value begins with, ends with, or contains the reference. */
  lemma PrefixRule(w: World, field: string, s: string, ref: string)
    ensures EvaluateFresh(w, RuleSpec(field, "^=", Text(Predeclared(String), ref)), Text(Predeclared(String), s)) ==
            Ok(exists tail :: s == ref + tail)
  {
    LowerOfSymbols();
    if ref <= s {
      assert s == ref + s[|ref|..];
    }
  }

  lemma SuffixRule(w: World, field: string, s: string, ref: string)
    ensures EvaluateFresh(w, RuleSpec(field, "=$", Text(Predeclared(String), ref)), Text(Predeclared(String), s)) ==
            Ok(exists head :: s == head + ref)
  {
    LowerOfSymbols();
    if |ref| <= |s| && s[|s| - |ref|..] == ref {
      assert s == s[..|s| - |ref|] + ref;
    }
    if head :| s == head + ref {
      assert s[|s| - |ref|..] == ref;
    }
  }

  lemma ContainsRule(w: World, field: string, s: string, ref: string)
    ensures EvaluateFresh(w, RuleSpec(field, "~=", Text(Predeclared(String), ref)), Text(Predeclared(String), s)) ==
            Ok(exists head, tail :: s == head + ref + tail)
  {
    LowerOfSymbols();
    if k: nat :| k <= |s| && ContainsAt(s, ref, k) {
      assert s == s[..k] + ref + s[k + |ref|..];
    }
    if head, tail :| s == head + ref + tail {
      assert ContainsAt(s, ref, |head|);
    }
  }
}
