/** What each of the ten rule types of `pkg/filter` answers, on every kind of value and
    reference, from the text of the rule to the verdict. */
module RuleMeanings {
  import opened Common
  import opened GoValues
  import opened Evaluators
  import opened Rules

  // ---------- which rules build ----------

  lemma {:induction false} LowerMeaning(s: string)
    ensures |ToLower(s)| == |s|
    ensures forall k :: 0 <= k < |s| ==>
              ToLower(s)[k] == if 'A' <= s[k] <= 'Z' then (s[k] as int + 32) as char else s[k]
  {
    if s != "" {
      LowerMeaning(s[1..]);
    }
  }

  /** The rule type in lower case and without its "!". */
  function BaseType(typ: string): string {
    var t := ToLower(typ);
    if |t| > 0 && t[0] == '!' then t[1..] else t
  }

  /** The value of a number, of a predeclared type or of a type defined from float64. */
  function NumberOf(w: World, v: Value): Option<Float> {
    match v
    case Integer(t, i) => if PredeclaredInteger(t) then Some(w.float64(i)) else None
    case Floating(t, f) => if t == Predeclared(Float32) || (t.Plain? && t.kind == Float64) then Some(f) else None
    case _ => None
  }

  predicate PlainString(v: Value) { v.Text? && v.t == Plain("string", String) }

  /** Exactly when a rule does not build, and with which error: its type is none of the ten;
      its reference is no string or no number where one is needed; its pattern does not
      compile. */
  lemma BuildsExactlyWhen(w: World, r: RuleSpec)
    ensures var t := BaseType(r.typ);
      && (Build(w, r) == Err(UnsupportedType) <==>
            t !in {"regexp", "==", "=", "^=", "=$", "~=", "<", "<=", ">", ">="})
      && (Build(w, r) == Err(BadRuleValue) <==>
            (t in {"regexp", "^=", "=$", "~="} && !PlainString(r.value)) ||
            (t in {"<", "<=", ">", ">="} && NumberOf(w, r.value).None?))
      && (Build(w, r) == Err(BadRegexp) <==> t == "regexp" && PlainString(r.value) && !w.compiles(r.value.s))
      && (Build(w, r).Ok? <==> Build(w, r) !in {Err(UnsupportedType), Err(BadRuleValue), Err(BadRegexp)})
  {
  }

  // ---------- equality ----------

  lemma EqualitiesBuild(w: World, field: string, ref: Value)
    ensures Build(w, RuleSpec(field, "==", ref)) == Ok(Equal(ConvertValue(w, ref)))
    ensures Build(w, RuleSpec(field, "=", ref)) == Ok(EqualFold(ConvertValue(w, ref)))
  {
    LowerOfSymbols();
    assert "="[1..] == "" && ToLower("=") == "=";
  }

  /** On texts "==" asks for the same type and the same bytes, "=" for texts that are equal up
      to case. */
  lemma EqualTexts(w: World, field: string, t: GoType, s: string, u: GoType, ref: string)
    ensures EvaluateFresh(w, RuleSpec(field, "==", Text(u, ref)), Text(t, s)) == Ok(t == u && s == ref)
    ensures EvaluateFresh(w, RuleSpec(field, "=", Text(u, ref)), Text(t, s)) == Ok(w.fold(s, ref))
  {
    EqualitiesBuild(w, field, Text(u, ref));
  }

  /** On numbers both ask for the same number; NaN equals nothing. Integers of all sizes,
      float32 and float64 are compared as float64. */
  lemma EqualNumbers(w: World, field: string, v: Value, f: Float, ref: Value, g: Float)
    requires NumberOf(w, v) == Some(f) && NumberOf(w, ref) == Some(g)
    requires v.Floating? ==> v.t in {Predeclared(Float32), Predeclared(Float64)}
    requires ref.Floating? ==> ref.t in {Predeclared(Float32), Predeclared(Float64)}
    ensures EvaluateFresh(w, RuleSpec(field, "==", ref), v) == Ok(f == g && f != NaN)
    ensures EvaluateFresh(w, RuleSpec(field, "=", ref), v) == Ok(f == g && f != NaN)
  {
    EqualitiesBuild(w, field, ref);
    assert ConvertValue(w, v) == Floating(Predeclared(Float64), f);
    assert ConvertValue(w, ref) == Floating(Predeclared(Float64), g);
  }

  predicate NilLike(v: Value) { v == Nil || (v.Reference? && v.target == None) }

  /** Nil and nil pointers of any types equal each other and nothing else. */
  lemma EqualNil(w: World, field: string, v: Value, ref: Value)
    requires (NilLike(v) || NilLike(ref)) && WellFormed(w, v) && WellFormed(w, ref)
    ensures EvaluateFresh(w, RuleSpec(field, "==", ref), v) == Ok(NilLike(v) && NilLike(ref))
    ensures EvaluateFresh(w, RuleSpec(field, "=", ref), v) == Ok(NilLike(v) && NilLike(ref))
  {
    EqualitiesBuild(w, field, ref);
  }

  /** The type a value is compared as. */
  function ComparedType(v: Value): GoType
    requires v != Nil
  {
    if PredeclaredInteger(TypeOf(v)) || TypeOf(v) == Predeclared(Float32) then Predeclared(Float64) else TypeOf(v)
  }

  /** Values of different types are never equal, except that "=" compares all texts. */
  lemma EqualMixedTypes(w: World, field: string, v: Value, ref: Value)
    requires !NilLike(v) && !NilLike(ref) && ComparedType(v) != ComparedType(ref)
    ensures EvaluateFresh(w, RuleSpec(field, "==", ref), v) == Ok(false)
    ensures !(v.Text? && ref.Text?) ==> EvaluateFresh(w, RuleSpec(field, "=", ref), v) == Ok(false)
  {
    EqualitiesBuild(w, field, ref);
  }

  /** Within one type: integers of a defined type by value, pointers by address, everything
      else as Go compares it, which panics where Go does. */
  lemma EqualSameType(w: World, field: string, v: Value, ref: Value)
    requires v != Nil && ref != Nil && TypeOf(v) == TypeOf(ref) == ComparedType(v)
    requires WellFormed(w, v) && WellFormed(w, ref)
    ensures v.Integer? && ref.Integer? ==> EvaluateFresh(w, RuleSpec(field, "==", ref), v) == Ok(v.i == ref.i)
    ensures v.Reference? ==> ref.Reference?
    ensures v.Reference? ==> EvaluateFresh(w, RuleSpec(field, "==", ref), v) == Ok(v.target == ref.target)
    ensures v.Record? || v.Collection? || v.Opaque? ==>
            EvaluateFresh(w, RuleSpec(field, "==", ref), v) == w.compare(v, ref)
    ensures !v.Text? ==>
            EvaluateFresh(w, RuleSpec(field, "=", ref), v) == EvaluateFresh(w, RuleSpec(field, "==", ref), v)
  {
    EqualitiesBuild(w, field, ref);
  }

  // ---------- orderings ----------

  /** Strictly smaller, with the infinities at both ends and NaN nowhere. */
  predicate Smaller(f: Float, g: Float) {
    && f != NaN && g != NaN && f != g
    && f != PosInf && g != NegInf
    && (f.Finite? && g.Finite? ==> f.r < g.r)
  }

  lemma BelowIsSmaller(f: Float, g: Float)
    ensures Below(f, g) <==> Smaller(f, g)
  {
  }

  lemma NumberConverts(w: World, v: Value)
    requires NumberOf(w, v).Some?
    ensures var c := ConvertValue(w, v); IsFloat64(c) && c.f == NumberOf(w, v).value && !IsNil(c)
  {
  }

  lemma NumbersLess(w: World, v: Value, f: Float, g: Float)
    requires NumberOf(w, v) == Some(f)
    ensures Evaluate(w, LT(g), v) == Ok(Smaller(f, g))
    ensures Evaluate(w, LTE(g), v) == Ok(Smaller(f, g) || (f == g && f != NaN))
  {
    NumberConverts(w, v);
    BelowIsSmaller(f, g);
  }

  lemma NumbersGreater(w: World, v: Value, f: Float, g: Float)
    requires NumberOf(w, v) == Some(f)
    ensures Evaluate(w, GT(g), v) == Ok(Smaller(g, f))
    ensures Evaluate(w, GTE(g), v) == Ok(Smaller(g, f) || (f == g && f != NaN))
  {
    NumberConverts(w, v);
    BelowIsSmaller(g, f);
  }

  lemma OrderingOfNumbers(w: World, field: string, v: Value, f: Float, ref: Value, g: Float)
    requires NumberOf(w, v) == Some(f) && NumberOf(w, ref) == Some(g)
    ensures EvaluateFresh(w, RuleSpec(field, "<", ref), v) == Ok(Smaller(f, g))
    ensures EvaluateFresh(w, RuleSpec(field, "<=", ref), v) == Ok(Smaller(f, g) || (f == g && f != NaN))
    ensures EvaluateFresh(w, RuleSpec(field, ">", ref), v) == Ok(Smaller(g, f))
    ensures EvaluateFresh(w, RuleSpec(field, ">=", ref), v) == Ok(Smaller(g, f) || (f == g && f != NaN))
  {
    ReferenceNumber(w, ref);
    OrderingsBuild(w, field, ref, g);
    NumbersLess(w, v, f, g);
    NumbersGreater(w, v, f, g);
  }

  lemma ReferenceNumber(w: World, ref: Value)
    ensures ConvertFloatValue(w, ref) ==
            if NumberOf(w, ref).Some? then Ok(NumberOf(w, ref).value) else Err(BadRuleValue)
  {
  }

  /** On a text, array, slice or map the orderings compare its length with the reference cut
      down to an integer. Each tells the truth about the reference itself except here: "<" and
      ">=" when the length is the integer part of a fractional positive reference, "<=" and
      ">" when nothing is compared with a reference between -1 and 0. */
  lemma OrderingOfLengths(w: World, field: string, v: Value, n: nat, ref: Value, r: real)
    requires v.Text? || v.Collection?
    requires n == (if v.Text? then |v.s| else v.len) && NumberOf(w, ref) == Some(Finite(r))
    requires TruncatesTowardZero(w) && -9223372036854775808 <= TowardZero(r) < 9223372036854775808
    ensures EvaluateFresh(w, RuleSpec(field, "<", ref), v) == Ok(n as real < r) <==> !(n as real < r < n as real + 1.0)
    ensures EvaluateFresh(w, RuleSpec(field, ">=", ref), v) == Ok(n as real >= r) <==>
            !(n as real < r < n as real + 1.0)
    ensures EvaluateFresh(w, RuleSpec(field, "<=", ref), v) == Ok(n as real <= r) <==> !(n == 0 && -1.0 < r < 0.0)
    ensures EvaluateFresh(w, RuleSpec(field, ">", ref), v) == Ok(n as real > r) <==> !(n == 0 && -1.0 < r < 0.0)
  {
    ReferenceNumber(w, ref);
    OrderingsBuild(w, field, ref, Finite(r));
    LengthsOrdered(w, v, n, r);
  }

  lemma LengthsOrdered(w: World, v: Value, n: nat, r: real)
    requires Length(v) == Some(n)
    requires TruncatesTowardZero(w) && -9223372036854775808 <= TowardZero(r) < 9223372036854775808
    ensures Evaluate(w, LT(Finite(r)), v) == Ok(n < TowardZero(r))
    ensures Evaluate(w, LTE(Finite(r)), v) == Ok(n <= TowardZero(r))
    ensures Evaluate(w, GT(Finite(r)), v) == Ok(n > TowardZero(r))
    ensures Evaluate(w, GTE(Finite(r)), v) == Ok(n >= TowardZero(r))
  {
  }

  lemma OthersNotLess(w: World, v: Value, g: Float)
    requires NumberOf(w, v).None? && !v.Text? && !v.Collection?
    ensures Evaluate(w, LT(g), v) == Evaluate(w, LTE(g), v) == Ok(false)
  {
    OthersConvert(w, v);
  }

  lemma OthersNotGreater(w: World, v: Value, g: Float)
    requires NumberOf(w, v).None? && !v.Text? && !v.Collection?
    ensures Evaluate(w, GT(g), v) == Evaluate(w, GTE(g), v) == Ok(false)
  {
    OthersConvert(w, v);
  }

  lemma OthersConvert(w: World, v: Value)
    requires NumberOf(w, v).None? && !v.Text? && !v.Collection?
    ensures !IsFloat64(ConvertValue(w, v)) && Length(ConvertValue(w, v)).None?
  {
  }

  /** Nil, structs, pointers and everything else without a number or a length: no match. */
  lemma OrderingOfOthers(w: World, field: string, symbol: string, v: Value, ref: Value)
    requires symbol in {"<", "<=", ">", ">="} && NumberOf(w, ref).Some?
    requires NumberOf(w, v).None? && !v.Text? && !v.Collection?
    ensures EvaluateFresh(w, RuleSpec(field, symbol, ref), v) == Ok(false)
  {
    ReferenceNumber(w, ref);
    OrderingsBuild(w, field, ref, NumberOf(w, ref).value);
    OthersNotLess(w, v, NumberOf(w, ref).value);
    OthersNotGreater(w, v, NumberOf(w, ref).value);
  }

  // ---------- texts ----------

  /** A pattern that compiles answers as it matches. */
  lemma RegexpRule(w: World, field: string, s: string, pattern: string)
    requires w.compiles(pattern)
    ensures var ref, v := Text(Predeclared(String), pattern), Text(Predeclared(String), s);
      EvaluateFresh(w, RuleSpec(field, "regexp", ref), v) == Ok(w.matches(pattern, s))
  {
    TextRulesBuild(w, field, pattern);
  }

  lemma LowerOfRegexp()
    ensures ToLower("regexp") == "regexp"
  {
    LowerMeaning("regexp");
    assert ToLower("regexp") == "regexp";
  }

  lemma TextRulesBuild(w: World, field: string, s: string)
    ensures var ref := Text(Predeclared(String), s);
      && Build(w, RuleSpec(field, "^=", ref)) == Ok(HasPrefix(s))
      && Build(w, RuleSpec(field, "=$", ref)) == Ok(HasSuffix(s))
      && Build(w, RuleSpec(field, "~=", ref)) == Ok(Contains(s))
      && (w.compiles(s) ==> Build(w, RuleSpec(field, "regexp", ref)) == Ok(Regexp(s)))
  {
    LowerOfSymbols();
    LowerOfRegexp();
  }

  /** The four text rules match nothing but predeclared strings. */
  lemma TextRulesOfOthers(w: World, field: string, s: string, v: Value)
    requires !PlainString(v)
    ensures var ref := Text(Predeclared(String), s);
      && EvaluateFresh(w, RuleSpec(field, "^=", ref), v) == Ok(false)
      && EvaluateFresh(w, RuleSpec(field, "=$", ref), v) == Ok(false)
      && EvaluateFresh(w, RuleSpec(field, "~=", ref), v) == Ok(false)
      && (w.compiles(s) ==> EvaluateFresh(w, RuleSpec(field, "regexp", ref), v) == Ok(false))
  {
    TextRulesBuild(w, field, s);
    assert !IsString(v);
  }
}
