/** What the filter means: how one object is judged, with and without a cache, and which
    window of the matching objects remains. */
module FilterSpec {
  import opened Common
  import opened GoValues
  import opened FieldCacher
  import opened FieldGetter
  import opened FieldPathProofs
  import opened Rules
  import opened AndOfOrs

  type Clauses = seq<seq<RuleSpec>>

  // ---------- one object, judged afresh ----------

  /** A missing field is no match; every other error is passed on. */
  function RuleOutcome(w: World, r: RuleSpec, value: Outcome<Value>): Outcome<bool> {
    match value
    case Ok(v) => EvaluateFresh(w, r, v)
    case Err(FieldNotFound) => Ok(false)
    case Err(e) => Err(e)
    case Panic(p) => Panic(p)
  }

  function EvalRule(w: World, tag: string, r: RuleSpec, obj: Value): Outcome<bool> {
    RuleOutcome(w, r, FieldValue(w, tag, obj, r.field))
  }

  /** How one object judges a rule. */
  function RuleJudge(w: World, tag: string, obj: Value): RuleSpec -> Outcome<bool> {
    r => EvalRule(w, tag, r, obj)
  }

  /** How a rule set judges an object. */
  function Judge(w: World, tag: string, rules: Clauses): Value -> Outcome<bool> {
    obj => EvalRules(RuleJudge(w, tag, obj), rules)
  }

  // ---------- one object, judged with a cache ----------

  /** A rule's outcome given the cache, and the cache afterwards. */
  type Step = (Cached, RuleSpec, Value) -> (Outcome<bool>, Cached)

  function CachedOutcome(w: World, tag: string, c: Cached, r: RuleSpec, obj: Value): (Outcome<bool>, Cached) {
    (RuleOutcome(w, r, CachedValue(w, tag, c, obj, r.field)), AfterValue(w, tag, c, obj, r.field))
  }

  function RuleStep(w: World, tag: string): Step { (c, r, obj) => CachedOutcome(w, tag, c, r, obj) }

  // ---------- a sequence of objects ----------

  /** The cache after the first `n` objects have been judged in turn. */
  function CacheAfter(step: Step, c: Cached, rules: Clauses, xs: seq<Value>, n: nat): Cached
    requires n <= |xs|
  {
    if n == 0 then c else RulesFrom(step, CacheAfter(step, c, rules, xs, n - 1), rules, xs[n - 1]).1
  }

  /** The verdict on each object, with the cache its predecessors left. */
  function Verdicts(step: Step, c: Cached, rules: Clauses, xs: seq<Value>): (vs: seq<Outcome<bool>>)
    ensures |vs| == |xs|
    ensures forall k {:trigger vs[k]} :: 0 <= k < |xs| ==>
              vs[k] == RulesFrom(step, CacheAfter(step, c, rules, xs, k), rules, xs[k]).0
  {
    seq(|xs|, k requires 0 <= k < |xs| => RulesFrom(step, CacheAfter(step, c, rules, xs, k), rules, xs[k]).0)
  }

  /** The verdict on each object, judged afresh. */
  function Judgements(f: Value -> Outcome<bool>, xs: seq<Value>): (vs: seq<Outcome<bool>>)
    ensures |vs| == |xs| && forall k :: 0 <= k < |xs| ==> vs[k] == f(xs[k])
  {
    seq(|xs|, k requires 0 <= k < |xs| => f(xs[k]))
  }

  ghost predicate Settled(vs: seq<Outcome<bool>>) { forall k :: 0 <= k < |vs| ==> vs[k].Ok? }

  /** The elements whose verdict is a match, in order. */
  function Kept(vs: seq<Outcome<bool>>, xs: seq<Value>): seq<Value>
    requires |vs| == |xs|
  {
    if xs == [] then []
    else
      var n := |xs| - 1;
      Kept(vs[..n], xs[..n]) + (if vs[n] == Ok(true) then [xs[n]] else [])
  }

  function Hits(f: Value -> Outcome<bool>, xs: seq<Value>): seq<Value> { Kept(Judgements(f, xs), xs) }

  /** All but the first `offset`, and of those at most `length`. */
  function Window<T>(hits: seq<T>, offset: nat, length: nat): seq<T> {
    if offset >= |hits| then []
    else if offset + length >= |hits| then hits[offset..]
    else hits[offset..offset + length]
  }

  // ---------- the cache makes no difference ----------

  /** The objects are of types the program is known to pass. */
  ghost predicate InProgram(w: World, xs: seq<Value>) {
    forall k :: 0 <= k < |xs| ==> xs[k].Nil? || TypeOf(xs[k]) in w.types
  }

  lemma CachedOutcomeTransparent(w: World, tag: string, c: Cached, r: RuleSpec, obj: Value)
    requires KeysDetermine(w, tag) && Consistent(w, tag, c) && (obj.Nil? || TypeOf(obj) in w.types)
    ensures CachedOutcome(w, tag, c, r, obj).0 == EvalRule(w, tag, r, obj)
    ensures Consistent(w, tag, CachedOutcome(w, tag, c, r, obj).1)
  {
    if r.field != "" && !obj.Nil? {
      ConsistentHit(w, tag, c, TypeOf(obj), r.field);
      ConsistentAfter(w, tag, c, TypeOf(obj), r.field);
    }
  }

  lemma ObjectTransparent(w: World, tag: string, c: Cached, rules: Clauses, obj: Value)
    requires KeysDetermine(w, tag) && Consistent(w, tag, c) && (obj.Nil? || TypeOf(obj) in w.types)
    ensures RulesFrom(RuleStep(w, tag), c, rules, obj).0 == Judge(w, tag, rules)(obj)
    ensures Consistent(w, tag, RulesFrom(RuleStep(w, tag), c, rules, obj).1)
  {
    ghost var good := d => Consistent(w, tag, d);
    var step, f := RuleStep(w, tag), RuleJudge(w, tag, obj);
    forall d, r | good(d) ensures step(d, r, obj).0 == f(r) && good(step(d, r, obj).1) {
      CachedOutcomeTransparent(w, tag, d, r, obj);
    }
    RulesTransparent(step, good, f, c, rules, obj);
  }

  lemma {:induction false} CacheStaysConsistent(
    w: World, tag: string, c: Cached, rules: Clauses, xs: seq<Value>, n: nat)
    requires KeysDetermine(w, tag) && Consistent(w, tag, c) && InProgram(w, xs) && n <= |xs|
    ensures Consistent(w, tag, CacheAfter(RuleStep(w, tag), c, rules, xs, n))
  {
    if n > 0 {
      CacheStaysConsistent(w, tag, c, rules, xs, n - 1);
      ObjectTransparent(w, tag, CacheAfter(RuleStep(w, tag), c, rules, xs, n - 1), rules, xs[n - 1]);
    }
  }

  /** Over a whole run on any slice, from any consistent cache, an empty one in particular,
      the cached filter gives every element the match or error that judging it afresh
      gives, and leaves a consistent cache for the next run, as long as types of one name
      resolve every path alike. */
  lemma CachedRunIsStateless(w: World, tag: string, c: Cached, rules: Clauses, xs: seq<Value>)
    requires KeysDetermine(w, tag) && Consistent(w, tag, c) && InProgram(w, xs)
    ensures Verdicts(RuleStep(w, tag), c, rules, xs) == Judgements(Judge(w, tag, rules), xs)
    ensures Consistent(w, tag, CacheAfter(RuleStep(w, tag), c, rules, xs, |xs|))
  {
    CacheStaysConsistent(w, tag, c, rules, xs, |xs|);
    var vs, js := Verdicts(RuleStep(w, tag), c, rules, xs), Judgements(Judge(w, tag, rules), xs);
    forall k | 0 <= k < |xs| ensures vs[k] == js[k] {
      CacheStaysConsistent(w, tag, c, rules, xs, k);
      ObjectTransparent(w, tag, CacheAfter(RuleStep(w, tag), c, rules, xs, k), rules, xs[k]);
    }
  }

  // ---------- what is kept ----------

  /** `at` lists positions of `xs` in increasing order, `kept` their elements, and every match is listed. */
  ghost predicate ReadAt(vs: seq<Outcome<bool>>, xs: seq<Value>, kept: seq<Value>, at: seq<nat>)
    requires |vs| == |xs|
  {
    && |at| == |kept|
    && (forall j :: 0 <= j < |at| ==> at[j] < |xs| && kept[j] == xs[at[j]] && vs[at[j]] == Ok(true))
    && (forall i, j :: 0 <= i < j < |at| ==> at[i] < at[j])
    && (forall k :: 0 <= k < |xs| && vs[k] == Ok(true) ==> k in at)
  }

  /** The kept elements are the matching positions read in increasing order, none left out. */
  lemma {:induction false} KeptPositions(vs: seq<Outcome<bool>>, xs: seq<Value>) returns (at: seq<nat>)
    requires |vs| == |xs|
    ensures ReadAt(vs, xs, Kept(vs, xs), at)
  {
    at := [];
    if xs != [] {
      var n := |xs| - 1;
      var before := KeptPositions(vs[..n], xs[..n]);
      at := if vs[n] == Ok(true) then before + [n] else before;
      ReadAtSnoc(vs, xs, Kept(vs[..n], xs[..n]), before);
    }
  }

  lemma ReadAtSnoc(vs: seq<Outcome<bool>>, xs: seq<Value>, kept: seq<Value>, at: seq<nat>)
    requires |vs| == |xs| > 0 && ReadAt(vs[..|xs| - 1], xs[..|xs| - 1], kept, at)
    ensures var n := |xs| - 1;
      if vs[n] == Ok(true) then ReadAt(vs, xs, kept + [xs[n]], at + [n]) else ReadAt(vs, xs, kept, at)
  {
    var n := |xs| - 1;
    assert forall k :: 0 <= k < n ==> xs[..n][k] == xs[k] && vs[..n][k] == vs[k];
    var all := at + [n];
    assert all[|at|] == n;
    assert forall j :: 0 <= j < |at| ==> all[j] == at[j];
  }

  /** Filtering what is already filtered keeps all of it. */
  lemma {:induction false} HitsOfHits(f: Value -> Outcome<bool>, xs: seq<Value>)
    ensures Hits(f, Hits(f, xs)) == Hits(f, xs)
  {
    KeptAllMatch(f, xs);
    AllMatching(Judgements(f, Hits(f, xs)), Hits(f, xs));
  }

  lemma {:induction false} KeptAllMatch(f: Value -> Outcome<bool>, xs: seq<Value>)
    ensures forall k :: 0 <= k < |Hits(f, xs)| ==> f(Hits(f, xs)[k]) == Ok(true)
  {
    if xs != [] {
      var n := |xs| - 1;
      KeptAllMatch(f, xs[..n]);
      assert Judgements(f, xs)[..n] == Judgements(f, xs[..n]);
      assert Hits(f, xs) == Hits(f, xs[..n]) + (if f(xs[n]) == Ok(true) then [xs[n]] else []);
    }
  }

  lemma {:induction false} AllMatching(vs: seq<Outcome<bool>>, xs: seq<Value>)
    requires |vs| == |xs| && forall k :: 0 <= k < |vs| ==> vs[k] == Ok(true)
    ensures Kept(vs, xs) == xs
  {
    if xs != [] {
      var n := |xs| - 1;
      AllMatching(vs[..n], xs[..n]);
      assert xs == xs[..n] + [xs[n]];
    }
  }

  /** Cell by cell, a window is what follows the offset, cut at `length`. */
  lemma WindowCells<T>(hits: seq<T>, offset: nat, length: nat, j: nat)
    ensures j < |Window(hits, offset, length)| <==> j < length && offset + j < |hits|
    ensures j < |Window(hits, offset, length)| ==> Window(hits, offset, length)[j] == hits[offset + j]
  {
  }

  /** A rule matches exactly when its field is there and its evaluator says so. A missing field
      is no match; every other failure, of the getter or of the evaluator, is passed on. */
  lemma RuleVerdict(w: World, tag: string, r: RuleSpec, obj: Value)
    ensures var field, verdict := FieldValue(w, tag, obj, r.field), EvalRule(w, tag, r, obj);
      && (verdict == Ok(true) <==> field.Ok? && EvaluateFresh(w, r, field.value) == Ok(true))
      && (verdict == Ok(false) <==>
            (field == Err(FieldNotFound) || (field.Ok? && EvaluateFresh(w, r, field.value) == Ok(false))))
      && (!verdict.Ok? ==>
            verdict == (match field
                        case Ok(v) => EvaluateFresh(w, r, v)
                        case Err(e) => Err(e)
                        case Panic(p) => Panic(p)))
  {
  }

  /** A rule and its "!" form answer opposite ways whenever the field is there and the
      evaluator builds; when the field is missing both say no. */
  lemma NegatedRule(w: World, tag: string, r: RuleSpec, obj: Value)
    requires !("!" <= r.typ)
    ensures var negated := EvalRule(w, tag, r.(typ := "!" + r.typ), obj);
      if FieldValue(w, tag, obj, r.field) == Err(FieldNotFound)
      then negated == EvalRule(w, tag, r, obj) == Ok(false)
      else match EvalRule(w, tag, r, obj)
           case Ok(b) => negated == Ok(!b)
           case failed => negated == failed
  {
    if FieldValue(w, tag, obj, r.field).Ok? {
      NegationIsOpposite(w, r, FieldValue(w, tag, obj, r.field).value);
    }
  }

  // ---------- whole slices ----------

  /** The elements a yes-or-no test accepts, in order. */
  function Accepted(test: Value -> bool, xs: seq<Value>): seq<Value> {
    if xs == [] then []
    else
      var last := xs[|xs| - 1];
      Accepted(test, xs[..|xs| - 1]) + (if test(last) then [last] else [])
  }

  /** Every clause has a rule that matches the object. */
  ghost function Matches(w: World, tag: string, rules: Clauses): Value -> bool {
    obj => EveryClauseMatched(RuleJudge(w, tag, obj), rules)
  }

  lemma {:induction false} KeptAreAccepted(vs: seq<Outcome<bool>>, test: Value -> bool, xs: seq<Value>)
    requires |vs| == |xs| && forall k :: 0 <= k < |xs| ==> vs[k] == Ok(test(xs[k]))
    ensures Kept(vs, xs) == Accepted(test, xs)
  {
    if xs != [] {
      var n := |xs| - 1;
      assert forall k :: 0 <= k < n ==> xs[..n][k] == xs[k] && vs[..n][k] == vs[k];
      KeptAreAccepted(vs[..n], test, xs[..n]);
    }
  }

  /** When no rule fails on any element, the filter keeps exactly the elements in which
      every clause has a matching rule. */
  lemma HitsWithoutErrors(w: World, tag: string, rules: Clauses, xs: seq<Value>)
    requires forall k :: 0 <= k < |xs| ==> NoRuleFails(RuleJudge(w, tag, xs[k]), rules)
    ensures Settled(Judgements(Judge(w, tag, rules), xs))
    ensures Hits(Judge(w, tag, rules), xs) == Accepted(Matches(w, tag, rules), xs)
  {
    var vs, test := Judgements(Judge(w, tag, rules), xs), Matches(w, tag, rules);
    forall k | 0 <= k < |xs| ensures vs[k] == Ok(test(xs[k])) {
      VerdictWithoutErrors(RuleJudge(w, tag, xs[k]), rules);
      assert vs[k] == EvalRules(RuleJudge(w, tag, xs[k]), rules);
    }
    KeptAreAccepted(vs, test, xs);
  }

  /** So reordering or repeating clauses, or rules inside them, keeps the same elements. */
  lemma RuleOrderKeepsHits(w: World, tag: string, p: Clauses, q: Clauses, xs: seq<Value>)
    requires forall k :: 0 <= k < |xs| ==> NoRuleFails(RuleJudge(w, tag, xs[k]), p)
    requires CoveredBy(p, q) && CoveredBy(q, p)
    ensures Hits(Judge(w, tag, p), xs) == Hits(Judge(w, tag, q), xs)
  {
    var a, b := Judgements(Judge(w, tag, p), xs), Judgements(Judge(w, tag, q), xs);
    forall k | 0 <= k < |xs| ensures a[k] == b[k] {
      OrderIrrelevant(RuleJudge(w, tag, xs[k]), p, q);
    }
    assert a == b;
  }

  // ---------- a wrong verdict ----------

  /** Two points of the two types of `TwoPoints`, both with a Y of two; asked for those. */
  function Points(): seq<Value> {
    var one, two := Integer(Predeclared(Int), 1), Integer(Predeclared(Int), 2);
    [Record(0, [two]), Record(1, [one, two])]
  }

  function YIsTwo(): Clauses { [[RuleSpec("Y", "==", Integer(Predeclared(Int), 2))]] }

  lemma SingleOutcome(o: Outcome<bool>, neutral: bool)
    ensures Scan([o], neutral) == o
  {
    assert [o][1..] == [] && Scan([], neutral) == Ok(neutral);
  }

  lemma SingleRule(step: Step, c: Cached, f: RuleSpec -> Outcome<bool>, r: RuleSpec, obj: Value)
    ensures RulesFrom(step, c, [[r]], obj) == step(c, r, obj)
    ensures EvalRules(f, [[r]]) == f(r)
  {
    assert [r][1..] == [] && [[r]][1..] == [];
    assert ClauseFrom(step, c, [r], obj) == step(c, r, obj);
    SingleOutcome(f(r), false);
    SingleOutcome(f(r), true);
    assert RuleOutcomes(f, [r]) == [f(r)] && ClauseOutcomes(f, [[r]]) == [f(r)];
  }

  lemma YIsTwoMeans(i: int)
    ensures EvaluateFresh(TwoPoints(), YIsTwo()[0][0], Integer(Predeclared(Int), i)) == Ok(i == 2)
  {
    IntegerEqual(TwoPoints(), "Y", Predeclared(Int), i, Predeclared(Int), 2);
  }

  /** The fresh verdict on both points, and the verdicts in turn. */
  lemma PointVerdicts()
    ensures var w, r, xs := TwoPoints(), YIsTwo()[0][0], Points();
      && EvalRule(w, "", r, xs[0]) == EvalRule(w, "", r, xs[1]) == Ok(true)
      && var first := CachedOutcome(w, "", None, r, xs[0]);
         first.0 == Ok(true) && CachedOutcome(w, "", first.1, r, xs[1]).0 == Ok(false)
  {
    var w, xs := TwoPoints(), Points();
    YResolves(0);
    YResolves(1);
    YRemembered();
    YIsTwoMeans(1);
    YIsTwoMeans(2);
    PointFields(0, xs[0].fields, 0);
    PointFields(1, xs[1].fields, 0);
    PointFields(1, xs[1].fields, 1);
  }

  lemma PointsAfresh()
    ensures Judgements(Judge(TwoPoints(), "", YIsTwo()), Points()) == [Ok(true), Ok(true)]
  {
    var w, rules, xs := TwoPoints(), YIsTwo(), Points();
    PointVerdicts();
    SingleRule(RuleStep(w, ""), None, RuleJudge(w, "", xs[0]), rules[0][0], xs[0]);
    SingleRule(RuleStep(w, ""), None, RuleJudge(w, "", xs[1]), rules[0][0], xs[1]);
  }

  lemma PointsInTurn()
    ensures Verdicts(RuleStep(TwoPoints(), ""), None, YIsTwo(), Points()) == [Ok(true), Ok(false)]
  {
    var w, rules, xs := TwoPoints(), YIsTwo(), Points();
    var step, r := RuleStep(w, ""), rules[0][0];
    PointVerdicts();
    SingleRule(step, None, RuleJudge(w, "", xs[0]), r, xs[0]);
    var c := CachedOutcome(w, "", None, r, xs[0]).1;
    SingleRule(step, c, RuleJudge(w, "", xs[1]), r, xs[1]);
    assert CacheAfter(step, None, rules, xs, 0) == None;
    assert CacheAfter(step, None, rules, xs, 1) == c;
  }

  lemma KeptOfTwo(vs: seq<Outcome<bool>>, xs: seq<Value>)
    requires |vs| == |xs| == 2 && vs[0] == Ok(true)
    ensures Kept(vs, xs) == if vs[1] == Ok(true) then xs else [xs[0]]
  {
    assert Kept(vs[..1], xs[..1]) == [xs[0]];
    assert xs == [xs[0]] + [xs[1]];
  }

  /** Judged afresh both points match. In one call from an empty cache only the first is
      kept: the second is judged by its X. */
  lemma WrongVerdictExample()
    ensures var w, rules, xs := TwoPoints(), YIsTwo(), Points();
      && Hits(Judge(w, "", rules), xs) == xs
      && Kept(Verdicts(RuleStep(w, ""), None, rules, xs), xs) == [xs[0]]
  {
    var w, rules, xs := TwoPoints(), YIsTwo(), Points();
    PointsAfresh();
    PointsInTurn();
    KeptOfTwo(Judgements(Judge(w, "", rules), xs), xs);
    KeptOfTwo(Verdicts(RuleStep(w, ""), None, rules, xs), xs);
  }
}
