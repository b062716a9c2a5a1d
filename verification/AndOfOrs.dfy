/** An AND of ORs read left to right with early exit, over any rules and any way `f` of
    judging one rule: `evaluateRules` of `pkg/filter/filter.go`, without its state. */
module AndOfOrs {
  import opened Common
  import opened GoValues

  /** Reads outcomes left to right and stops at the first that is not `neutral`. */
  function Scan(outcomes: seq<Outcome<bool>>, neutral: bool): Outcome<bool> {
    if outcomes == [] then Ok(neutral)
    else if outcomes[0] == Ok(neutral) then Scan(outcomes[1..], neutral)
    else outcomes[0]
  }

  function RuleOutcomes<R>(f: R -> Outcome<bool>, clause: seq<R>): (os: seq<Outcome<bool>>)
    ensures |os| == |clause| && forall j :: 0 <= j < |clause| ==> os[j] == f(clause[j])
  {
    seq(|clause|, j requires 0 <= j < |clause| => f(clause[j]))
  }

  /** OR of the rules of one clause. */
  function EvalClause<R>(f: R -> Outcome<bool>, clause: seq<R>): Outcome<bool> {
    Scan(RuleOutcomes(f, clause), false)
  }

  function ClauseOutcomes<R>(f: R -> Outcome<bool>, rules: seq<seq<R>>): (os: seq<Outcome<bool>>)
    ensures |os| == |rules| && forall i :: 0 <= i < |rules| ==> os[i] == EvalClause(f, rules[i])
  {
    seq(|rules|, i requires 0 <= i < |rules| => EvalClause(f, rules[i]))
  }

  /** AND of the clauses. */
  function EvalRules<R>(f: R -> Outcome<bool>, rules: seq<seq<R>>): Outcome<bool> {
    Scan(ClauseOutcomes(f, rules), true)
  }

  // ---------- left to right evaluation, characterised ----------

  /** What a scan's result says of the outcomes: all neutral, or the first that is not. */
  ghost predicate ScanIs(outcomes: seq<Outcome<bool>>, neutral: bool, o: Outcome<bool>) {
    if o == Ok(neutral) then forall k :: 0 <= k < |outcomes| ==> outcomes[k] == o
    else exists at :: 0 <= at < |outcomes| && outcomes[at] == o &&
           forall k :: 0 <= k < at ==> outcomes[k] == Ok(neutral)
  }

  lemma {:induction false} ScanSound(outcomes: seq<Outcome<bool>>, neutral: bool)
    ensures ScanIs(outcomes, neutral, Scan(outcomes, neutral))
  {
    if outcomes != [] && outcomes[0] == Ok(neutral) {
      var rest, o := outcomes[1..], Scan(outcomes, neutral);
      ScanSound(rest, neutral);
      assert forall k :: 0 < k < |outcomes| ==> outcomes[k] == rest[k - 1];
      if o != Ok(neutral) {
        var at :| 0 <= at < |rest| && rest[at] == o && forall k :: 0 <= k < at ==> rest[k] == Ok(neutral);
        assert outcomes[at + 1] == o;
      }
    }
  }

  lemma ScanMeaning(outcomes: seq<Outcome<bool>>, neutral: bool, o: Outcome<bool>)
    ensures Scan(outcomes, neutral) == o <==> ScanIs(outcomes, neutral, o)
  {
    ScanSound(outcomes, neutral);
    var p := Scan(outcomes, neutral);
    if ScanIs(outcomes, neutral, o) && o != Ok(neutral) && p != Ok(neutral) {
      var at :| 0 <= at < |outcomes| && outcomes[at] == o && forall k :: 0 <= k < at ==> outcomes[k] == Ok(neutral);
      var bt :| 0 <= bt < |outcomes| && outcomes[bt] == p && forall k :: 0 <= k < bt ==> outcomes[k] == Ok(neutral);
      assert at == bt;
    }
  }

  /** The clause's outcome is `o`: for "no match", every rule was asked and none matched;
      otherwise `o` is that of the first rule that matched or failed. */
  ghost predicate ClauseIs<R>(f: R -> Outcome<bool>, clause: seq<R>, o: Outcome<bool>) {
    if o == Ok(false) then forall j :: 0 <= j < |clause| ==> f(clause[j]) == Ok(false)
    else exists j :: 0 <= j < |clause| && f(clause[j]) == o &&
           forall k :: 0 <= k < j ==> f(clause[k]) == Ok(false)
  }

  /** The filter's verdict is `o`: for a match, every clause matched; otherwise `o` is
      that of the first clause that failed or did not match. */
  ghost predicate RulesAre<R>(f: R -> Outcome<bool>, rules: seq<seq<R>>, o: Outcome<bool>) {
    if o == Ok(true) then forall i :: 0 <= i < |rules| ==> ClauseIs(f, rules[i], Ok(true))
    else exists i :: 0 <= i < |rules| && ClauseIs(f, rules[i], o) &&
           forall k :: 0 <= k < i ==> ClauseIs(f, rules[k], Ok(true))
  }

  lemma ClauseMeaning<R>(f: R -> Outcome<bool>, clause: seq<R>, o: Outcome<bool>)
    ensures EvalClause(f, clause) == o <==> ClauseIs(f, clause, o)
  {
    var os := RuleOutcomes(f, clause);
    ScanMeaning(os, false, o);
    assert ScanIs(os, false, o) <==> ClauseIs(f, clause, o);
  }

  /** Exactly which verdict an object gets, error or not, for every rule set. */
  lemma RulesMeaning<R>(f: R -> Outcome<bool>, rules: seq<seq<R>>, o: Outcome<bool>)
    ensures EvalRules(f, rules) == o <==> RulesAre(f, rules, o)
  {
    var os := ClauseOutcomes(f, rules);
    ScanMeaning(os, true, o);
    forall i, q | 0 <= i < |rules| ensures os[i] == q <==> ClauseIs(f, rules[i], q) {
      ClauseMeaning(f, rules[i], q);
    }
    assert ScanIs(os, true, o) <==> RulesAre(f, rules, o);
  }

  // ---------- order and repetition of rules ----------

  ghost predicate NoRuleFails<R>(f: R -> Outcome<bool>, rules: seq<seq<R>>) {
    forall c, r :: c in rules && r in c ==> f(r).Ok?
  }

  ghost predicate SomeRuleMatches<R>(f: R -> Outcome<bool>, clause: seq<R>) {
    exists r :: r in clause && f(r) == Ok(true)
  }

  ghost predicate EveryClauseMatched<R>(f: R -> Outcome<bool>, rules: seq<seq<R>>) {
    forall c :: c in rules ==> SomeRuleMatches(f, c)
  }

  lemma ClauseWithoutErrors<R>(f: R -> Outcome<bool>, clause: seq<R>)
    requires forall r :: r in clause ==> f(r).Ok?
    ensures EvalClause(f, clause) == Ok(SomeRuleMatches(f, clause))
  {
    var os := RuleOutcomes(f, clause);
    ScanSound(os, false);
    var o := Scan(os, false);
    if o != Ok(false) {
      var at :| 0 <= at < |os| && os[at] == o;
      assert clause[at] in clause && f(clause[at]) == o && o.value;
      assert SomeRuleMatches(f, clause);
    }
  }

  /** When no rule fails on the object, the verdict is "every clause has a matching rule". */
  lemma VerdictWithoutErrors<R>(f: R -> Outcome<bool>, rules: seq<seq<R>>)
    requires NoRuleFails(f, rules)
    ensures EvalRules(f, rules) == Ok(EveryClauseMatched(f, rules))
  {
    var os := ClauseOutcomes(f, rules);
    forall i | 0 <= i < |rules| ensures os[i] == Ok(SomeRuleMatches(f, rules[i])) {
      assert rules[i] in rules;
      ClauseWithoutErrors(f, rules[i]);
    }
    ScanSound(os, true);
    var o := Scan(os, true);
    if o != Ok(true) {
      var at :| 0 <= at < |os| && os[at] == o;
      assert rules[at] in rules;
    } else {
      forall c | c in rules ensures SomeRuleMatches(f, c) {
        var k :| 0 <= k < |rules| && rules[k] == c;
        assert os[k] == Ok(true);
      }
    }
  }

  ghost predicate SameRules<R>(c: seq<R>, d: seq<R>) {
    (forall r :: r in c ==> r in d) && (forall r :: r in d ==> r in c)
  }

  /** Every clause of `p` has the same rules, in any order and number, as some clause of `q`. */
  ghost predicate CoveredBy<R>(p: seq<seq<R>>, q: seq<seq<R>>) {
    forall c {:trigger Covered(c, q)} :: c in p ==> Covered(c, q)
  }

  ghost predicate Covered<R>(c: seq<R>, q: seq<seq<R>>) { exists d :: d in q && SameRules(c, d) }

  lemma MatchedAlike<R>(f: R -> Outcome<bool>, p: seq<seq<R>>, q: seq<seq<R>>)
    requires CoveredBy(p, q) && EveryClauseMatched(f, q)
    ensures EveryClauseMatched(f, p)
  {
    forall c | c in p ensures SomeRuleMatches(f, c) {
      assert Covered(c, q);
      var d :| d in q && SameRules(c, d);
      var r :| r in d && f(r) == Ok(true);
      assert r in c;
    }
  }

  lemma NoFailureAlike<R>(f: R -> Outcome<bool>, p: seq<seq<R>>, q: seq<seq<R>>)
    requires NoRuleFails(f, p) && CoveredBy(q, p)
    ensures NoRuleFails(f, q)
  {
    forall d, r | d in q && r in d ensures f(r).Ok? {
      assert Covered(d, p);
      var c :| c in p && SameRules(d, c);
      assert r in c;
    }
  }

  /** Reordering or repeating clauses, or rules inside a clause, changes no verdict that
      no rule fails on. */
  lemma OrderIrrelevant<R>(f: R -> Outcome<bool>, p: seq<seq<R>>, q: seq<seq<R>>)
    requires NoRuleFails(f, p) && CoveredBy(p, q) && CoveredBy(q, p)
    ensures EvalRules(f, p) == EvalRules(f, q)
  {
    NoFailureAlike(f, p, q);
    VerdictWithoutErrors(f, p);
    VerdictWithoutErrors(f, q);
    if EveryClauseMatched(f, q) {
      MatchedAlike(f, p, q);
    }
    if EveryClauseMatched(f, p) {
      MatchedAlike(f, q, p);
    }
  }

  // ---------- with a memory ----------

  /** One clause, where judging a rule may depend on what is remembered and add to it. */
  function ClauseFrom<C, R>(step: (C, R, Value) -> (Outcome<bool>, C), c: C, clause: seq<R>, obj: Value)
    : (Outcome<bool>, C)
    decreases |clause|
  {
    if clause == [] then (Ok(false), c)
    else
      var (o, d) := step(c, clause[0], obj);
      if o == Ok(false) then ClauseFrom(step, d, clause[1..], obj) else (o, d)
  }

  /** All clauses, likewise. */
  function RulesFrom<C, R>(step: (C, R, Value) -> (Outcome<bool>, C), c: C, rules: seq<seq<R>>, obj: Value)
    : (Outcome<bool>, C)
    decreases |rules|
  {
    if rules == [] then (Ok(true), c)
    else
      var (o, d) := ClauseFrom(step, c, rules[0], obj);
      if o == Ok(true) then RulesFrom(step, d, rules[1..], obj) else (o, d)
  }

  /** Whatever satisfies `good` judges rules on `obj` as `f` does, and leaves what satisfies it. */
  ghost predicate Transparent<C(!new), R(!new)>(step: (C, R, Value) -> (Outcome<bool>, C), good: C -> bool,
                                               f: R -> Outcome<bool>, obj: Value)
  {
    forall c, r :: good(c) ==> step(c, r, obj).0 == f(r) && good(step(c, r, obj).1)
  }

  lemma {:induction false} ClauseTransparent<C(!new), R(!new)>(
    step: (C, R, Value) -> (Outcome<bool>, C), good: C -> bool, f: R -> Outcome<bool>, c: C, clause: seq<R>, obj: Value)
    requires Transparent(step, good, f, obj) && good(c)
    ensures ClauseFrom(step, c, clause, obj).0 == EvalClause(f, clause) && good(ClauseFrom(step, c, clause, obj).1)
    decreases |clause|
  {
    if clause != [] {
      ClauseTransparent(step, good, f, step(c, clause[0], obj).1, clause[1..], obj);
      assert RuleOutcomes(f, clause)[1..] == RuleOutcomes(f, clause[1..]);
    }
  }

  /** A memory that never changes a rule's outcome changes no verdict. */
  lemma {:induction false} RulesTransparent<C(!new), R(!new)>(
    step: (C, R, Value) -> (Outcome<bool>, C), good: C -> bool, f: R -> Outcome<bool>, c: C, rules: seq<seq<R>>,
    obj: Value)
    requires Transparent(step, good, f, obj) && good(c)
    ensures RulesFrom(step, c, rules, obj).0 == EvalRules(f, rules) && good(RulesFrom(step, c, rules, obj).1)
    decreases |rules|
  {
    if rules != [] {
      ClauseTransparent(step, good, f, c, rules[0], obj);
      RulesTransparent(step, good, f, ClauseFrom(step, c, rules[0], obj).1, rules[1..], obj);
      assert ClauseOutcomes(f, rules)[1..] == ClauseOutcomes(f, rules[1..]);
    }
  }
}
