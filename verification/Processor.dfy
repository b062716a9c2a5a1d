/** `pkg/filter/filter.go`: filtering a slice in place with memoised rules and cached
    field paths. */
module Processor {
  import opened Common
  import opened GoValues
  import opened FieldCacher
  import opened FieldGetter
  import opened FieldPathProofs
  import opened Rules
  import opened AndOfOrs
  import opened FilterSpec

  /** A slice variable: a backing array and how much of it is in use. */
  class GoSlice {
    const data: array<Value>
    var len: nat

    constructor (data: array<Value>, len: nat)
      requires len <= data.Length
      ensures this.data == data && this.len == len
    {
      this.data, this.len := data, len;
    }

    ghost predicate Valid()
      reads this
    {
      len <= data.Length
    }

    function Items(): seq<Value>
      requires Valid()
      reads this, data
    {
      data[..len]
    }
  }

  /** The dynamic content of the `slicePtr interface{}` argument. */
  datatype SliceArgument =
    | NilInterface
    | NotAPointer
    | PointerToOther            // also a nil slice pointer
    | PointerToSlice(slice: GoSlice)

  datatype FilterError = BadLength | LengthOverMax | TooManyRules | NotASlicePointer | Failed(error: Error)

  /** How a call ends: normally, with an error return, or with a panic. */
  datatype Ending = Done | Failure(e: FilterError) | Crash(fault: Fault)

  function EndingOf(o: Outcome<bool>): Ending {
    match o
    case Ok(_) => Done
    case Err(e) => Failure(Failed(e))
    case Panic(p) => Crash(p)
  }

  function ClauseSpecs(clause: seq<Rule>): (specs: seq<RuleSpec>)
    ensures |specs| == |clause| && forall j :: 0 <= j < |clause| ==> specs[j] == clause[j].Spec()
  {
    seq(|clause|, j requires 0 <= j < |clause| => clause[j].Spec())
  }

  function Specs(rules: seq<seq<Rule>>): (specs: Clauses)
    ensures |specs| == |rules| && forall i :: 0 <= i < |rules| ==> specs[i] == ClauseSpecs(rules[i])
  {
    seq(|rules|, i requires 0 <= i < |rules| => ClauseSpecs(rules[i]))
  }

  ghost function RuleObjects(rules: seq<seq<Rule>>): set<Rule> {
    set c, r | c in rules && r in c :: r
  }

  /** Every memo holds only what would be built again. */
  ghost predicate MemosSound(w: World, rules: seq<seq<Rule>>)
    reads RuleObjects(rules)
  {
    forall r :: r in RuleObjects(rules) ==> r.Sound(w)
  }

  /** `step` is how this world judges a rule; unfolded only where a rule is judged. */
  ghost predicate Judges(w: World, tag: string, step: Step) {
    forall c, r, obj {:trigger CachedOutcome(w, tag, c, r, obj)} :: step(c, r, obj) == CachedOutcome(w, tag, c, r, obj)
  }

  function RuleCount(rules: seq<seq<Rule>>): nat {
    if rules == [] then 0 else RuleCount(rules[..|rules| - 1]) + |rules[|rules| - 1]|
  }

  /** The rules of all clauses, by clause and position. */
  function Places(rules: seq<seq<Rule>>): set<(nat, nat)> {
    set i: nat, j: nat | i < |rules| && j < |rules[i]| :: (i, j)
  }

  function Row(i: nat, n: nat): set<(nat, nat)> { set j: nat | j < n :: (i, j) }

  lemma {:induction false} RowSize(i: nat, n: nat)
    ensures |Row(i, n)| == n
  {
    if n > 0 {
      RowSize(i, n - 1);
      assert Row(i, n) == Row(i, n - 1) + {(i, n - 1)};
    }
  }

  /** The rules of all clauses are counted, each once. */
  lemma {:induction false} RuleCountMeaning(rules: seq<seq<Rule>>)
    ensures RuleCount(rules) == |Places(rules)|
  {
    if rules != [] {
      var n := |rules| - 1;
      var before, row := Places(rules[..n]), Row(n, |rules[n]|);
      RuleCountMeaning(rules[..n]);
      RowSize(n, |rules[n]|);
      assert Places(rules) == before + row && before !! row;
    } else {
      assert Places(rules) == {};
    }
  }

  // ---------- windows grow one match at a time ----------

  lemma WindowSnoc<T>(hits: seq<T>, x: T, offset: nat, length: nat)
    ensures Window(hits + [x], offset, length) ==
      Window(hits, offset, length) + (if |hits| >= offset && |Window(hits, offset, length)| < length then [x] else [])
  {
  }

  /** The loop's state before element `i`: the first `n` cells hold the window of the
      matches so far, the others are untouched. */
  ghost predicate Windowed(vs: seq<Outcome<bool>>, xs: seq<Value>, all: seq<Value>, cells: seq<Value>,
                           i: nat, n: nat, m: nat, skip: nat, offset: nat, length: nat)
  {
    && |cells| == |all| && i <= |xs| == |vs| && |xs| <= |all| && xs == all[..|xs|]
    && Settled(vs[..i])
    && var kept := Kept(vs[..i], xs[..i]);
       m == |kept| && skip == (if m < offset then offset - m else 0) &&
       n <= i && cells[..n] == Window(kept, offset, length) && cells[n..] == all[n..]
  }

  /** Reading runs ahead of writing. */
  lemma UntouchedCell(vs: seq<Outcome<bool>>, xs: seq<Value>, all: seq<Value>, cells: seq<Value>,
                      i: nat, n: nat, m: nat, skip: nat, offset: nat, length: nat)
    requires Windowed(vs, xs, all, cells, i, n, m, skip, offset, length) && i < |xs|
    ensures cells[i] == xs[i]
  {
    assert cells[n..][i - n] == all[n..][i - n];
  }

  lemma KeptSnoc(vs: seq<Outcome<bool>>, xs: seq<Value>, i: nat)
    requires i < |xs| == |vs|
    ensures Kept(vs[..i + 1], xs[..i + 1]) == Kept(vs[..i], xs[..i]) + (if vs[i] == Ok(true) then [xs[i]] else [])
    ensures Settled(vs[..i]) && vs[i].Ok? ==> Settled(vs[..i + 1])
  {
    assert xs[..i + 1][..i] == xs[..i] && vs[..i + 1][..i] == vs[..i];
    assert forall k :: 0 <= k < i ==> vs[..i + 1][k] == vs[..i][k];
  }

  lemma WrittenCell(all: seq<Value>, cells: seq<Value>, n: nat, x: Value)
    requires n < |cells| == |all| && cells[n..] == all[n..]
    ensures cells[n := x][..n + 1] == cells[..n] + [x] && cells[n := x][n + 1..] == all[n + 1..]
  {
    assert cells[n := x][n + 1..] == cells[n..][1..];
    assert all[n..][1..] == all[n + 1..];
  }

  /** One turn of the loop keeps the window: on no match, on a match that is skipped, that
      is written, or that is only counted. */
  lemma Advance(vs: seq<Outcome<bool>>, xs: seq<Value>, all: seq<Value>, cells: seq<Value>,
                i: nat, n: nat, m: nat, skip: nat, offset: nat, length: nat)
    requires Windowed(vs, xs, all, cells, i, n, m, skip, offset, length) && i < |xs| && vs[i].Ok?
    ensures vs[i] == Ok(false) ==> Windowed(vs, xs, all, cells, i + 1, n, m, skip, offset, length)
    ensures vs[i] == Ok(true) && skip > 0 ==> Windowed(vs, xs, all, cells, i + 1, n, m + 1, skip - 1, offset, length)
    ensures vs[i] == Ok(true) && skip == 0 && n < length ==>
              Windowed(vs, xs, all, cells[n := xs[i]], i + 1, n + 1, m + 1, skip, offset, length)
    ensures vs[i] == Ok(true) && skip == 0 && n >= length ==>
              Windowed(vs, xs, all, cells, i + 1, n, m + 1, skip, offset, length)
  {
    KeptSnoc(vs, xs, i);
    var kept := Kept(vs[..i], xs[..i]);
    if vs[i] == Ok(false) {
      assert kept + [] == kept;
    } else {
      assert vs[i].value;
      WindowSnoc(kept, xs[i], offset, length);
      if skip == 0 && n < length {
        WrittenCell(all, cells, n, xs[i]);
      } else {
        assert Window(kept, offset, length) + [] == Window(kept, offset, length);
      }
    }
  }

  /** What filtering `xs`, the first cells of `before`, with verdicts `vs` leaves: cells
      `after`, slice length `len`, counts `n` and `m`, after judging `read` elements. On
      success the slice holds the window of all matches and `m` counts all of them. When
      an element fails, the length stays, the first cells hold the window of the matches
      before it, and every later cell is untouched. No cell past the kept ones is ever
      written. */
  ghost predicate Filtered(vs: seq<Outcome<bool>>, xs: seq<Value>, offset: nat, length: nat, before: seq<Value>,
                           after: seq<Value>, len: nat, n: nat, m: nat, read: nat, ending: Ending)
  {
    && |after| == |before| && |vs| == |xs|
    && if Settled(vs) then
         var kept := Window(Kept(vs, xs), offset, length);
         && ending == Done && read == |xs| && m == |Kept(vs, xs)| && n == len == |kept| <= |after|
         && after[..n] == kept && after[n..] == before[n..]
       else
         && n == m == 0 && len == |xs|
         && 0 < read <= |xs| && Settled(vs[..read - 1]) && !vs[read - 1].Ok?
         && ending == (if vs[read - 1].Err? then Failure(Failed(vs[read - 1].error)) else Crash(vs[read - 1].fault))
         && var kept := Window(Kept(vs[..read - 1], xs[..read - 1]), offset, length);
            |kept| <= |after| && after[..|kept|] == kept && after[|kept|..] == before[|kept|..]
  }

  lemma NothingRead(vs: seq<Outcome<bool>>, xs: seq<Value>, all: seq<Value>, offset: nat, length: nat)
    requires |vs| == |xs| <= |all| && all[..|xs|] == xs
    ensures Windowed(vs, xs, all, all, 0, 0, 0, offset, offset, length)
  {
  }

  lemma WholeWindow(vs: seq<Outcome<bool>>, xs: seq<Value>, all: seq<Value>, cells: seq<Value>,
                    n: nat, m: nat, skip: nat, offset: nat, length: nat)
    requires Windowed(vs, xs, all, cells, |xs|, n, m, skip, offset, length)
    ensures Filtered(vs, xs, offset, length, all, cells, n, n, m, |xs|, Done)
  {
    assert xs[..|xs|] == xs && vs[..|xs|] == vs;
  }

  lemma FailureLeaves(vs: seq<Outcome<bool>>, xs: seq<Value>, all: seq<Value>, cells: seq<Value>,
                      i: nat, n: nat, m: nat, skip: nat, offset: nat, length: nat)
    requires Windowed(vs, xs, all, cells, i, n, m, skip, offset, length) && i < |xs| && !vs[i].Ok?
    ensures Filtered(vs, xs, offset, length, all, cells, |xs|, 0, 0, i + 1, EndingOf(vs[i]))
  {
    var kept := Window(Kept(vs[..i], xs[..i]), offset, length);
    assert cells[..n] == kept && |kept| == n;
  }

  /** `vs` are the verdicts on `xs` in turn, and `cs` the caches before, between and after them. */
  ghost predicate Trace(step: Step, specs: Clauses, xs: seq<Value>, vs: seq<Outcome<bool>>, cs: seq<Cached>) {
    && |vs| == |xs| && |cs| == |xs| + 1
    && forall k {:trigger vs[k]} :: 0 <= k < |xs| ==> RulesFrom(step, cs[k], specs, xs[k]) == (vs[k], cs[k + 1])
  }

  /** What the option function accepts. */
  type MaxResults = n: nat | 1 <= n <= 0x7fff_ffff witness 1

  class Processor {
    const fields: Getter
    const maxRules: nat
    const maxResults: MaxResults

    constructor (fieldTag: string, maxRules: nat, maxResults: MaxResults)
      ensures this.maxRules == maxRules && this.maxResults == maxResults
      ensures fields.fieldTag == fieldTag && fresh(fields.cache) && fields.cache.cache == None
    {
      fields := new Getter(fieldTag);
      this.maxRules, this.maxResults := maxRules, maxResults;
    }

    method CheckRulesCount(rules: seq<seq<Rule>>) returns (ok: bool)
      ensures ok <==> RuleCount(rules) <= maxRules
    {
      var count := 0;
      for i := 0 to |rules|
        invariant count == RuleCount(rules[..i])
      {
        assert rules[..i + 1][..i] == rules[..i];
        count := count + |rules[i]|;
      }
      assert rules[..|rules|] == rules;
      ok := count <= maxRules;
    }

    /** With memo and cache: the outcome the cache's content gives, and what it makes of the cache. */
    method EvaluateRule(w: World, rule: Rule, obj: Value) returns (r: Outcome<bool>)
      requires rule.Sound(w)
      modifies fields.cache, rule
      ensures (r, fields.cache.cache) == CachedOutcome(w, fields.fieldTag, old(fields.cache.cache), rule.Spec(), obj)
      ensures rule.Sound(w)
    {
      var value := fields.GetFieldValue(w, obj, rule.field);
      if value == Err(FieldNotFound) {
        return Ok(false);
      }
      if !value.Ok? {
        return if value.Err? then Err(value.error) else Panic(value.fault);
      }
      r := rule.EvaluateRule(w, value.value);
    }

    /** The inner loop: the rules of clause `i` up to the first match or failure. */
    method EvaluateClause(w: World, rules: seq<seq<Rule>>, i: nat, obj: Value, ghost step: Step)
      returns (r: Outcome<bool>)
      requires i < |rules| && MemosSound(w, rules) && Judges(w, fields.fieldTag, step)
      modifies fields.cache, RuleObjects(rules)
      ensures (r, fields.cache.cache) == ClauseFrom(step, old(fields.cache.cache), ClauseSpecs(rules[i]), obj)
      ensures MemosSound(w, rules)
    {
      ghost var specs := ClauseSpecs(rules[i]);
      ghost var all := ClauseFrom(step, fields.cache.cache, specs, obj);
      assert rules[i] in rules;
      for j := 0 to |rules[i]|
        invariant MemosSound(w, rules)
        invariant all == ClauseFrom(step, fields.cache.cache, specs[j..], obj)
      {
        assert rules[i][j] in rules[i] && specs[j..][0] == rules[i][j].Spec() && specs[j..][1..] == specs[j + 1..];
        var verdict := EvaluateRule(w, rules[i][j], obj);
        if verdict != Ok(false) {
          return verdict;
        }
      }
      r := Ok(false);
    }

    /** The outer loop: the clauses up to the first that fails or does not match. */
    method EvaluateRules(w: World, rules: seq<seq<Rule>>, obj: Value, ghost step: Step) returns (r: Outcome<bool>)
      requires MemosSound(w, rules) && Judges(w, fields.fieldTag, step)
      modifies fields.cache, RuleObjects(rules)
      ensures (r, fields.cache.cache) == RulesFrom(step, old(fields.cache.cache), Specs(rules), obj)
      ensures MemosSound(w, rules)
    {
      ghost var specs := Specs(rules);
      ghost var all := RulesFrom(step, fields.cache.cache, specs, obj);
      for i := 0 to |rules|
        invariant MemosSound(w, rules)
        invariant all == RulesFrom(step, fields.cache.cache, specs[i..], obj)
      {
        assert specs[i..][0] == ClauseSpecs(rules[i]) && specs[i..][1..] == specs[i + 1..];
        var verdict := EvaluateClause(w, rules, i, obj, step);
        if verdict != Ok(true) {
          return verdict;
        }
      }
      r := Ok(true);
    }

    /** The end of the loop body: count a match, skip it, or copy it to cell `n`. */
    method Keep(slice: GoSlice, i: nat, n0: nat, m0: nat, skip0: nat, length: nat, matched: bool,
                ghost vs: seq<Outcome<bool>>, ghost xs: seq<Value>, ghost all: seq<Value>, ghost offset: nat)
      returns (n: nat, m: nat, skip: nat)
      requires Windowed(vs, xs, all, slice.data[..], i, n0, m0, skip0, offset, length)
      requires i < |xs| && vs[i] == Ok(matched)
      modifies slice.data
      ensures Windowed(vs, xs, all, slice.data[..], i + 1, n, m, skip, offset, length)
    {
      ghost var cells := slice.data[..];
      Advance(vs, xs, all, cells, i, n0, m0, skip0, offset, length);
      UntouchedCell(vs, xs, all, cells, i, n0, m0, skip0, offset, length);
      n, m, skip := n0, m0, skip0;
      if !matched {
        return;
      }
      m := m + 1;
      if skip > 0 {
        skip := skip - 1;
        return;
      }
      if n < length {
        slice.data[n] := slice.data[i];
        assert slice.data[..] == cells[n := xs[i]];
        n := n + 1;
      }
    }

    /** The verdict on element `i`: the one that the cache, as the elements before have left
        it, gives. No cell changes. */
    method Examine(w: World, rules: seq<seq<Rule>>, slice: GoSlice, i: nat, ghost step: Step, ghost cs: seq<Cached>,
                   ghost vs: seq<Outcome<bool>>, ghost xs: seq<Value>)
      returns (verdict: Outcome<bool>)
      requires i < |xs| <= slice.data.Length && slice.data[i] == xs[i] && Trace(step, Specs(rules), xs, vs, cs)
      requires MemosSound(w, rules) && Judges(w, fields.fieldTag, step)
      requires fields.cache.cache == cs[i]
      modifies fields.cache, RuleObjects(rules)
      ensures MemosSound(w, rules) && verdict == vs[i]
      ensures fields.cache.cache == cs[i + 1]
    {
      verdict := EvaluateRules(w, rules, slice.data[i], step);
    }

    /** The loop body: the verdict on element `i` and what it makes of cells and counts. At
        a failing element the call is over. */
    method Visit(w: World, rules: seq<seq<Rule>>, slice: GoSlice, i: nat, n0: nat, m0: nat, skip0: nat, length: nat,
                 ghost step: Step, ghost cs: seq<Cached>, ghost vs: seq<Outcome<bool>>, ghost xs: seq<Value>,
                 ghost all: seq<Value>, ghost offset: nat)
      returns (n: nat, m: nat, skip: nat, verdict: Outcome<bool>)
      requires i < |xs| && Trace(step, Specs(rules), xs, vs, cs)
      requires Windowed(vs, xs, all, slice.data[..], i, n0, m0, skip0, offset, length)
      requires MemosSound(w, rules) && Judges(w, fields.fieldTag, step)
      requires fields.cache.cache == cs[i]
      modifies fields.cache, RuleObjects(rules), slice.data
      ensures MemosSound(w, rules) && verdict == vs[i]
      ensures fields.cache.cache == cs[i + 1]
      ensures verdict.Ok? ==> Windowed(vs, xs, all, slice.data[..], i + 1, n, m, skip, offset, length)
      ensures !verdict.Ok? ==>
        Filtered(vs, xs, offset, length, all, slice.data[..], |xs|, 0, 0, i + 1, EndingOf(verdict))
    {
      ghost var cells := slice.data[..];
      UntouchedCell(vs, xs, all, cells, i, n0, m0, skip0, offset, length);
      verdict := Examine(w, rules, slice, i, step, cs, vs, xs);
      assert slice.data[..] == cells;
      if !verdict.Ok? {
        FailureLeaves(vs, xs, all, cells, i, n0, m0, skip0, offset, length);
        return n0, m0, skip0, verdict;
      }
      n, m, skip := Keep(slice, i, n0, m0, skip0, length, verdict.value, vs, xs, all, offset);
    }

    /** The in-place loop, before the slice is cut to the length it leaves. */
    method Scan(w: World, rules: seq<seq<Rule>>, slice: GoSlice, offset: nat, length: nat, ghost step: Step,
                ghost cs: seq<Cached>, ghost vs: seq<Outcome<bool>>, ghost xs: seq<Value>)
      returns (n: nat, m: nat, ending: Ending, ghost read: nat)
      requires slice.Valid() && xs == slice.Items() && Trace(step, Specs(rules), xs, vs, cs)
      requires MemosSound(w, rules) && Judges(w, fields.fieldTag, step) && fields.cache.cache == cs[0]
      modifies fields.cache, RuleObjects(rules), slice.data
      ensures MemosSound(w, rules) && read <= |xs|
      ensures Filtered(vs, xs, offset, length, old(slice.data[..]), slice.data[..], if ending == Done then n else |xs|,
                       n, m, read, ending)
      ensures fields.cache.cache == cs[read]
    {
      ghost var all := slice.data[..];
      n, m, ending := 0, 0, Done;
      var skip := offset;
      NothingRead(vs, xs, all, offset, length);
      for i := 0 to slice.len
        invariant MemosSound(w, rules) && ending == Done
        invariant Windowed(vs, xs, all, slice.data[..], i, n, m, skip, offset, length)
        invariant fields.cache.cache == cs[i]
      {
        var verdict;
        n, m, skip, verdict := Visit(w, rules, slice, i, n, m, skip, length, step, cs, vs, xs, all, offset);
        if !verdict.Ok? {
          n, m, ending, read := 0, 0, EndingOf(verdict), i + 1;
          assert ending != Done && Filtered(vs, xs, offset, length, all, slice.data[..], |xs|, n, m, read, ending);
          return;
        }
      }
      WholeWindow(vs, xs, all, slice.data[..], n, m, skip, offset, length);
      read := |xs|;
    }

    /** The in-place loop: what it leaves of slice, counts and cache, for every slice, every
        rule set and every content of the cache. */
    method FilterSliceValue(w: World, rules: seq<seq<Rule>>, slice: GoSlice, offset: nat, length: nat, ghost step: Step)
      returns (n: nat, m: nat, ending: Ending, ghost read: nat)
      requires slice.Valid() && MemosSound(w, rules) && Judges(w, fields.fieldTag, step)
      modifies fields.cache, RuleObjects(rules), slice, slice.data
      ensures slice.Valid() && MemosSound(w, rules) && read <= |old(slice.Items())|
      ensures Filtered(Verdicts(step, old(fields.cache.cache), Specs(rules), old(slice.Items())), old(slice.Items()),
                       offset, length, old(slice.data[..]), slice.data[..], slice.len, n, m, read, ending)
      ensures fields.cache.cache == CacheAfter(step, old(fields.cache.cache), Specs(rules), old(slice.Items()), read)
    {
      ghost var c0, xs := fields.cache.cache, slice.Items();
      ghost var vs := Verdicts(step, c0, Specs(rules), xs);
      ghost var cs := seq(|xs| + 1, k requires 0 <= k <= |xs| => CacheAfter(step, c0, Specs(rules), xs, k));
      n, m, ending, read := Scan(w, rules, slice, offset, length, step, cs, vs, xs);
      if ending == Done {
        slice.len := n;
      }
    }

    /** The whole filter. A call is turned down before any element is judged for the first of
        these reasons that applies: a length below one, a length over the maximum, too many
        rules, an argument that is no slice pointer. Every other call does to slice, results
        and cache what the in-place loop does. */
    method ApplySubset(w: World, rules: seq<seq<Rule>>, argument: SliceArgument, offset: nat, length: nat)
      returns (sliceLen: nat, totalMatches: nat, ending: Ending, ghost read: nat)
      requires argument.PointerToSlice? ==> argument.slice.Valid()
      requires MemosSound(w, rules)
      modifies fields.cache, RuleObjects(rules)
      modifies if argument.PointerToSlice? then {argument.slice} else {}
      modifies if argument.PointerToSlice? then {argument.slice.data} else {}
      ensures MemosSound(w, rules) && (argument.PointerToSlice? ==> argument.slice.Valid())
      ensures ending == Failure(BadLength) <==> length < 1
      ensures ending == Failure(LengthOverMax) <==> length >= 1 && length > maxResults
      ensures ending == Failure(TooManyRules) <==> 1 <= length <= maxResults && RuleCount(rules) > maxRules
      ensures ending == Failure(NotASlicePointer) <==>
        1 <= length <= maxResults && RuleCount(rules) <= maxRules && (argument.NotAPointer? || argument.PointerToOther?)
      ensures 1 <= length <= maxResults && RuleCount(rules) <= maxRules && argument.NilInterface? ==>
        ending == Crash(ZeroValue)    // the error text asks a zero reflect.Value for its type
      ensures length < 1 || length > maxResults || RuleCount(rules) > maxRules || !argument.PointerToSlice? ==>
        && ending != Done && sliceLen == totalMatches == 0 && fields.cache.cache == old(fields.cache.cache)
        && (argument.PointerToSlice? ==> argument.slice.len == old(argument.slice.len) &&
                                         argument.slice.data[..] == old(argument.slice.data[..]))
      ensures 1 <= length <= maxResults && RuleCount(rules) <= maxRules && argument.PointerToSlice? ==>
        var step, c, xs := RuleStep(w, fields.fieldTag), old(fields.cache.cache), old(argument.slice.Items());
        && Filtered(Verdicts(step, c, Specs(rules), xs), xs, offset, length, old(argument.slice.data[..]),
                    argument.slice.data[..], argument.slice.len, sliceLen, totalMatches, read, ending)
        && read <= |xs| && fields.cache.cache == CacheAfter(step, c, Specs(rules), xs, read)
    {
      if length < 1 {
        return 0, 0, Failure(BadLength), 0;
      }
      if length > maxResults {
        return 0, 0, Failure(LengthOverMax), 0;
      }
      var ok := CheckRulesCount(rules);
      if !ok {
        return 0, 0, Failure(TooManyRules), 0;
      }
      match argument {
        case NilInterface => return 0, 0, Crash(ZeroValue), 0;
        case NotAPointer => return 0, 0, Failure(NotASlicePointer), 0;
        case PointerToOther => return 0, 0, Failure(NotASlicePointer), 0;
        case PointerToSlice(slice) =>
          sliceLen, totalMatches, ending, read :=
            FilterSliceValue(w, rules, slice, offset, length, RuleStep(w, fields.fieldTag));
      }
    }

    /** The filter without a window: no length is ever refused, so an admissible rule set on
        a slice pointer always filters. */
    method Apply(w: World, rules: seq<seq<Rule>>, argument: SliceArgument)
      returns (sliceLen: nat, totalMatches: nat, ending: Ending, ghost read: nat)
      requires argument.PointerToSlice? ==> argument.slice.Valid()
      requires MemosSound(w, rules)
      modifies fields.cache, RuleObjects(rules)
      modifies if argument.PointerToSlice? then {argument.slice} else {}
      modifies if argument.PointerToSlice? then {argument.slice.data} else {}
      ensures MemosSound(w, rules) && (argument.PointerToSlice? ==> argument.slice.Valid())
      ensures ending != Failure(BadLength) && ending != Failure(LengthOverMax)
      ensures ending == Failure(TooManyRules) <==> RuleCount(rules) > maxRules
      ensures ending == Failure(NotASlicePointer) <==>
        RuleCount(rules) <= maxRules && (argument.NotAPointer? || argument.PointerToOther?)
      ensures RuleCount(rules) > maxRules || !argument.PointerToSlice? ==>
        && ending != Done && sliceLen == totalMatches == 0 && fields.cache.cache == old(fields.cache.cache)
        && (argument.PointerToSlice? ==> argument.slice.len == old(argument.slice.len) &&
                                         argument.slice.data[..] == old(argument.slice.data[..]))
      ensures RuleCount(rules) <= maxRules && argument.PointerToSlice? ==>
        var step, c, xs := RuleStep(w, fields.fieldTag), old(fields.cache.cache), old(argument.slice.Items());
        && Filtered(Verdicts(step, c, Specs(rules), xs), xs, 0, maxResults, old(argument.slice.data[..]),
                    argument.slice.data[..], argument.slice.len, sliceLen, totalMatches, read, ending)
        && read <= |xs| && fields.cache.cache == CacheAfter(step, c, Specs(rules), xs, read)
    {
      sliceLen, totalMatches, ending, read := ApplySubset(w, rules, argument, 0, maxResults);
    }
  }

  /** So where types of one name resolve alike, a call from a consistent cache does to the
      slice exactly what the stateless filter prescribes, on success and on failure at any
      element, and leaves a consistent cache for the next call. */
  lemma CallIsStateless(w: World, tag: string, c: Cached, rules: Clauses, xs: seq<Value>, offset: nat, length: nat,
                        before: seq<Value>, after: seq<Value>, len: nat, n: nat, m: nat, read: nat, ending: Ending)
    requires KeysDetermine(w, tag) && Consistent(w, tag, c) && InProgram(w, xs)
    requires Filtered(Verdicts(RuleStep(w, tag), c, rules, xs), xs, offset, length, before, after, len,
                      n, m, read, ending)
    ensures Filtered(Judgements(Judge(w, tag, rules), xs), xs, offset, length, before, after, len, n, m, read, ending)
    ensures read <= |xs| && Consistent(w, tag, CacheAfter(RuleStep(w, tag), c, rules, xs, read))
  {
    CachedRunIsStateless(w, tag, c, rules, xs);
    CacheStaysConsistent(w, tag, c, rules, xs, read);
  }
}
