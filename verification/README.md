# gosrvlib: a Dafny model of its stateful core

gosrvlib is a Go library for services. This project models the packages of it whose logic is
self-contained and stateful, and proves what they promise.

* **filter** (`pkg/filter`) filters a slice in place. The clauses of a filter are ANDed, the rules
  of a clause ORed; rules keep their evaluator after the first use, and field paths are cached by
  type name. `GoValues` holds the part of Go it depends on: types (a struct table, so types may be
  recursive), values (pointers into a heap, so values may be cyclic), `reflect` selection with its
  read-only flags, and panics as an outcome of their own. `RuleMeanings` says what each of the ten
  rule types answers on every kind of value. `FilterSpec` gives the verdicts on a
  slice twice: judged afresh, and judged in turn with the cache each element leaves for the next.
  What is kept is the matches, without the first `offset`, and of the rest at most `length`.
  `Processor` is the imperative code, proved for every slice and every content of the cache to do
  what the second kind of verdicts says; `CallIsStateless` says when the two kinds are the same.
* **retrier, httpretrier, periodic** each carry a copy of one select loop over a context, a one-slot
  channel and a timer. `SelectLoop` is that loop as a machine with the runtime's own steps (Go 1.19
  timers, including the moment between expiry and delivery). `LoopObject` has the fields and proves
  every statement on them to be a step of the machine; `Pacing` adds the retry counters; `Retrier`,
  `HttpRetrier` and `Periodic` are the three users. Nondeterministic choices stand for scheduling,
  cancellation and randomness, so each method's contract speaks about every interleaving, and about
  every value an earlier run of the same object may have left in the channel.
* **sqlutil** prints MySQL literals, dotted identifiers and IN lists; `SqlUtil` and `SqlInClause`
  add the scanners that read them back.
* **enumbitmap, enumcache** code lists of names as bits of an integer over a two-way map.
* **healthcheck** runs one goroutine per check; `HealthCheck` interleaves their steps with the
  handler's.
* **paging** is unsigned arithmetic that wraps; `PagedFilter` joins it to calls of the filter.

## Where the code does less than one might think

Each of these is a theorem that says exactly when the expected property holds.

* Two types that print the same name share cached field paths. The cache is invisible if and only
  if types of one name resolve every path alike (`CacheInvisibleExactlyWhen`); otherwise a field
  lookup can return another field (`WrongFieldExample`) and a matching element is dropped
  (`WrongVerdictExample`).
* A field path that resolves is refused exactly when some field on it is neither exported nor an
  embedded one on the way to another (`RefusedExactlyWhen`).
* A run ended by cancellation can leave a value in `resetTimer`. The next run on the same object
  then has an interleaving that blocks forever, unless its first execution is its last
  (`NeverBlocksExactlyWhen`, `CancelCanLeaveValue`).
* Without `GetBody`, every attempt after the first is sent without a body. A caller is safe from
  that if and only if there is no body, or a single attempt is allowed, or no reply to the first
  call is retried (`OriginalWithoutGetBodyExactlyWhen`); each predicate the package ships retries
  a failed call (`ShippedPredicates`).
* `periodic.New` accepts a jitter of zero although its message asks for a positive one; the first
  execution then panics (`ZeroJitterCrashes`, `StartAndLoop`).
* The SQL offset of a page beyond the last one differs from that of `New`, except where it happens
  to wrap back onto it (`OffsetAndLimitAgree`).
* MySQL knows no backslash escapes between backticks, so a quoted identifier names the original
  only if nothing in it needs escaping (`PlainIDReadBack`).
* An empty string prints nothing inside an IN list (`StringClauseReadBackExactlyWhen`).
* Bits from 32 on are dropped by decoding without an error (`RoundTripExactlyWhen`).
* When `totalItems + pageSize - 1` wraps, the page count is zero (`NewRightExactlyWhen`).
* `SetAllIDByName` and `SetAllNameByID` depend on Go's map order if and only if two entries share
  an id or a name (`OrderIrrelevantExactlyWhen`).
* Checks that share an id make the health response depend on arrival order, if and only if they
  report different texts (`ResponseSameExactlyWhen`).
* The orderings on a length compare it with the integer part of the reference
  (`LengthBelowReference`, `OrderingOfLengths`).

## Assumptions

* `LawfulReflection` and `NonEmptyIndexes`: the fields Go's reflection returns lead to the types it
  says. `WellTypedHeap`: memory is typed. `Honest`: an `http.Client` returns a response or an error.
* A rule's type and value and the field tag do not change after construction.
* The heap the filtered objects point into is not the slice's own backing array.
* Conversions Go leaves to the platform, regular expressions, case folding and `==` on composite
  values are arbitrary functions.
* What the option functions check: at least one attempt, positive delay and jitter, factor at least
  one, at least one result.
* `World.types` holds the types of the objects passed to the filter (`InProgram`). Only the lemmas
  about the cache being invisible use it, together with `KeysDetermine`: types of one name resolve
  every path alike.

## Model

| member | source | states |
|---|---|---|
| AndOfOrs.RulesMeaning | pkg/filter/filter.go:234-256 | the verdict on an object is `o` if and only if `o` is what left to right reading with early exit meets first: a match when every clause matched, otherwise the outcome of the first clause that failed or did not match |
| AndOfOrs.ClauseMeaning | pkg/filter/filter.go:238-248 | a clause's outcome is "no match" exactly when no rule matched or failed, and otherwise that of the first rule that did |
| AndOfOrs.VerdictWithoutErrors | pkg/filter/filter.go:234-256 | when no rule fails on the object the verdict is "every clause has a matching rule" |
| AndOfOrs.OrderIrrelevant | pkg/filter/filter.go:93-97 | reordering or repeating clauses and rules changes no verdict that no rule fails on |
| AndOfOrs.RulesTransparent | pkg/filter/filter.go:234-256 | a memory that is handed from rule to rule and changes no rule's outcome changes no verdict |
| FilterSpec.NegatedRule | pkg/filter/filter.go:261-272 | a rule and its "!" form are complementary when the field resolves and the evaluator builds, fail alike otherwise, and both say no when the field is missing |
| FilterSpec.RuleVerdict | pkg/filter/filter.go:258-272 | a rule matches exactly when its field is there and its evaluator says so; a missing field is no match, every other failure is passed on |
| FilterSpec.KeptPositions | pkg/filter/filter.go:197-231 | the kept elements are those at the matching positions, in increasing order, none left out |
| FilterSpec.HitsOfHits | pkg/filter/filter.go:128-133 | filtering what is already filtered keeps all of it |
| FilterSpec.HitsWithoutErrors | pkg/filter/filter.go:138-144 | when no rule fails, exactly the elements in which every clause has a matching rule are kept |
| FilterSpec.RuleOrderKeepsHits | pkg/filter/filter.go:138-144 | a filter keeps the same elements however its clauses and rules are ordered |
| FilterSpec.WindowCells | pkg/filter/filter.go:141-142 | cell j of the window is the match number offset + j, for j below length |
| FilterSpec.CachedRunIsStateless | pkg/filter/filter.go:197-272 | over a whole slice, from any consistent cache, the verdicts judged in turn are those judged afresh, and the cache stays consistent, when types of one name resolve every path alike |
| FilterSpec.WrongVerdictExample | pkg/filter/field_cacher.go:36-42 | otherwise a call can drop a match: two points of types of one name, the second judged by another field |
| Processor.Processor.CheckRulesCount | pkg/filter/filter.go:178-190 | the call is let through exactly when all clauses together hold at most maxRules rules |
| Processor.RuleCountMeaning | pkg/filter/filter.go:178-190 | the count is the number of rules at all places of all clauses |
| Processor.Processor.EvaluateRule | pkg/filter/filter.go:258-272 | for every cache content: the outcome at the cached or else freshly resolved field, with a missing field as no match, and exactly what the cache holds afterwards; the memo stays sound |
| Processor.Processor.EvaluateClause | pkg/filter/filter.go:238-248 | for every cache content the inner loop gives the first match or failure, each rule judged with the cache the rules before it left, and leaves exactly that cache |
| Processor.Processor.EvaluateRules | pkg/filter/filter.go:234-256 | for every cache content the outer loop gives the first clause that fails or does not match, and leaves exactly the cache of the rules looked at |
| Processor.Advance | pkg/filter/filter.go:200-225 | one turn of the in-place loop keeps: first n cells are the window of the matches so far, later cells are original |
| Processor.UntouchedCell | pkg/filter/filter.go:201 | reading runs ahead of writing: the cell about to be read is still original |
| Processor.WholeWindow | pkg/filter/filter.go:227-230 | at the end of the loop the cells are the window of all matches and m counts all of them |
| Processor.FailureLeaves | pkg/filter/filter.go:205-207 | when element i fails, the first cells hold the window of the matches before i and later cells are original |
| Processor.Processor.Keep | pkg/filter/filter.go:209-224 | counting, skipping and copying a match in place keep the window invariant |
| Processor.Processor.FilterSliceValue | pkg/filter/filter.go:192-231 | for every slice and cache content: slice, length, counts, error and cache are what the verdicts in turn prescribe, on success and on failure at any element |
| Processor.Processor.ApplySubset | pkg/filter/filter.go:145-176 | turned down before any element is judged exactly for a length below one, else a length over maxResults, else more than maxRules rules, else an argument that is no slice pointer, with that reason and nothing changed; every other call does to slice, results and cache what the verdicts in turn prescribe, whatever the cache held |
| Processor.Processor.Apply | pkg/filter/filter.go:134-136 | never turned down for its length: on a slice pointer with at most maxRules rules it always filters, from the first match on and up to maxResults |
| Processor.CallIsStateless | pkg/filter/filter.go:145-176 | what a call from a consistent cache does to slice and results is what judging every element afresh prescribes, and it leaves a consistent cache for the next call, when types of one name resolve every path alike |
| FieldPathProofs.PathSound | pkg/filter/field_getter.go:54-58 | walking a resolved index path equals looking the names up one at a time; it never selects a field of a non-struct or out of range |
| FieldPathProofs.WalkTyped | pkg/filter/field_getter.go:54-58 | a path the type admits ends on a value of the promised type or on a nil pointer |
| FieldPathProofs.NilOnTheWay | pkg/filter/field_getter.go:55-58 | the walk panics exactly when a proper prefix of the path reaches a nil pointer |
| FieldPathProofs.ResolvedPathTyped | pkg/filter/field_getter.go:67-91 | every resolved path is one the static type admits, through pointers and embedded structs |
| FieldPathProofs.FieldValueSound | pkg/filter/field_getter.go:28-65 | a well-typed object makes the getter panic only on a nil pointer, and the value returned is well-formed |
| FieldPathProofs.ReadableExactlyWhen | pkg/filter/field_getter.go:54-64 | the end of a successful walk can be handed out exactly when every field on the path is exported, or embedded and not the last |
| FieldPathProofs.RefusedExactlyWhen | pkg/filter/field_getter.go:60-62 | a path that resolves is refused exactly when no nil pointer stands in the way and some field on it is neither exported nor embedded and passed through |
| FieldPathProofs.FieldValueMeaning | pkg/filter/field_getter.go:27-65 | for every object and path: the object for the empty path, otherwise what looking the names up one at a time reaches, or the resolution failure, the nil pointer or the refusal |
| FieldPathProofs.FieldOfRecord | pkg/filter/field_getter.go:54-64 | one name on a struct gives the content of its field, or is refused if the field is not exported |
| FieldPathProofs.FieldThroughPointer | pkg/filter/field_getter.go:55-58 | the same through a pointer, which panics when it is nil |
| FieldPathProofs.DottedPath | pkg/filter/field_getter.go:44 | a path is its names with dots between them |
| FieldPathProofs.UnresolvedExactlyWhen | pkg/filter/field_getter.go:67-91 | a path of names fails to resolve exactly when some name is not found in the type the names before it lead to, or that type is no struct, with the matching error |
| FieldPathProofs.CacheInvisibleExactlyWhen | pkg/filter/field_cacher.go:18-45 | every run of requests is answered as without a cache if and only if types of one name resolve every path alike |
| FieldPathProofs.DistinctNamesSuffice | pkg/filter/field_cacher.go:36 | which holds when distinct types print distinct names |
| FieldPathProofs.Collision | pkg/filter/field_cacher.go:31-45 | two types of one name that resolve a path differently get a wrong answer on the second request |
| FieldPathProofs.WrongFieldExample | pkg/filter/field_cacher.go:36-42 | a concrete pair of types for which the second lookup returns another field |
| FieldCacher.FieldCache.GetFieldsMap | pkg/filter/field_cacher.go:31-45 | creates whichever of the two maps is missing; the cache is otherwise as before, so no lookup changes |
| FieldCacher.FieldCache.Get | pkg/filter/field_cacher.go:16-23 | returns what was stored for the type name and path; the cache afterwards is exactly the one with both maps present |
| FieldCacher.FieldCache.Set | pkg/filter/field_cacher.go:25-29 | the cache afterwards is exactly the old one with the path stored, which changes the one lookup only |
| FieldGetter.Getter.LookupFieldByTag | pkg/filter/field_getter.go:111-120 | the field found carries the wanted tag value and no visible field before it does; none is found exactly when none carries it |
| FieldGetter.FirstTaggedMeaning | pkg/filter/field_getter.go:112-117 | the same of the lookup as a function, an absent tag reading as the empty value |
| FieldGetter.StructFieldMeaning | pkg/filter/field_getter.go:93-109 | without a tag a name stands for the Go field of that name, with one for the first visible field carrying it; otherwise the field is not found |
| FieldGetter.Getter.GetStructField | pkg/filter/field_getter.go:93-109 | by Go name without a tag, by tag value with one |
| FieldGetter.Getter.GetFieldPath | pkg/filter/field_getter.go:67-91 | the loop concatenates the index paths of the names, or fails where resolution fails |
| FieldGetter.Getter.GetFieldValue | pkg/filter/field_getter.go:27-65 | for every cache content: the value at the cached or else freshly resolved path, and exactly what the cache holds afterwards |
| FieldGetter.Getter.ReadPath | pkg/filter/field_getter.go:54-64 | the walk over the value, its panics, and the refusal of unexported fields |
| Rules.Rule.EvaluateRule | pkg/filter/rule.go:67-81 | always the answer of a freshly built evaluator; the memo is set exactly when building succeeds |
| Rules.NegationIsOpposite | pkg/filter/rule.go:83-96 | the "!" form builds exactly when the plain one does and answers the opposite |
| Rules.DoubleNegationRejected | pkg/filter/rule.go:86-92 | two marks do not cancel: such a type is not supported |
| Rules.IntegerLess | pkg/filter/evaluate_lt.go:24-42 | "<" and "<=" on integers float64 represents exactly are those of the integers, across integer types |
| Rules.IntegerGreater | pkg/filter/evaluate_gt.go:24-42 | ">" and ">=" likewise |
| Rules.IntegerEqual | pkg/filter/evaluate_equal.go:11-17 | "==" likewise |
| RuleMeanings.BuildsExactlyWhen | pkg/filter/rule.go:83-123 | a rule fails to build exactly for an unsupported type, a reference that is no string or no number where one is needed, or a pattern that does not compile, each with its error |
| RuleMeanings.LowerMeaning | pkg/filter/rule.go:84 | upper case letters of a rule type count as lower case ones |
| RuleMeanings.EqualTexts | pkg/filter/evaluate_equalfold.go:19-29 | on texts "==" asks for the same type and bytes, "=" for equality up to case |
| RuleMeanings.EqualNumbers | pkg/filter/evaluator.go:28-55 | on numbers of all sizes, float32 included, both ask for the same float64; NaN equals nothing |
| RuleMeanings.EqualNil | pkg/filter/evaluate_equal.go:13-17 | nil and nil pointers equal each other and nothing else |
| RuleMeanings.EqualMixedTypes | pkg/filter/evaluate_equal.go:13-17 | values of different types are never equal, except that "=" compares all texts |
| RuleMeanings.EqualSameType | pkg/filter/evaluate_equal.go:13-17 | within one type: defined integers by value, pointers by address, the rest as Go compares it |
| RuleMeanings.OrderingOfNumbers | pkg/filter/evaluate_lt.go:24-42 | the four orderings on all numbers, with the infinities at both ends and NaN nowhere |
| RuleMeanings.OrderingOfLengths | pkg/filter/evaluate_gt.go:24-42 | exactly when each of the four orderings on a length is true to the reference itself |
| RuleMeanings.OrderingOfOthers | pkg/filter/evaluate_gt.go:27-42 | the orderings match nothing that has neither a number nor a length |
| RuleMeanings.RegexpRule | pkg/filter/evaluate_regexp.go:14-36 | a pattern that compiles answers as it matches |
| RuleMeanings.TextRulesOfOthers | pkg/filter/evaluate_hasprefix.go:22-31 | the four text rules match nothing but predeclared strings |
| Rules.PrefixRule | pkg/filter/evaluate_hasprefix.go:22-31 | "^=" matches exactly when the value is the reference followed by something |
| Rules.SuffixRule | pkg/filter/evaluate_hassuffix.go:22-31 | "=$" matches exactly when the value is something followed by the reference |
| Rules.ContainsRule | pkg/filter/evaluate_contains.go:22-31 | "~=" matches exactly when the reference stands somewhere in the value |
| Evaluators.LessComplement | pkg/filter/evaluate_gte.go:20-42 | "<" and ">=" differ exactly on non-NaN numbers and on lengths, and are both false elsewhere |
| Evaluators.GreaterComplement | pkg/filter/evaluate_lte.go:20-42 | the same of ">" and "<=" |
| Evaluators.LengthBelowReference | pkg/filter/evaluate_lt.go:37-38 | "<" on a length is true to the reference exactly unless the length is the integer part of a fractional reference |
| SelectLoop.SetTimerArms | pkg/retrier/retrier.go:105-115 | setTimer from any timer state ends armed and drained exactly unless a value is on its way or was left behind an armed timer |
| SelectLoop.OneToken | pkg/retrier/retrier.go:91-132 | in every reachable state one token; the send never blocks; setTimer finds the timer spent; some step is always possible |
| SelectLoop.InvariantStep | pkg/retrier/retrier.go:91-132 | every step of loop, runtime and caller keeps the token and the step count |
| SelectLoop.NeverBlocksExactlyWhen | pkg/retrier/retrier.go:128 | no interleaving blocks the send if and only if the channel is empty on entry or the first execution is the last |
| SelectLoop.BlocksOnLeftover | pkg/httpretrier/httpretrier.go:205 | the interleaving that blocks on a value left by an earlier run |
| SelectLoop.LeftoverOnlyAfterCancel | pkg/retrier/retrier.go:93-100 | only a cancelled run leaves a value in the channel |
| SelectLoop.CancelCanLeaveValue | pkg/retrier/retrier.go:93-96 | and such a cancelled run exists |
| SelectLoop.RunOutcome | pkg/retrier/retrier.go:82-103 | a run that ends by itself takes exactly the first final execution count n, and from an empty channel 2n - 1 select cases; any other has fewer executions and fewer than 2n cases, or 2n + 1 with a value left in the channel |
| SelectLoop.EveryRunEnds | pkg/retrier/retrier.go:91-103 | no interleaving takes more than 6n - 1 steps |
| SelectLoop.Completes | pkg/retrier/retrier.go:91-103 | and a run that nobody cancels can be carried on to its end |
| SelectLoop.EndlessRun | pkg/periodic/periodic.go:77-87 | a loop that is never told to stop only ends by cancellation |
| LoopObject.Loop.Start | pkg/httpretrier/httpretrier.go:85-159 | a run starts with an armed timer and the channel as the run before left it |
| LoopObject.Loop.Expires | pkg/retrier/retrier.go:89 | the timer's expiry is a machine step |
| LoopObject.Loop.Arrives | pkg/retrier/retrier.go:97 | so is the later arrival of its value in the timer channel |
| LoopObject.Loop.Cancels | pkg/retrier/retrier.go:93 | so is the end of the context |
| LoopObject.Loop.Await | pkg/retrier/retrier.go:92 | whatever happens while the select waits is a run of the machine after which some case is ready |
| LoopObject.Loop.TakeReset | pkg/httpretrier/httpretrier.go:144-167 | receiving and setTimer are one machine step that leaves the timer armed with the duration received, freshly so unless an earlier run left a value |
| LoopObject.Loop.TakeTimer | pkg/retrier/retrier.go:97 | the timer case is a machine step |
| LoopObject.Loop.TakeDone | pkg/retrier/retrier.go:93 | the done case is a machine step |
| LoopObject.Loop.Select | pkg/periodic/periodic.go:77-85 | one select statement takes some ready case and says what each case leaves |
| LoopObject.Loop.Send | pkg/periodic/periodic.go:106 | the send into an empty channel is a machine step |
| Backoff.NextWait | pkg/retrier/retrier.go:128 | for every base that fits 64 bits the wait lies in the jitter band above its whole part, or is negative exactly when that sum wraps |
| Backoff.BaseIsPower | pkg/retrier/retrier.go:129 | the base of the k-th wait is delay times factor to the k |
| Backoff.WaitMeaning | pkg/retrier/retrier.go:128-129 | the k-th wait lies in [w, w + jitter) for w the whole part of delay * factor^k when that fits 64 bits, and is negative only as such a sum wrapped |
| Backoff.BasesNeverShrink | pkg/retrier/options.go:50-52 | with a factor of at least one the bases never decrease |
| Backoff.DoublingSum | pkg/retrier/options.go:50-52 | with factor two the first n waits sum to between delay * (2^n - 1) and n * (jitter - 1) more |
| Pacing.Pace.Begin | pkg/retrier/retrier.go:83-89 | all attempts are left and the first base is the delay, whatever an earlier run left in the channel |
| Pacing.Pace.Count | pkg/retrier/retrier.go:123 | remainingAttempts is attempts minus executions and never wraps |
| Pacing.Pace.Schedule | pkg/retrier/retrier.go:128-129 | sends a wait of the schedule and moves to the next base, or is stuck exactly when the channel is full; the timer is only ever armed with the waits sent or an earlier run's value |
| Pacing.Pace.Select | pkg/retrier/retrier.go:92-101 | one select statement takes some ready case, and what each case leaves |
| Retrier.Retrier.Exec | pkg/retrier/retrier.go:117-132 | reports the end exactly when no attempt is left or the predicate rejects the outcome, and otherwise sends the next wait or blocks on a full channel |
| Retrier.Retrier.Turn | pkg/retrier/retrier.go:91-102 | one pass of the loop either returns with the run's outcome or gets one select case closer to it |
| Retrier.Retrier.Run | pkg/retrier/retrier.go:81-103 | from any state of the channel: unless the context is done, ends after the first rejected outcome or all attempts, with the last outcome, the schedule kept and an empty channel left empty; blocks only on a value left in the channel, and only if the first execution is not the last |
| Retrier.OutcomeMeaning | pkg/retrier/retrier.go:117-126 | every outcome before the n-th was one to retry; the n-th is the first the predicate rejects or that of the last attempt, and is what Run returns; a run cut short had fewer executions |
| Retrier.DefaultOutcome | pkg/retrier/retrier.go:63-66 | with the default predicate Run returns nil exactly when one of the attempts succeeds, after the first that does, and otherwise the error of the last attempt |
| HttpRetrier.HttpRetrier.Send | pkg/httpretrier/httpretrier.go:182-190 | an attempt sends the body due to it and hands back the copy for the next; a failing GetBody ends the run without a call |
| HttpRetrier.HttpRetrier.Prepare | pkg/httpretrier/httpretrier.go:197-203 | between attempts an error-free response is closed and the request body replaced |
| HttpRetrier.HttpRetrier.Retry | pkg/httpretrier/httpretrier.go:197-208 | closing, body and next wait of an attempt that is followed by another, or the send that blocks after the first two |
| HttpRetrier.HttpRetrier.Settle | pkg/httpretrier/httpretrier.go:192-208 | the verdict on a sent attempt, and what a retried one leaves |
| HttpRetrier.HttpRetrier.Attempt | pkg/httpretrier/httpretrier.go:176-209 | one attempt, its effects in order and its verdict |
| HttpRetrier.HttpRetrier.Turn | pkg/httpretrier/httpretrier.go:161-173 | one pass of the loop either comes to rest or gets one select case closer to it |
| HttpRetrier.HttpRetrier.RestMeans | pkg/httpretrier/httpretrier.go:156-174 | a run at rest has the outcome `Do` promises |
| HttpRetrier.HttpRetrier.Do | pkg/httpretrier/httpretrier.go:81-93 | from any state of the channel: the two results, the log of sends and closings and the schedule of the waits are those of exactly n attempts, or of fewer when the request was cancelled or the run blocks, which it does only on a value left in the channel and only if the first attempt is retried; with a cancellation or a failing GetBody comes the response of the call before, or of an earlier run |
| HttpRetrier.OutcomeMeaning | pkg/httpretrier/httpretrier.go:176-195 | each attempt before the n-th could copy the body and had a reply to retry; the n-th could not, or had none, or was the last allowed; its reply or failure is what Do returns |
| HttpRetrier.EventsInPlace | pkg/httpretrier/httpretrier.go:176-203 | in every run the k-th call sends the original body or what GetBody returned during the attempt before, and a response is closed right after its own error-free call |
| HttpRetrier.ResponsesClosed | pkg/httpretrier/httpretrier.go:190-200 | with a nil error the response is the last call's and open; each earlier error-free response was closed exactly once, no other was |
| HttpRetrier.NoResponseLeaks | pkg/httpretrier/httpretrier.go:156-209 | however the run ends (reply, error, failing GetBody, cancellation, blocked send) every call's error-free response was closed exactly once, except that of the last call when it is handed back; no other was closed |
| HttpRetrier.FaithfulBodies | pkg/httpretrier/httpretrier.go:182-203 | with a faithful GetBody every attempt of every run, cancelled ones included, sends an unread copy of the original body |
| HttpRetrier.BodiesWithoutGetBody | pkg/httpretrier/httpretrier.go:202-203 | without GetBody that is so of a run exactly when there is no body or at most one call was made; of one that ends by itself exactly when there is no body or the first attempt is the last |
| HttpRetrier.OriginalWithoutGetBodyExactlyWhen | pkg/httpretrier/httpretrier.go:182-203 | over all honest clients, interleavings and cancellations only the original body is sent if and only if there is no body, or one attempt is allowed, or no honest first reply is retried |
| HttpRetrier.SecondAttemptHasNoBody | pkg/httpretrier/httpretrier.go:202-203 | a client and an interleaving that send a second attempt without the body |
| HttpRetrier.ShippedPredicates | pkg/httpretrier/httpretrier.go:95-142 | with any of the three predicates of the package that leaves: no body, or one attempt |
| HttpRetrier.StatusesRetried | pkg/httpretrier/httpretrier.go:95-142 | every failed call is retried; without an error 429, 502 and 503 for writes, those and 404, 408, 409, 423, 425, 500, 504, 507 for reads, no success or redirection ever |
| Periodic.Periodic.Start | pkg/periodic/periodic.go:57-62 | the loop starts in the machine's entry state, whatever an earlier run left in the channel |
| Periodic.Periodic.Execute | pkg/periodic/periodic.go:101-107 | panics exactly when the jitter is zero; otherwise a wait in the interval's band is sent, or the send blocks on a value left in the channel |
| Periodic.Periodic.Turn | pkg/periodic/periodic.go:77-86 | one turn of the endless loop keeps waits and executions in step, stops only when the context is done and panics or blocks only as an execution does |
| Periodic.Periodic.StartAndLoop | pkg/periodic/periodic.go:57-87 | the loop observed after any number of turns, whatever the timing: one wait of the interval's band per execution; stopped only by the context, panicked only in the first execution at jitter zero, blocked only on a value left in the channel |
| Periodic.WaitsOfRun | pkg/periodic/periodic.go:106 | every wait lies in [interval, interval + jitter) when that fits 64 bits |
| Periodic.RejectedExactlyWhen | pkg/periodic/periodic.go:29-48 | what New accepts and which complaint comes first |
| Periodic.ZeroJitterCrashes | pkg/periodic/periodic.go:29-48 | a jitter of zero passes the checks of New, and four steps without a cancellation reach the draw that panics |
| SqlUtil.EscapeInto | pkg/sqlutil/sqlutil.go:87-110 | the loop computes the escape, within twice the length |
| SqlUtil.DefaultQuoteValue | pkg/sqlutil/sqlutil.go:79-85 | the quoted value the scanner reads back |
| SqlUtil.QuoteParts | pkg/sqlutil/sqlutil.go:71-73 | the loop overwrites every part in place by its quoted form |
| SqlUtil.DefaultQuoteID | pkg/sqlutil/sqlutil.go:64-76 | the quoted identifier that the part by part scan reads back |
| SqlUtil.ValueReadBack | pkg/sqlutil/sqlutil.go:78-85 | scanning a quoted non-empty value as a MySQL literal ends at the final quote and yields the value |
| SqlUtil.IDReadBack | pkg/sqlutil/sqlutil.go:63-76 | undoubling and unescaping the dotted parts of a quoted identifier yields it, with nothing after them |
| SqlUtil.IDPartsReadBack | pkg/sqlutil/sqlutil.go:69-75 | a dotted name prints as exactly one quoted identifier for each of its parts, which read back as the list of parts |
| SqlUtil.PrintersInjective | pkg/sqlutil/sqlutil.go:63-85 | different values, and different identifiers, print differently |
| SqlUtil.PrintedLength | pkg/sqlutil/sqlutil.go:87-88 | no byte is doubled twice |
| SqlUtil.NoControlBytes | pkg/sqlutil/sqlutil.go:87-110 | no NUL, newline, carriage return or control-Z byte is ever printed |
| SqlUtil.OnlyFiveEscaped | pkg/sqlutil/sqlutil.go:93-106 | a text without the five escaped bytes stands between the quotes as it is, but for doubled quotes |
| SqlUtil.QuotedLength | pkg/sqlutil/sqlutil.go:79-85 | a quoted value is at most 2n + 2 long; only the empty value prints nothing |
| SqlUtil.PlainIDReadBack | pkg/sqlutil/sqlutil.go:63-76 | read without backslash escapes a quoted identifier is itself exactly when it holds no NUL, newline, carriage return, backslash or control-Z |
| SqlInClause.FormatStrings | pkg/sqlutil/sqlinclause.go:52-60 | every value quoted, in order |
| SqlInClause.FormatInts | pkg/sqlutil/sqlinclause.go:62-80 | every integer in decimal, in order |
| SqlInClause.ListReadBack | pkg/sqlutil/sqlinclause.go:49 | a joined list parses back whatever its items contain |
| SqlInClause.ClauseReadBack | pkg/sqlutil/sqlinclause.go:44-50 | field, condition and list parse back from the composed clause |
| SqlInClause.NoClauseExactlyWhen | pkg/sqlutil/sqlinclause.go:45-47 | nothing is printed exactly for an empty list |
| SqlInClause.StringClauseReadBackExactlyWhen | pkg/sqlutil/sqlinclause.go:14-22 | a string clause parses back exactly when field, list and every value are non-empty |
| SqlInClause.EmptyStringLost | pkg/sqlutil/sqlutil.go:80-82 | a list with an empty string does not parse at all |
| SqlInClause.IntReadBack | pkg/sqlutil/sqlinclause.go:62-70 | a printed integer reads back, negative or not |
| SqlInClause.CanonicalDigits | pkg/sqlutil/sqlinclause.go:62-80 | no number but zero is printed with a leading zero |
| SqlInClause.IntClauseReadBackExactlyWhen | pkg/sqlutil/sqlinclause.go:24-42 | an integer clause parses back exactly when field and list are non-empty |
| EnumBitmap.BitMapToStrings | pkg/enumbitmap/enumbitmap.go:26-55 | the names of the known bits below 32 in bit order, and the numbers of the unknown ones |
| EnumBitmap.StringsToBitMap | pkg/enumbitmap/enumbitmap.go:57-75 | the bits of all known names, and the unknown names |
| EnumBitmap.DecodeErrorMeaning | pkg/enumbitmap/enumbitmap.go:42-52 | the error lists exactly the set bits below 32 that are unknown |
| EnumBitmap.BitsMeaning | pkg/enumbitmap/enumbitmap.go:61-68 | a bit is set exactly when some known name in the list has it |
| EnumBitmap.EncodeOrderIrrelevant | pkg/enumbitmap/enumbitmap.go:57-75 | order and repetition of the names do not matter |
| EnumBitmap.EncodeOfDecode | pkg/enumbitmap/enumbitmap.go:26-75 | encoding the decoded names gives the known bits below 32 |
| EnumBitmap.RoundTripExactlyWhen | pkg/enumbitmap/enumbitmap.go:26-75 | which is the integer itself exactly when decoding reports no error and no bit from 32 on is set |
| EnumBitmap.DecodeOfEncode | pkg/enumbitmap/enumbitmap.go:26-75 | with single-bit ids decoding an encoded list gives exactly its known names below bit 32, without error |
| EnumBitmap.NamesInBitOrder | pkg/enumbitmap/enumbitmap.go:37-48 | exactly the known set bits, in increasing order, hence without duplicates |
| EnumBitmap.UnknownBitsInOrder | pkg/enumbitmap/enumbitmap.go:42-52 | the unknown bits in increasing order, numbered from one |
| EnumBitmap.UnknownNamesInOrder | pkg/enumbitmap/enumbitmap.go:61-72 | the unknown names are repeated as they come, none left out |
| EnumBitmap.EncodeErrorMeaning | pkg/enumbitmap/enumbitmap.go:61-72 | a name is in the error exactly when it is in the list and unknown |
| EnumCache.EnumCache.Set | pkg/enumcache/enumcache.go:33-40 | both maps hold the pair |
| EnumCache.EnumCache.SetAllIDByName | pkg/enumcache/enumcache.go:42-51 | the entries set one after the other in some order |
| EnumCache.EnumCache.SetAllNameByID | pkg/enumcache/enumcache.go:53-62 | the entries set one after the other in some order |
| EnumCache.SetAllByNameMeaning | pkg/enumcache/enumcache.go:42-51 | in every order: the ids are the old ones overwritten by the entries, every id of an entry has the name of one with that id, other names stay |
| EnumCache.SetAllByIDMeaning | pkg/enumcache/enumcache.go:53-62 | the same with ids and names exchanged |
| EnumCache.HistoryLinked | pkg/enumcache/enumcache.go:34-62 | every stored name is a key of the id map and every stored id of the name map |
| EnumCache.SetKeepsInverseExactlyWhen | pkg/enumcache/enumcache.go:34-40 | setting a pair keeps the maps inverses exactly when it contradicts nothing stored |
| EnumCache.ConflictFreeInverse | pkg/enumcache/enumcache.go:34-62 | a conflict-free history leaves the maps inverses |
| EnumCache.OrderIrrelevantExactlyWhen | pkg/enumcache/enumcache.go:43-62 | the result is the same for every iteration order exactly when no two entries share an id or a name |
| EnumCache.ItemsOneToOneExactlyWhen | pkg/enumcache/enumcache.go:43-51 | for a map by name that means an injective map |
| EnumCache.EnumCache.DecodeBinaryMap | pkg/enumcache/enumcache.go:120-127 | decodes over the current name map |
| EnumCache.EnumCache.EncodeBinaryMap | pkg/enumcache/enumcache.go:129-136 | encodes over the current id map |
| EnumCache.CacheRoundTrip | pkg/enumcache/enumcache.go:120-136 | a conflict-free cache gives back exactly the integers whose set bits it knows and that fit 32 bits |
| HealthCheck.NeverStuck | pkg/healthcheck/handler.go:48-68 | in every reachable state no send blocks, nothing is sent after the close, and some step is possible until then |
| HealthCheck.AllCollected | pkg/healthcheck/handler.go:68-81 | on return every result has been read exactly once |
| HealthCheck.EveryRunReturns | pkg/healthcheck/handler.go:42-84 | every interleaving returns after exactly 4n + 2 steps |
| HealthCheck.InvariantStep | pkg/healthcheck/handler.go:48-81 | every step keeps wait group, channel and goroutines in agreement |
| HealthCheck.Collect | pkg/healthcheck/handler.go:70-81 | the collecting loop answers 503 exactly when some arrived result is an error and 200 otherwise, with an entry for each arrived id: the last result's error text, or OK |
| HealthCheck.StatusForEveryRun | pkg/healthcheck/handler.go:70-80 | 503 exactly when some check failed and 200 otherwise, for every interleaving |
| HealthCheck.DataMeaning | pkg/healthcheck/handler.go:75-80 | an entry for each id read: the error text of the last result read with it, or OK if that was no error |
| HealthCheck.DataWithoutClash | pkg/healthcheck/handler.go:75-80 | without a clash every check finds its own error text, or OK, under its id |
| HealthCheck.EveryOrderHappens | pkg/healthcheck/handler.go:55-66 | every permutation of the checks is the arrival order of some run |
| HealthCheck.ResponseSameExactlyWhen | pkg/healthcheck/handler.go:71-83 | the response is the same for every interleaving exactly when checks sharing an id report the same, an error that says OK counting as none |
| Paging.NewRightExactlyWhen | pkg/paging/paging.go:81-87 | the page count is right exactly when the sum is not needed or fits; otherwise page and count are zero |
| Paging.PageInRange | pkg/paging/paging.go:5-43 | current, previous and next page lie in 1..TotalPages and the offset is what the earlier pages hold |
| Paging.FieldsOfNew | pkg/paging/paging.go:28-43 | every field written out with ordinary arithmetic: size at least one, count rounded up, page moved into range, neighbours one page away, offset |
| Paging.EveryItemOnAPage | pkg/paging/paging.go:28-43 | every item lies on a page |
| Paging.OnOnePageOnly | pkg/paging/paging.go:28-43 | and on no other |
| Paging.NewIdempotent | pkg/paging/paging.go:28-43 | paging information recomputed from its own fields is the same |
| Paging.FollowVisitsEachPage | pkg/paging/paging.go:97-103 | following NextPage visits each page in turn and then stays |
| Paging.FollowBackVisitsEachPage | pkg/paging/paging.go:89-95 | following PreviousPage from the last page visits each page down to the first and then stays |
| Paging.OffsetAndLimitAgree | pkg/paging/paging.go:45-51 | for all inputs the SQL offset and limit are those of New exactly when the page is in range or the offset beyond the last page wraps back onto it |
| Paging.OffsetAndLimitInRange | pkg/paging/paging.go:45-51 | which is exactly when the page is in range if the offset itself does not wrap |
| Paging.OffsetAndLimitMeaning | pkg/paging/paging.go:45-51 | for all inputs the offset is size * (page - 1) modulo 2^64 and the limit the size, both of at least one |
| Paging.QuotientIsDivision | pkg/paging/paging.go:86 | the recursive quotient is integer division |
| Paging.TimesIsProduct | pkg/paging/paging.go:78 | the recursive product is multiplication |
| Paging.WrapIsModulo | pkg/paging/paging.go:78 | the recursive reduction is that modulo 2^64, of every integer |
| PagedFilter.PageByPageIsWhole | pkg/filter/filter.go:138-144 | calling the filter once for each of the pages 1..TotalPages, for every page size it accepts, leaves slices that together are exactly all matches in order, each call reporting their number |
| PagedFilter.OnePage | pkg/filter/filter.go:138-144 | the call for one page leaves the window of that page and counts all matches |
| PagedFilter.CachedPagesAreWhole | pkg/filter/filter.go:138-176 | the same of calls that each start from a consistent cache, against all matches judged afresh |

## Left out

- JSON and URL parsing of rules, option functions and constructors' defaults: thin wrappers.
- Regular expressions and case folding: uninterpreted predicates; only building and string checks are modelled.
- Rounding of float64: infinities and NaN are modelled, rounding of conversions is an arbitrary function, delays are ideal reals.
- Backoff.NextWait: says nothing of the wait once its base exceeds 64 bits, because Go leaves that conversion to the platform.
- FieldPathProofs.FieldValueSound: the struct lookup of Go's reflection (promotion through embedded structs) is a lawful function, not an algorithm.
- Elements whose pointers lead into the filtered slice's own backing array: overwriting cells would change what later elements show.
- Periodic.Periodic.StartAndLoop: observes the endless loop after any number of turns, because a method of Dafny ends.
- "No execution after cancellation": not claimed, because select may pick the timer when both cases are ready.
- The reader that `GetBody` returned during the last attempt: nothing in the code uses or closes it.
- Calling `Start` twice on one `Periodic`, or `Run` and `Do` concurrently on one object: the fields are not meant to be shared.
- Custom quote functions of `SQLUtil`; the default ones are modelled.
- Locking in `EnumCache`, its sorted listings, and its single lookups: easy members.
- Panics of user code (tasks, checks, HTTP clients), context timeouts per execution, logging.
- All other packages of the repository: wrappers around I/O, configuration or other libraries.
