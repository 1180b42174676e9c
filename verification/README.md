# Verified core of the interpreter

A Dafny model of the self-contained algorithms and state machines of a tree-walking Ruby interpreter
written in C: fused lazy pipelines, exceptions and control flow, combinatorial enumerators, pattern
matching, the chain of environments, exact numbers, sorting and searching, substring loops, printing
and UTF-8, and the arena allocator. Code that works step by step is a method over the same variables,
buffers and links, proved against a specification function; what the code promises is proved about
that function. `dafny verify dfyconfig.toml` checks everything.

| file | contents |
|---|---|
| LazyPipeline.dfy | `Enumerator::Lazy#_collect` against eager evaluation; the exact shapes for which they agree |
| ControlFlow.dfy | begin/rescue/else/ensure/retry, while, raise, break, next, return: a register machine refining a semantics without registers |
| Programs.dfy | what each of these constructs does, as rules about its parts, and small programs worked out |
| Enumerators.dfy | combination, permutation, the repeated forms and product over shared buffers |
| ScopeTree.dfy, Environment.dfy | environments as a tree of maps, and the linked frames that refine it |
| Patterns.dfy | `case/in`: a declarative match relation and the matcher that writes bindings |
| PatternRules.dfy | what each form of pattern matches and binds, and small matches worked out |
| Arithmetic.dfy, Rationals.dfy, Rationalize.dfy | division, gcd, modular powers; the class Rational; floats to fractions |
| Sorting.dfy, BinarySearch.dfy, Substrings.dfy | array sort, min, max, bsearch; split, scan, gsub, join |
| Inspect.dfy, Utf8.dfy | inspect/undump and chr/codepoints round trips |
| Arena.dfy | the arena allocator |
| Options.dfy, Sequences.dfy | what the other files share |

Where the code departs from Ruby the model follows the code. Among the departures are these, with the
member that says when they show:

- a `take` limits the final output, so lazy and eager evaluation agree exactly for the shapes in
  `LazyPipeline.Faithful` (`FaithfulIff`); `take(0)` returns the first value (`RunOfTakeNone`);
- an `else` body is skipped after a successful `retry`, and runs after a `break`, `next` or `return` of
  the body (`BeginAgreesIff`, with a failing program in `RetryLosesElse`);
- a `retry` in the body of a while loop goes on with the loop and never reaches the rescue clause around
  the loop (`LoopAgreesIff`, with a failing program in `RetryStaysInLoop`); a program that reaches neither
  this nor a misplaced `else` nor an unresolved rescue class runs as Ruby says (`RubyAgrees`);
- a rescue class that does not resolve is skipped, where Ruby raises NameError (`ClauseAgreesIff`, with a
  failing program in `UnknownClassSkipped`);
- `Rational#to_i` floors (`ToITruncatesIff`), and `Rational#round` rounds halves up (`RoundIsHalfAwayIff`);
- `pow(0, 1)` is 1, and a negative modulus can give a positive residue (`ModPow`);
- `float_rationalize` returns the first convergent within the tolerance, which need not be the simplest
  fraction in it (`SimplestIff`, with a failing input in `FirstConvergentNotSimplest`);
- a failed left arm of an or-pattern leaves its bindings (`LinearBindsExactlyIff`, with a failing input in
  `FailedArmLeavesBinding`); `[*, *]` without elements, which Ruby refuses, never matches; the shorthand
  `key:` matches a hash without that key (`ShorthandAgreesIff`, with a failing input in `MissingKeyMatches`);
- `min(n)` and `max(n)` answer nil exactly when a comparison of the sort fails (`MinN`, `MaxN`);
- `bsearch` on a range that reaches an end of the 64-bit integers steps past it exactly when the answer
  there sends it on (`RangeBsearch`, with a failing input in `NothingUpToTheTop`);
- `join` looks at 4096 elements at most (`SplitAndJoin`);
- an empty needle leaves `gsub` without effect (`EmptyNeedle`) and `scan` without hits (`Scan`).

## Model

| member | source | states |
|---|---|---|
| LazyPipeline.Collect | src/eval.c:3119-3165 | the one pass with its counters, flags and early exits returns the specified run of the op list, for every op list, source and cap |
| LazyPipeline.Trip | src/eval.c:3130-3159 | one source element through all operations: the values let through, the advanced counters and the stop flag |
| LazyPipeline.Step | src/eval.c:3135-3158 | one branch of the `case`: its effect on the values, its own counter and no other counter |
| LazyPipeline.TakeWhileStep | src/eval.c:3140-3143 | keeps the leading values that satisfy the block and stops exactly when one does not |
| LazyPipeline.DropStep | src/eval.c:3144-3147 | drops what the counter still owes and pays it off |
| LazyPipeline.DropWhileStep | src/eval.c:3148-3157 | drops the leading values until the flag is set, then lets everything through |
| LazyPipeline.PushUpTo | src/eval.c:3161-3163 | appends until the limit is reached, and at least one value when the limit is not positive |
| LazyPipeline.LimitFor | src/eval.c:3121-3123 | the limit is the smaller of the cap and the last `take` of the list |
| LazyPipeline.FreshCounters | src/eval.c:3124-3127 | every `drop` starts owing nothing done and every `drop_while` unfinished |
| LazyPipeline.PassEager | src/eval.c:3129-3164 | for op lists without a working `take_while` behind a `flat_map`, one pass over a chunk followed by the rest equals the eager result of the whole |
| LazyPipeline.FusedIsClippedEager | src/eval.c:3119-3166 | the fused run is the eager result of the list without its takes, cut at the limit (a limit of zero or less runs the first element only) |
| LazyPipeline.FirstIsPrefix | src/eval.c:3168-3171 | `first(n)`, n at least 1, is the n-prefix of the full run, for every op list |
| LazyPipeline.RunLimitIsPrefix | src/eval.c:3161-3164 | a run with a positive limit is the prefix of the run without one |
| LazyPipeline.RunIsLazy | src/eval.c:3128-3165 | a run that stops by itself within its source gives the same result on every longer source |
| LazyPipeline.FaithfulAgrees | src/eval.c:3119-3166 | op lists of faithful shape return the eager result whatever their blocks and source |
| LazyPipeline.UnfaithfulDiffers | src/eval.c:3119-3166 | every other shape has blocks and a source on which the result is not the eager one (middle takes, `take(0)`, `take_while` behind `flat_map`) |
| LazyPipeline.FaithfulIff | src/eval.c:3119-3166 | the shape condition holds if and only if the single pass agrees with the eager reading for all blocks and sources |
| LazyPipeline.RunOfMap | src/eval.c:3138 | a run of `map` alone has one value for each value of the source, and it is what the block returns |
| LazyPipeline.RunOfSelect | src/eval.c:3136 | a run of `select` returns the values at exactly the positions whose values satisfy the block, in order |
| LazyPipeline.RunOfReject | src/eval.c:3137 | a run of `reject` returns the values at the other positions, in order |
| LazyPipeline.RunOfFlatMap | src/eval.c:3139 | wherever the source is cut around a value, the block's list stands in its place |
| LazyPipeline.RunOfWhile | src/eval.c:3140-3157 | `take_while` and `drop_while` return the two sides of the first value that the block refuses |
| LazyPipeline.RunOfCount | src/eval.c:3144-3147 | `take(n)`, n at least 1, returns the first n values and `drop(n)` the others |
| LazyPipeline.RunOfTakeNone | src/eval.c:3161-3164 | `take(n)` for n at most 0 returns the first value all the same |
| LazyPipeline.RunOfNothing | src/eval.c:3119-3166 | without operations, and with one that the `case` does not know, the source comes back |
| LazyPipeline.RunInStages | src/eval.c:3119-3166 | a faithful list cut in two is run by running the second part on the result of the first |
| LazyPipeline.LastTakeExact | src/eval.c:3122 | the limit of the list is that of its last `take` |
| LazyPipeline.FilterExact | src/eval.c:3136 | what the filter keeps: the values at exactly the satisfying positions, in order |
| LazyPipeline.MapExact | src/eval.c:3138 | entry i of the mapped sequence is the block applied to entry i |
| ControlFlow.Evaluator.Eval | src/eval.c:1241-1350 | the register machine agrees with the register-free semantics on result, state and trace; an EXCEPTION result means exactly that an exception is in flight, and rescue_context and `$!` are as on entry |
| ControlFlow.Evaluator.EvalBegin | src/eval.c:1241-1326 | `begin`: the ensure body runs once with the registers saved and put back, and overrides the outcome only when it does not end normally |
| ControlFlow.Evaluator.EvalAttempts | src/eval.c:1243-1295 | the jump back to retry_begin computes the recursive attempts of the semantics, `rescued` never reset |
| ControlFlow.Evaluator.EvalAttempt | src/eval.c:1244-1295 | one run of the body, the first matching clause or the else body |
| ControlFlow.Evaluator.EvalRescue | src/eval.c:1272-1289 | a rescue body sees the caught exception in rescue_context and `$!` and both are restored after it |
| ControlFlow.Evaluator.FindClause | src/eval.c:1247-1271 | the first clause that catches the exception in flight, which stays in flight |
| ControlFlow.Evaluator.ClauseMatches | src/eval.c:1250-1271 | a class list catches by name or ancestor; a class that does not resolve is skipped without losing the exception |
| ControlFlow.Evaluator.EvalLoop | src/eval.c:1097-1123 | the while/until loop, pre- and post-tested, agrees with the recursive loop of the semantics |
| ControlFlow.Evaluator.EvalLoopRound | src/eval.c:1097-1123 | one round of test and body in either order |
| ControlFlow.Evaluator.EvalLoopBody | src/eval.c:1097-1123 | break ends the loop with its value, next and retry go on, exceptions and returns leave |
| ControlFlow.Evaluator.EvalTest | src/eval.c:1097-1123 | the condition, negated for until; a signal in it leaves the loop |
| ControlFlow.Evaluator.EvalBody | src/eval.c:1886-1902 | a sequence stops at the first signal |
| ControlFlow.Evaluator.RaiseValue | src/eval_support.c:1133-1153 | raising sets the registers, and does nothing but signal while another exception is in flight |
| ControlFlow.Evaluator.ClearException | src/eval_support.c:1155-1161 | afterwards no exception is in flight |
| ControlFlow.MoreFuel | src/eval.c:1241-1350 | a run that terminates has the same result under every larger bound, in either reading, so the bound is not part of the meaning |
| ControlFlow.EnsureOnce | src/eval.c:1241-1326 | for every terminating program the entries and ensure starts in the trace nest properly, each activation closed by exactly one ensure start |
| ControlFlow.EnsureCounts | src/eval.c:1241-1326 | every begin starts its ensure body exactly as often as it is entered, however often it retries |
| ControlFlow.OpenCounts | src/eval.c:1297-1325 | a balanced trace has equally many entries and ensure starts for each begin |
| ControlFlow.EnsureUnnests | src/eval.c:1241-1326 | an ensure clause means the same as a begin with ensure around the begin without it |
| ControlFlow.ElseDeadAfterRetry | src/eval.c:1243-1295 | after a clause has run, removing the else body changes nothing: a retry that succeeds skips it |
| ControlFlow.RubyAgrees | src/eval.c:1097-1295 | whole programs: a run that reaches no misplaced else body, no loop body that ends in retry and no rescue class that does not resolve, at any depth, ends as Ruby says |
| ControlFlow.BeginAgrees | src/eval.c:1243-1295 | one begin: unless its else body is misplaced every attempt starts afresh and else runs after a body that completes, as in Ruby |
| ControlFlow.BeginAgreesIff | src/eval.c:1243-1295 | one begin, given its parts: code and Ruby differ exactly when the attempt that settles it completes after a retry, or ends in break, next or return the first time, and running the else body is not the same as leaving it out |
| ControlFlow.RubyAttemptsAreRuby | src/eval.c:1243-1295 | that reading of one begin is the one of the whole program as long as no part of the begin departs |
| ControlFlow.RaisingElseDiffers | src/eval.c:1243-1295 | with an else body that raises they agree if and only if the else body is not misplaced |
| ControlFlow.RetryLosesElse | src/eval.c:1243-1295 | a concrete program: its second attempt completes in the code and raises from the else body in Ruby |
| ControlFlow.LoopAgreesIff | src/eval.c:1097-1123 | one while loop, given its parts: code and Ruby differ exactly when the body of a round that is reached ends in retry |
| ControlFlow.RubyLoopIsRuby | src/eval.c:1097-1123 | that reading of one loop is the one of the whole program as long as no part of the loop departs |
| ControlFlow.RetryStaysInLoop | src/eval.c:1097-1123 | a concrete program: the retry of a loop in a rescue clause goes on with the loop in the code, and starts the second attempt in Ruby |
| ControlFlow.ClauseAgreesIff | src/eval.c:1247-1271 | code and Ruby choose the same clause if and only if no class that does not resolve stands before every class that matches |
| ControlFlow.UnknownClassSkipped | src/eval.c:1247-1271 | a concrete program: the exception goes on in the code and is replaced by a NameError in Ruby |
| ControlFlow.RetryContained | src/eval.c:1238-1295 | a retry inside a rescue clause (or a loop body) never escapes as an outcome |
| Programs.EnsureRule | src/eval.c:1310-1323 | an ensure body that completes leaves the outcome of the begin alone, whatever it is; one that does not takes its place |
| Programs.EnsureLetsItPass | src/eval.c:1310-1323 | a concrete program on the register machine: the exception goes on through an ensure body that completes |
| Programs.RescueRule | src/eval.c:1244-1289 | the first clause that names the exception or an ancestor runs, with the exception bound, as `$!` and for a bare raise |
| Programs.RetryRule | src/eval.c:1243-1295 | a clause that ends in retry starts the same begin again from the state the clause has left |
| Programs.UncaughtRule | src/eval.c:1244-1289 | an exception that no clause names goes on |
| Programs.NoExceptionRule | src/eval.c:1244-1295 | a body that does not raise is not touched by the clauses |
| Programs.ElseRule | src/eval.c:1293-1295 | after a body that completes the else body runs, and its outcome is the one of the begin |
| Programs.JumpThenElse | src/eval.c:1293-1295 | after a body that ends in a jump the else body runs in the code, and does not in Ruby |
| Programs.AncestorCatches | src/eval.c:1250-1271 | a concrete program on the register machine: `rescue StandardError` takes a RuntimeError |
| Programs.RaiseAgain | src/eval_dispatch.c:1522-1528 | a clause whose body is a bare raise raises what the begin body raised |
| Programs.NamedIsCaught | src/eval.c:1250-1271 | a clause catches exactly the exceptions whose class or superclass it names, or all if it names none |
| Programs.ConditionRule | src/eval.c:1087-1095 | only nil and false (both modelled as nil) choose the other branch; unless turns the choice round |
| Programs.SequenceRule | src/eval.c:1886-1902 | a sequence runs its parts in turn, stops at a signal and yields the value of the last one |
| Programs.SignalPasses | src/eval.c:1087-1350 | a signal in a condition or in the value of a jump goes on as it is |
| Programs.LoopRuns | src/eval.c:1097-1123 | a round of a loop that tests first: break ends it with its value, return and exceptions leave it, next and completion go on |
| Programs.LoopStops | src/eval.c:1097-1123 | such a loop ends with nil when its condition says so, without running the body |
| Programs.PostLoopRuns | src/eval.c:1097-1123 | a loop that tests last runs its body before it looks at the condition |
| Programs.CountsUp | src/eval.c:1097-1123 | a program: a loop that counts up to a number ends there, for every number and every fuel that is enough |
| Enumerators.ListingExact | src/eval_dispatch_collections.c:88-162 | per rule, the listing holds every admissible index row, once, in strictly ascending lexicographic order, nothing else, and has n^k, n!/(n-k)!, C(n,k) or C(n+k-1,k) rows |
| Enumerators.RowsExact | src/eval_dispatch_collections.c:88-162 | the recursion below any prefix lists exactly its completions, in ascending order |
| Enumerators.AscendingUnique | src/eval_dispatch_collections.c:88-162 | an ascending list is fixed by its set of rows |
| Enumerators.CountListing | src/eval_dispatch_collections.c:88-162 | the number of rows is the power, falling product or binomial coefficient of the rule |
| Enumerators.CountByFact | src/eval_dispatch_collections.c:88-162 | the counts in factorials: times (n-k)! the permutations are n!, times k!(n-k)! the combinations are n!, times k!(n-1)! the repeated combinations are (n+k-1)!; no row where k is too large |
| Enumerators.CombinationHelper | src/eval_dispatch_collections.c:88-100 | appends the combinations that extend the current prefix and leaves the prefix of the buffer unchanged |
| Enumerators.CombinationsRunOut | src/eval_dispatch_collections.c:96 | the early loop bound n - (k - depth) loses no row |
| Enumerators.PermutationHelper | src/eval_dispatch_collections.c:102-118 | appends the permutations that extend the prefix; `used` is as it was on entry |
| Enumerators.RepeatedCombinationHelper | src/eval_dispatch_collections.c:120-132 | appends the non-decreasing rows that extend the prefix |
| Enumerators.RepeatedPermutationHelper | src/eval_dispatch_collections.c:134-146 | appends all rows that extend the prefix |
| Enumerators.ProductHelper | src/eval_dispatch_collections.c:148-162 | appends the index product of the remaining arrays |
| Enumerators.Combination | src/eval_dispatch_collections.c:1582-1591 | `combination(k)` returns the listing of increasing rows, empty for k > n and for negative k, one empty row for 0 |
| Enumerators.Permutation | src/eval_dispatch_collections.c:1604-1613 | `permutation(k)` returns the listing of injective rows |
| Enumerators.RepeatedCombination | src/eval_dispatch_collections.c:1626-1634 | `repeated_combination(k)` returns the listing of non-decreasing rows |
| Enumerators.RepeatedPermutation | src/eval_dispatch_collections.c:1645-1653 | `repeated_permutation(k)` returns the listing of all rows |
| Enumerators.ProductOf | src/eval_dispatch_collections.c:1664-1674 | `product` lists each tuple of the index product once, lexicographically |
| Enumerators.ProductOfItself | src/eval_dispatch_collections.c:134-162 | an array times itself k times and `repeated_permutation(k)` list the same n^k rows in the same order |
| Enumerators.ListedValues | src/eval_dispatch_collections.c:88-162 | for any pools: the listing holds, row after row in dictionary order, the values at exactly the index rows that obey the rule |
| Enumerators.TwoOfThree | src/eval_dispatch_collections.c:1582-1591 | a concrete input: the combinations of two out of 1, 2, 3 |
| ScopeTree.SetGet | src/env.c:20-62 | after an assignment every reader sees the new value exactly where its lookup ends in the assigned frame, and every other name as before |
| ScopeTree.SetStaysInScope | src/env.c:20-29 | an assignment changes one frame, and that frame is in scope |
| ScopeTree.ScopeEndsAtDef | src/env.c:51-62 | every frame in scope is the nearest def frame or lies below it, and no other one is a def frame |
| ScopeTree.ScopeIsChainToDef | src/env.c:51-62 | the frames an assignment may reach are exactly those on the chain up to and including the nearest def frame |
| ScopeTree.DefBarrier | src/env.c:20-62 | a name that is only bound above the def frame is readable there, but assigning it makes a local binding and leaves the outer one |
| ScopeTree.SetTwice | src/env.c:20-29 | the second of two assignments to a name decides |
| ScopeTree.SetsCommute | src/env.c:20-29 | assignments to different names commute, from whatever frames |
| ScopeTree.OwnerAfterBind | src/env.c:51-73 | binding a name moves the owner of no other name and keeps its own |
| ScopeTree.RemoveUncovers | src/env.c:75-87 | after a removal readers see what the frames above bind; other names and frames are unaffected |
| ScopeTree.DefineRemove | src/env.c:64-87 | removing a newly defined name restores the tree |
| ScopeTree.ReadsFirst | src/env.c:31-41 | along any path of parents, reading gives the value of the first frame with the name, across def frames |
| ScopeTree.AssignsFirst | src/env.c:20-62 | along any path within the def boundary, assigning changes the first frame with the name, or the frame it starts from when there is none, and no other frame |
| ScopeTree.OneMore | src/env.c:4-87 | what each operation adds to a run: the frame or binding it changes and the answer it gives |
| ScopeTree.BlockWrites | src/env.c:20-62 | runs: a variable assigned in a block is read with its new value outside of the block |
| ScopeTree.MethodHides | src/env.c:13-62 | runs: a variable assigned in a method is read there, and reads above it are as before |
| ScopeTree.MirrorGet | src/env.c:31-41 | how the frames are named does not change what a read finds |
| ScopeTree.MirrorSet | src/env.c:20-29 | nor which binding an assignment changes |
| Environment.EnvNew | src/env.c:4-11 | a new frame is an empty node below its parent |
| Environment.EnvNearestDef | src/env.c:13-18 | walks to the nearest def frame of the tree |
| Environment.EnvGet | src/env.c:31-41 | returns the value of the tree lookup through all frames |
| Environment.EnvGetOwn | src/env.c:43-49 | looks in one frame only |
| Environment.FindOwner | src/env.c:51-62 | the frame that owns the name, not beyond the def frame, and its entry |
| Environment.EnvUpdate | src/env.c:51-62 | overwrites the owner's entry; the heap then shows the tree with that one binding changed, or is untouched |
| Environment.EnvSet | src/env.c:20-29 | the linked heap afterwards shows the tree after the assignment: one frame, one name |
| Environment.EnvDefine | src/env.c:64-73 | the linked heap afterwards shows the tree with the name bound in that frame |
| Environment.EnvRemoveOwn | src/env.c:75-87 | unlinks the entry: the heap shows the tree without that binding |
| Environment.OneFrame | src/env.c:13-87 | changing the entries of one frame changes the abstract tree at that frame only, and no frame holds a name twice |
| Environment.Perform | src/env.c:4-87 | one operation on numbered frames moves the heap and the numbered tree alike and answers what the tree answers |
| Environment.Execute | src/env.c:4-87 | any list of operations from nothing: the linked heap shows the tree of the run, and every answer is the one of the tree |
| Patterns.MatchPattern | src/eval.c:718-787 | returns true exactly when the declarative relation holds, and then writes exactly the bindings of Written |
| Patterns.MatchCapture | src/eval.c:763-768 | binds the whole value after its sub-pattern matched |
| Patterns.MatchAlternative | src/eval.c:775-777 | tries left then right; what a failed left arm wrote stays |
| Patterns.MatchElements | src/eval.c:634-639 | consecutive elements against consecutive patterns |
| Patterns.MatchArrayPattern | src/eval.c:584-664 | exact, prefix, suffix and find patterns, with their rest bindings |
| Patterns.SearchWindows | src/eval.c:600-629 | the leftmost matching window and only the bindings written for it: failed windows leave none |
| Patterns.FindPattern | src/eval.c:600-629 | pre ++ window ++ post is the array, the window is the leftmost one |
| Patterns.TryWindow | src/eval.c:603-611 | one window against a fresh scratch frame |
| Patterns.FirstWindow | src/eval.c:600-611 | the first start at which the elements match, no earlier one does |
| Patterns.HasWindowIffSome | src/eval.c:600-611 | a window exists if and only if some start lets all elements match |
| Patterns.LeftmostWindow | src/eval.c:600-629 | the start found is the one the relation and the bindings refer to |
| Patterns.MatchHashPattern | src/eval.c:666-716 | all pairs match and the rest is what no key names |
| Patterns.MatchPairs | src/eval.c:680-694 | every key is present and its value matches; a missing key is skipped only for a bare capture |
| Patterns.MatchPair | src/eval.c:681-694 | one key of a hash pattern |
| Patterns.ShorthandAgreesIff | src/eval.c:681-694 | code and Ruby differ on a hash pattern, given its parts, exactly when a shorthand key is missing and every other pair matches |
| Patterns.MissingKeyMatches | src/eval.c:681-694 | a concrete input: the pattern of one shorthand key matches the empty hash |
| Patterns.RestOfHash | src/eval.c:698-714 | the entries whose keys are not mentioned, in order |
| Patterns.WrittenIsCaught | src/eval.c:718-787 | for every pattern a successful match binds the names it should plus exactly the spilled ones, and the very same values when nothing spills |
| Patterns.LinearBindsExactlyIff | src/eval.c:718-787 | a match of a pattern that names nothing twice gives every name its value, and binds exactly what the relation says if and only if no failed left arm has written anything |
| Patterns.QuietBindsWhatItCatches | src/eval.c:718-787 | a pattern whose or-arms capture nothing on the left binds exactly what the relation says, whatever the value |
| Patterns.FailedArmLeavesBinding | src/eval.c:775-777 | a concrete value and pattern whose failed left arm leaves a binding |
| Patterns.CaseIn | src/eval.c:1211-1236 | runs the first clause whose pattern and guard hold; captures of failed clauses are never published |
| PatternRules.ArrayRule | src/eval.c:584-664 | an array pattern matches exactly the arrays that are something, then one matching value for each element pattern, then something, where only a splat takes anything |
| PatternRules.ArrayBinds | src/eval.c:584-664 | of several such splits the leftmost is taken; the match binds what its elements bind and the named rests to the two sides |
| PatternRules.HashRule | src/eval.c:680-694 | a hash pattern matches when the first entry under each key does; only a bare capture may be without one |
| PatternRules.HashBindsRest | src/eval.c:698-714 | after a match with `**x`, x is bound to exactly the entries under keys that the pattern does not name, in their order |
| PatternRules.HashBindsPair | src/eval.c:680-694 | the match binds what the value under each key binds |
| PatternRules.RestExact | src/eval.c:698-714 | the rest of a hash: the entries at exactly the positions whose keys are not named, in order |
| PatternRules.RestLeavesOut | src/eval.c:698-714 | whatever the hash, looking up a named key in the rest finds nothing |
| PatternRules.RestKeeps | src/eval.c:698-714 | looking up any other key finds what the hash has |
| PatternRules.TakeRest | src/eval.c:698-714 | a concrete match: `{a:, **rest}` on `{a: 1, b: 2}` binds a to 1 and rest to `{b: 2}` |
| PatternRules.TakeMiddle | src/eval.c:600-629 | a concrete match: a find pattern takes the leftmost window and binds both sides |
| PatternRules.CaptureRule | src/eval.c:763-768 | a capture matches what its sub-pattern matches and binds the name to the whole value |
| PatternRules.OrRule | src/eval.c:775-777 | an alternative matches when an arm does; when the left one does not, what the right one binds stands |
| PatternRules.PinRule | src/eval.c:769-774 | a pin takes the value of its variable and no other |
| PatternRules.DeconstructRule | src/eval.c:586-591 | a value that is no array or hash is matched as what `deconstruct` or `deconstruct_keys` returns, the latter given the keys unless a rest follows |
| Arithmetic.RubyDivFloors | src/eval_dispatch.c:3073-3080 | truncated division with its correction is floor division, for divisors of either sign |
| Arithmetic.IntGcd | src/eval_dispatch_primitives.c:369-373 | the result is a common divisor that every common divisor divides |
| Arithmetic.GcdDivides | src/eval_dispatch_primitives.c:369-373 | Euclid's result divides both arguments |
| Arithmetic.Bezout | src/eval_dispatch_primitives.c:369-373 | Euclid's result is an integer combination of the arguments |
| Arithmetic.DividesGcd | src/eval_dispatch_primitives.c:369-373 | every common divisor divides it |
| Arithmetic.Gauss | src/eval_dispatch_primitives.c:369-373 | a divisor of a product that is coprime to one factor divides the other |
| Arithmetic.ModPow | src/eval_dispatch_primitives.c:610-621 | the result is congruent to n^exp; for mod > 0 it is the residue in [0, mod) exactly when mod > 1 or exp > 0, for mod < 0 it lies in (mod, 0] exactly when exp is odd or positive with mod dividing n^exp; for 0 < mod <= 3037000500 every product fits 64 bits |
| Arithmetic.PowHalves | src/eval_dispatch_primitives.c:613-619 | squaring the base and halving the exponent keeps the power |
| Arithmetic.SquareStep | src/eval_dispatch_primitives.c:613-619 | one round keeps result times what is left congruent to the power |
| Arithmetic.PowSum | src/eval_dispatch_primitives.c:613-619 | the power that is meant: n^1 is n and exponents add |
| Rationals.New | src/eval.c:3445-3465 | lowest terms, positive denominator, the value num/den; ZeroDivisionError exactly for den 0 |
| Rationals.CanonicalUnique | src/eval.c:3445-3465 | two fractions in lowest terms are the same object if and only if their values are equal |
| Rationals.Plus | src/eval.c:3467-3479 | the exact sum with a Rational or Integer in lowest terms, TypeError otherwise |
| Rationals.Minus | src/eval.c:3481-3493 | the exact difference |
| Rationals.Times | src/eval.c:3495-3506 | the exact product |
| Rationals.Over | src/eval.c:3508-3521 | the exact quotient; ZeroDivisionError exactly for an operand of value zero |
| Rationals.Negate | src/eval.c:3575 | the exact negative |
| Rationals.AbsoluteValue | src/eval.c:3577 | the exact absolute value |
| Rationals.SumsCommute | src/eval.c:3467-3479 | a + b and b + a are the same object |
| Rationals.SumsRegroup | src/eval.c:3467-3479 | (a + b) + c and a + (b + c) are the same object |
| Rationals.MinusUndone | src/eval.c:3467-3493 | subtracting and adding back gives the same object |
| Rationals.OverUndone | src/eval.c:3495-3521 | dividing and multiplying back gives the same object |
| Rationals.Equal | src/eval.c:3550-3561 | true if and only if the operand is a number of the same value |
| Rationals.Compare | src/eval.c:3537-3548 | the sign of the difference of the values, nil for a non-number |
| Rationals.Floor | src/eval.c:3597-3599 | the greatest integer not above the value |
| Rationals.Ceil | src/eval.c:3588-3595 | the least integer not below the value, through divmod |
| Rationals.Truncate | src/eval.c:3601-3607 | the integer part towards zero |
| Rationals.ToITruncatesIff | src/eval.c:3564 | `to_i` is the integer part if and only if the fraction is non-negative or whole |
| Rationals.Round | src/eval.c:3609-3615 | the integer q with q - 1/2 <= value < q + 1/2 |
| Rationals.RoundIsHalfAwayIff | src/eval.c:3609-3615 | this is rounding half away from zero if and only if the fraction is not negative with denominator 2 |
| Rationalize.ToExact | src/eval_dispatch_primitives.c:135-170 | the exact value in lowest terms whenever it is a quotient of two 64-bit words, the decimal approximation exactly when it is not; NaN and infinities raise |
| Rationalize.WholeFits | src/eval_dispatch_primitives.c:155-161 | the shifted bound accepts exactly the whole numbers that fit |
| Rationalize.DyadicFits | src/eval_dispatch_primitives.c:163-169 | with an odd mantissa only the fraction's own parts can fit |
| Rationalize.LowestTermsLeast | src/eval_dispatch_primitives.c:135-170 | a fraction in lowest terms has the smallest parts of all fractions of its value |
| Rationalize.FloatRationalize | src/eval_dispatch_primitives.c:237-286 | the guarded loop finds the same round as the ideal expansion: the first convergent within the tolerance or exact to machine epsilon, while convergents fit 64 bits; it is in lowest terms, fits 64 bits, has the sign of the float, lies within 1/k^2 of it and within the tolerance (or within machine epsilon/k^2); otherwise the result is the exact conversion |
| Rationalize.NegativeFloat | src/eval_dispatch_primitives.c:237-286 | a concrete input: -3.25 within 0.1 gives -13/4 |
| Rationalize.MagnitudeDoubles | src/eval_dispatch_primitives.c:135-170 | the value a mantissa and a shift stand for: one more doubles it |
| Rationalize.TracksNext | src/eval_dispatch_primitives.c:250-282 | each round keeps target = (x*h1 + h0)/(x*k1 + k0) and h1*k0 - h0*k1 = 1 or -1 |
| Rationalize.NextDet | src/eval_dispatch_primitives.c:261-262 | the determinant of successive convergents changes sign |
| Rationalize.NeighboursCoprime | src/eval_dispatch_primitives.c:261-271 | every convergent is in lowest terms |
| Rationalize.LastGap | src/eval_dispatch_primitives.c:261-271 | the last convergent misses the target by 1/(x*k1 + k0), on the side the determinant says |
| Rationalize.NextGap | src/eval_dispatch_primitives.c:261-271 | the next one misses it by the remainder over the same denominator, on the other side |
| Rationalize.ConvergentClose | src/eval_dispatch_primitives.c:261-282 | a convergent misses the target by at most the remainder over k^2 |
| Rationalize.GuardExact | src/eval_dispatch_primitives.c:257-260 | the overflow guards let exactly those results through that fit |
| Rationalize.SimplestIff | src/eval_dispatch_primitives.c:250-282 | the returned denominator is the smallest of all fractions within the tolerance if and only if the fraction one step before is out of it |
| Rationalize.FirstConvergentNotSimplest | src/eval_dispatch_primitives.c:250-282 | a concrete input: 3.25 within 0.1 gives 13/4, although 10/3 is within 0.1 |
| Rationalize.NextConvergent | src/eval_dispatch_primitives.c:252-264 | the guards of a round stop exactly the convergents that do not fit 64 bits |
| Rationalize.TryRound | src/eval_dispatch_primitives.c:251-282 | one round is one step of the ideal expansion, and keeps its invariant |
| Rationalize.Expand | src/eval_dispatch_primitives.c:250-283 | the loop finds what the ideal expansion finds in the same number of rounds |
| Rationalize.BetweenNeighbours | src/eval_dispatch_primitives.c:261-271 | a fraction strictly between two neighbours has at least the sum of their denominators |
| Substrings.Split | src/eval_dispatch_primitives.c:1562-1616 | for every separator: words for a single space, characters for an empty one, else the leftmost cut with at most `limit` pieces, or with every trailing empty piece and nothing else dropped |
| Substrings.TrimExact | src/eval_dispatch_primitives.c:1606-1613 | dropping trailing empty pieces leaves a prefix that does not end in one, and only empty pieces are gone |
| Substrings.WordsExact | src/eval_dispatch_primitives.c:1567-1584 | the words are those at exactly the positions where a word starts, in order, each up to the next white space; the last one a limit allows is all the rest |
| Substrings.Separates | src/eval_dispatch_primitives.c:1567-1584 | two words with a character between them are split exactly when it is a space, tab, newline or carriage return |
| Substrings.OnceExact | src/eval_dispatch_primitives.c:2896-2941 | sub puts the replacement in the place of the first occurrence and leaves a text without one |
| Substrings.CutAt | src/eval_dispatch_primitives.c:1596-1604 | the search loop returns the leftmost cut, the pieces from the last allowed one on staying together |
| Substrings.SplitWords | src/eval_dispatch_primitives.c:1567-1584 | the white-space loop returns the words, the last allowed one being all the rest |
| Substrings.WordsUndoJoinIff | src/eval_dispatch_primitives.c:1567-1584 | splitting on white space gives back what was joined with a space if and only if every piece is a word: not empty and without white space |
| Substrings.WordsOnly | src/eval_dispatch_primitives.c:1567-1584 | without a limit only words are returned, with one at most that many pieces |
| Substrings.JoinCharacters | src/eval_dispatch_primitives.c:1587-1594 | the pieces of an empty separator join to the string |
| Substrings.SplitIsLeftmostCut | src/eval_dispatch_primitives.c:1597-1604 | a list is the unlimited split of s if and only if it joins to s and every separator is the first occurrence from its piece |
| Substrings.JoinPieces | src/eval_dispatch_primitives.c:1597-1604 | joining the pieces gives the string back |
| Substrings.JoinSplit | src/eval_dispatch_primitives.c:1597-1604 | for every limit other than 0 joining the split gives the string back, in at most `limit` pieces |
| Substrings.JoinDefaultSplitIff | src/eval_dispatch_primitives.c:1606-1613 | the default split can be undone if and only if the string is empty or does not end in a separator |
| Substrings.Scan | src/eval_dispatch_primitives.c:2607-2624 | literal scan returns one copy of the needle for each cut that split makes |
| Substrings.Substitute | src/eval_dispatch_primitives.c:2896-2941 | literal gsub is the join of the split with the replacement, sub replaces the first occurrence; every write is inside the doubling buffer |
| Substrings.GsubIsJoin | src/eval_dispatch_primitives.c:2896-2941 | the character loop of gsub and the search loop of split agree |
| Substrings.EmptyNeedle | src/eval_dispatch_primitives.c:2896-2941 | with an empty needle the code is right exactly for an empty replacement |
| Substrings.BetweenAllIsJoin | src/eval_dispatch_primitives.c:2896-2941 | what an empty needle should give: the replacement between all characters and at both ends |
| Substrings.Grow | src/eval_dispatch_primitives.c:2908-2929 | the doubled buffer has the room asked for and keeps what was written |
| Substrings.JoinArray | src/eval_dispatch_collections.c:557-588 | joins at most 4096 strings in a buffer of exactly the measured size |
| Substrings.Measure | src/eval_dispatch_collections.c:562-580 | the measured size is the length of the joined text and its NUL |
| Substrings.SplitAndJoin | src/eval_dispatch_primitives.c:1585-1613 | for every separator but a single space join(split(s, sep, -1), sep) is s if and only if there are at most 4096 pieces |
| Substrings.FirstFromFirst | src/eval_dispatch_primitives.c:1597-1604 | strstr finds the first occurrence, and nothing only if there is none |
| Sorting.Sort | src/eval_dispatch_collections.c:1069-1114 | the in-place insertion sort computes the sorted sequence, or ArgumentError when a needed comparison fails |
| Sorting.InsertInPlace | src/eval_dispatch_collections.c:1073-1110 | one round of shifting inserts the key at its position and touches nothing behind it |
| Sorting.SortCorrect | src/eval_dispatch_collections.c:1069-1114 | for a weak order on the elements sorting succeeds; the result is ordered, a permutation, and keeps ties in order |
| Sorting.SortIsStableSort | src/eval_dispatch_collections.c:1069-1114 | a list is the result if and only if it is an ordered arrangement of the elements with every class of ties in the input order |
| Sorting.OrderedUnique | src/eval_dispatch_collections.c:1069-1114 | two ordered arrangements with the same classes of ties are equal |
| Sorting.InsertOrdered | src/eval_dispatch_collections.c:1072-1110 | inserting at the position found keeps the order |
| Sorting.InsertSameClass | src/eval_dispatch_collections.c:1072-1110 | passing over larger elements changes no class of ties |
| Sorting.Min | src/eval_dispatch_collections.c:789-807 | `min` is what the scan finds for any comparison, nil for an empty array; for a weak order it is the first element of the sorted array |
| Sorting.ScanIsUnbeaten | src/eval_dispatch_collections.c:789-843 | for any comparison, also one that fails on some elements: the answer beat the best before it, and nothing after it beats it |
| Sorting.MinIsFirst | src/eval_dispatch_collections.c:789-807 | for a weak order the scan of min finds the first element of the sorted array |
| Sorting.Max | src/eval_dispatch_collections.c:825-843 | `max` is what the scan finds for any comparison; for a weak order it ties with the last element of the sorted array, being the first of the ties while the sorted array ends with the last of them |
| Sorting.ScanIsFirstMax | src/eval_dispatch_collections.c:825-843 | for a weak order the scan of max finds the first of the greatest elements |
| Sorting.MaxIsLast | src/eval_dispatch_collections.c:825-843 | the first greatest element ties with the last of the sorted array |
| Sorting.MinN | src/eval_dispatch_collections.c:777-788 | the n-prefix of the sorted array; nil when a comparison fails, ArgumentError for a negative n |
| Sorting.MaxN | src/eval_dispatch_collections.c:811-824 | the reversed n-suffix of the sorted array |
| Sorting.SortAscends | src/eval_dispatch_collections.c:1069-1114 | when the answers of the comparison turn round with its arguments and are transitive, no element of the result is greater than a later one |
| Sorting.SortIntegers | src/eval_dispatch_collections.c:1069-1114 | integers are sorted upwards, none lost and none added |
| Sorting.MinAndMax | src/eval_dispatch_collections.c:789-843 | of integers min is the least and max the greatest |
| Sorting.LeastAndGreatest | src/eval_dispatch_collections.c:777-824 | of integers `min(n)` counts up from the least and `max(n)` down from the greatest |
| Sorting.ReversedAt | src/eval_dispatch_collections.c:811-824 | entry i of the reversed array is entry i from its end |
| BinarySearch.ArrayBsearch | src/eval_dispatch_collections.c:1182-1253 | least satisfying index or nil for a monotone predicate, a zero or nil for a monotone comparison; TypeError exactly when a probed answer does not fit the mode; at most floor(log2 n)+1 block calls, no index twice |
| BinarySearch.FindAnyInArray | src/eval_dispatch_collections.c:1202-1227 | the find-any loop with its cached first answer makes the same probes as the plain recursive search, and ends like it |
| BinarySearch.FindMinimumInArray | src/eval_dispatch_collections.c:1229-1252 | the find-minimum loop with its cached first answer makes the same probes as the plain recursive search |
| BinarySearch.RangeBsearch | src/eval_dispatch_collections.c:3035-3109 | the same answers on an integer range; the C arithmetic leaves 64 bits exactly for too wide a range or a last step beyond its end, which for monotone answers the two end answers decide |
| BinarySearch.FindAnyInRange | src/eval_dispatch_collections.c:3053-3078 | the find-any loop over inclusive bounds refines the recursive search; only its last step can leave 64 bits |
| BinarySearch.FindMinimumInRange | src/eval_dispatch_collections.c:3080-3108 | the find-minimum loop over inclusive bounds, remembering the last true probe, refines it too |
| BinarySearch.Ask | src/eval_dispatch_collections.c:1204-1213 | the answer at the first middle is taken from before the loop, every other one from a new call |
| BinarySearch.SearchAsksFew | src/eval_dispatch_collections.c:1182-1253 | the search asks at most floor(log2 n)+1 different indices, all in range |
| BinarySearch.SearchFits | src/eval_dispatch_collections.c:1194-1246 | it ends in a TypeError exactly when some probed answer does not fit the mode |
| BinarySearch.SearchEdge | src/eval_dispatch_collections.c:1202-1252 | for every block it closes in on an edge: from false to true, or from positive to negative |
| BinarySearch.TraceAnswers | src/eval_dispatch_collections.c:1182-1253 | for monotone blocks the edge is the least satisfying index, and its absence or a missing zero is real |
| BinarySearch.BitsIsLog | src/eval_dispatch_collections.c:1182-1253 | the bound on the calls is floor(log2 n) + 1 |
| BinarySearch.EdgeIsLeast | src/eval_dispatch_collections.c:1229-1252 | for a monotone predicate the edge is the least satisfying index |
| BinarySearch.NoZeroAtEdge | src/eval_dispatch_collections.c:1202-1227 | for a monotone comparison nothing is zero when the search closes in without one |
| BinarySearch.LastStepOfMinimum | src/eval_dispatch_collections.c:3080-3108 | the last step leaves 64 bits iff the top is 2^63-1 and its answer is not true, or the bottom is -2^63 and its answer is true |
| BinarySearch.LastStepOfAny | src/eval_dispatch_collections.c:3053-3078 | the last step leaves 64 bits iff the top is 2^63-1 with a positive answer, or the bottom is -2^63 with a negative one |
| BinarySearch.NothingUpToTheTop | src/eval_dispatch_collections.c:3080-3108 | a concrete input: a block that is never true on 0..2^63-1 finds nothing and steps out of 64 bits |
| BinarySearch.EverythingUpToTheTop | src/eval_dispatch_collections.c:3080-3108 | a block that is always true on the same range finds 0 and does not |
| BinarySearch.FindNumber | src/eval_dispatch_collections.c:1202-1227 | on 0..n-1, comparing with t finds t exactly when it is there |
| BinarySearch.FindFrom | src/eval_dispatch_collections.c:1229-1252 | on 0..n-1, a block that is true from t on and nil before finds the first index from t on |
| BinarySearch.FindNumberBetween | src/eval_dispatch_collections.c:3053-3078 | on an exclusive integer range, comparing with t finds t exactly when it is there |
| BinarySearch.FindFromBetween | src/eval_dispatch_collections.c:3080-3108 | on an inclusive one, a block that is true from t on finds the first number from t on |
| Arena.Arena.constructor | src/arena.c:14-18 | one empty block, nothing handed out |
| Arena.Arena.Alloc | src/arena.c:20-35 | the region is inside its block, 8-aligned in it, zeroed, of the rounded size and disjoint from all earlier ones, whose bytes are unchanged |
| Arena.Arena.MakeRoom | src/arena.c:24-29 | afterwards the newest block has room, and closed blocks still cost at most twice what was handed out |
| Arena.Arena.AddBlock | src/arena.c:25-28 | a new block in front of the list, the others unchanged |
| Arena.Arena.Take | src/arena.c:32-34 | the front of the unused part, disjoint from everything handed out before |
| Arena.Arena.Footprint | src/arena.c:20-35 | total capacity is at most twice the sum of the rounded sizes plus 64 KiB |
| Arena.Arena.Free | src/arena.c:37-45 | every block of the list, and so every block behind a region, is given back exactly once; the list is empty |
| Arena.Run | src/arena.c:14-35 | any run of requests from an empty arena: one region of the rounded size each, with the invariant that keeps them disjoint and the space bounded |
| Inspect.InspectString | src/eval_dispatch_primitives.c:1799-1828 | prints every byte in its escaped form between quotes, inside a buffer of 4*len + 3 bytes |
| Inspect.PutByte | src/eval_dispatch_primitives.c:1806-1823 | one branch of the switch writes the escaped form of its byte |
| Inspect.Undump | src/eval_dispatch_primitives.c:1052-1091 | reads units between the quotes in a buffer one byte longer than the text |
| Inspect.PutUnit | src/eval_dispatch_primitives.c:1061-1087 | one escape or one plain byte |
| Inspect.ReadHex | src/eval_dispatch_primitives.c:1074-1081 | at most two hex digits and their value |
| Inspect.OneBack | src/eval_dispatch_primitives.c:1061-1087 | reading the printed form of a byte gives it back whatever follows |
| Inspect.RoundTrip | src/eval_dispatch_primitives.c:1052-1091 | undump(inspect(s)) is s for every string |
| Inspect.PrintedDiffers | src/eval_dispatch_primitives.c:1799-1828 | different strings print differently |
| Inspect.EscapeTable | src/eval_dispatch_primitives.c:1806-1823 | the six escapes with a letter of their own |
| Inspect.EscapeControl | src/eval_dispatch_primitives.c:1806-1823 | every other control character is printed as two lower-case hex digits |
| Inspect.EscapePlain | src/eval_dispatch_primitives.c:1806-1823 | everything else is printed as it is |
| Inspect.UndumpTable | src/eval_dispatch_primitives.c:1063-1072 | what each one-letter escape is read as |
| Inspect.UndumpTwoDigits | src/eval_dispatch_primitives.c:1073-1080 | two hex digits of either case are read as the byte they stand for |
| Inspect.UndumpOneDigit | src/eval_dispatch_primitives.c:1073-1080 | one digit is read alone when no other follows |
| Inspect.UndumpNoDigit | src/eval_dispatch_primitives.c:1073-1080 | without a digit the escape is the byte 0 |
| Inspect.UndumpOther | src/eval_dispatch_primitives.c:1081 | a backslash before any other letter stays with the letter |
| Inspect.UndumpQuotes | src/eval_dispatch_primitives.c:1054-1057 | a quote at one end only is dropped too, a lone one stays |
| Utf8.Encode | src/eval_dispatch_primitives.c:544-560 | one to four bytes, the first announcing the width and the others continuation bytes |
| Utf8.Chr | src/eval_dispatch_primitives.c:544-560 | RangeError exactly outside 0..0x10FFFF |
| Utf8.ShortestForm | src/eval_dispatch_primitives.c:544-560 | no shorter string that starts with a first byte is read as the same code point, as RFC 3629 section 3 demands |
| Utf8.Codepoints | src/eval_dispatch_primitives.c:2014-2030 | the loop computes the decoding of the whole byte string |
| Utf8.ReadOne | src/eval_dispatch_primitives.c:2018-2027 | width and bits of the first byte, then six bits from each further byte |
| Utf8.DecodeOne | src/eval_dispatch_primitives.c:2014-2030 | reading a character wherever its bytes stand gives its code point back |
| Utf8.RoundTrip | src/eval_dispatch_primitives.c:2014-2030 | decoding the concatenation of chr(n_i) gives back exactly the n_i, for every list in 0..0x10FFFF |
| Utf8.PrefixFree | src/eval_dispatch_primitives.c:544-560 | a string that starts with two characters starts with one and the same |
| Utf8.TextsDiffer | src/eval_dispatch_primitives.c:544-560 | texts are equal if and only if the lists of code points are |
| Utf8.EncodeTable | src/eval_dispatch_primitives.c:544-560 | the bytes are the digits of the code point in base 64 above their markers |
| Utf8.EuroSign | src/eval_dispatch_primitives.c:544-560 | a concrete character both ways, a character that is cut off and a stray continuation byte |

## Left out

- Blocks, class checks, `===`, comparisons and hash lookup are pure functions handed to the model; what a block does to the interpreter is not modelled, except that control flow threads an arbitrary state through user code.
- File, process, `ENV` and `require` code, the lexer and parser, regular expressions and method lookup.
- Floating-point rounding, and `**`, which goes through C `pow`.
- Rationals.New: float arguments, which are scaled by 10^7 and rounded.
- Rationals.Plus: a float operand, which turns the result into a float.
- Rationals.Minus: a float operand.
- Rationals.Times: a float operand.
- Rationals.Over: a float operand.
- Rationals.Equal: a float operand.
- Rationals.Compare: a float operand.
- Rationalize.ToExact: the 7-digit decimal fallback is a result without a value.
- Rationalize.FloatRationalize: a finite float is the dyadic number it stands for and the expansion is exact; the rounding of x, the remainder and the quotient in C doubles is not modelled.
- ControlFlow: line and column of an exception, `__cause__`, the scope of the rescue variable, `throw`, `BEGIN` and `END` blocks, internal errors (`errored`) and truncation of long messages; a class in a rescue clause is a name that resolves or does not. `Run` is bounded by fuel, and `MoreFuel` shows that every terminating run is independent of the bound; runs that do not end are not described.
- ControlFlow.Evaluator.ClauseMatches: a class expression in a rescue clause is a name that resolves or does not; other expressions, and classes that are not exceptions, are not modelled.
- ControlFlow.Evaluator.EvalBody: the passes over `BEGIN` and `END` blocks.
- ControlFlow.Evaluator.RaiseValue: the cause, line and column of the exception.
- ControlFlow.Evaluator.Eval: the claim is for programs run with no exception in flight on entry, which every rescue and ensure body establishes.
- ControlFlow.BeginAgreesIff: is about one begin with its parts run as the code runs them; `RubyAttemptsAreRuby` says when that is Ruby's reading, and `RubyAgrees` is about whole programs.
- ControlFlow.LoopAgreesIff: the same for one loop, with `RubyLoopIsRuby`; a `retry` in the condition of the loop stands in a rescue clause inside the condition.
- Environment: the table of globals; names are compared as strings.
- Patterns: the matcher writes into a map instead of linked frames (Environment covers those); an exception raised by a guard is a failed guard, and the registers it leaves are not modelled; float, interpolated and regular-expression patterns are one case with a given answer.
- Patterns.WrittenIsCaught: for a pattern that names a variable twice, which Ruby refuses, only the names are given when a failed arm spills bindings; for all others `LinearBindsExactlyIff` gives the values.
- Patterns.QuietBindsWhatItCatches: is about patterns for which nothing can spill; the exact condition for a given value is in `LinearBindsExactlyIff`.
- Patterns.ShorthandAgreesIff: is about one hash pattern whose parts match as in the code.
- PatternRules.HashBindsRest: a hash holds no key twice, as `val_hash_set` sees to; `RestLeavesOut` is about any list of entries.
- Programs.RescueRule: is about a begin without ensure and a clause that does not end in retry; `EnsureRule` and `RetryRule` are about those.
- Enumerators.RepeatedCombination: a negative count is not modelled, because the C conversion to an unsigned size overruns the 64-slot buffer; the same holds for counts over 64 in all forms.
- Enumerators.RepeatedPermutation: a negative count is not modelled, for the same reason.
- Substrings.Split: a regular expression as the separator; a string is its sequence of characters, so bytes that are no UTF-8 are not described.
- Substrings.Scan: a block, and the regular-expression forms.
- Substrings.Substitute: a block or hash as the replacement.
- Substrings.JoinArray: nested arrays and objects, whose text comes from other calls.
- Sorting: ints and floats compare as one given order; the block form of `sort` is the same loop with the block as the order.
- BinarySearch: the float range, whose midpoints are rounded.
- Arena: `malloc` succeeds and sizes do not overflow; alignment is relative to the data of a block, whose header is 24 bytes.
- Inspect: `inspect` prints control bytes only in the escapes shown; `dump`, which goes through another printer, is not modelled.
