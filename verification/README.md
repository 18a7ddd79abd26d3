# Verified model of the analysis core of SonarJS

SonarJS reports defects in JavaScript and TypeScript programs. Many of its rules are claims
about every execution ("this store is useless", "this loop never ends", "this quantifier only
ever matches `min` repetitions"); others are small machines that are driven by a tree
traversal. This project states those claims against a semantics of the analysed program or
regular expression and proves them for all inputs, and proves the machines equal to
declarative specifications of what they should report.

`dafny verify dfyconfig.toml` checks the whole project (Dafny 4.11).

| module | what it models |
|---|---|
| `RegexMatcher` | regular expressions without captures: the continuation matcher of section 22.2.2 of ECMA-262 (14th edition), ordered lists of end positions, and the proof that both agree |
| `ReluctantQuantifiers` | the rule on reluctant quantifiers, its verdicts read as edits of the pattern |
| `EmptyStringRepetition` | the rule on repeating something that can be empty |
| `LiveVariablesAnalysis` | the worklist solver for live variables and what its result means |
| `DeadStores` | the backward pass over a segment, and what a report says about the collected references of every path |
| `AssignmentOrder` | the stack that hands over the right-hand side of an assignment before its left-hand side |
| `EvaluationOrder`, `EvaluationFaults` | the collected order against the order of evaluation (section 13.15.2 of ECMA-262, 14th edition): what a report is worth in executions, and exactly when |
| `InfiniteLoops` | the search for end conditions, judged by completion records (section 6.2.4 of ECMA-262, 14th edition) |
| `ParameterReassignment`, `ParameterReports` | the chain of contexts of the rule on reassigned parameters, and when it reports, said of the events alone |
| `ExpressionComplexity`, `NestedControlFlow` | two stacks driven by enter and exit handlers |
| `ForLoopIncrement`, `EqualsInForTermination` | counter loops over real numbers |
| `ImplicitDependencies` | the two caches of the dependency resolver |
| `FilePermissions` | resolving a mode through possibly cyclic definitions |
| `NewRule` | the section parsers and sorted insertions of the tool that registers a rule |
| `ShutdownTimeout` | the watchdog that shuts an idle server down |
| `CommentedCode` | grouping comments, balancing braces |
| `Positions` | positions in a tree, and lists of what is found at them, each thing once and in the order of a traversal |

Recursive visitors, handlers with mutable stacks and loops are classes and methods, each tied
by its postcondition to a function of the old state; the properties are lemmas about those
functions. Tree positions, or numbers, stand for object identity.

## Where the code does not do what it says

Each of these is a lemma with a concrete input, next to the theorem that says exactly when the claim does hold.

- The reluctant quantifier rule ignores the flags of the pattern. Removing the `?` before `$`
  is safe for all patterns and inputs exactly when `m` is not set
  (`FixIsSafeExactlyWithoutMultiline`; `\n*?$` in `MultilineCounterexample`). For a given
  pattern it is safe with `m` too if what is repeated does not match a text that starts with
  a line terminator (`FixIsSafeAwayFromLineTerminators`).
- The dead store rule collects the references of an assignment when it leaves it, right-hand
  side first, which is not always what is executed. In `let i = g(); a[i] = (i = 2); return i;`
  the first store is reported and read (`MemberTargetIsEvaluatedFirst`), and so it is where a
  branch inside an assignment is collected as if it were always taken
  (`BranchIsTakenForAlwaysEvaluated`). A piece of code as it is written is judged rightly in
  every program around it exactly when its collected references stand for each of its
  evaluations (`JudgedRightlyExactlyWhenForeseen`). A condition on the syntax alone, that no
  assignment has a clash between what it evaluates early and its other side, and that no branch
  or default value inside an assignment overwrites a variable, is enough, and it is exact when
  the other references may be renamed (`JudgedRightlyExactlyWhenOrderly`); without renaming they
  can hide a clash, as in `a[i] = (i, i = 2)` (`ShieldedClashIsJudgedRightly`).
- A segment that overwrites a variable and then reads it counts as reading it first, so dead
  stores before it are missed (`OverwriteThenReadHidesADeadStore`), exactly when the segment of
  the store does not access the variable again and each segment reached that reads it
  overwrites it first (`StoreIsMissedExactly`).
- A loop reported as endless can end through a `continue` to an outer label
  (`OuterContinueEndsAReportedLoop`) or a `yield` in the head of a `for`
  (`YieldInHeadEndsAReportedLoop`). It never ends exactly when its syntax leaves it no such way
  out (`ReportedLoopNeverCompletes`); a `continue` that nothing reaches is none
  (`UnreachedContinueIsNoWayOut`).
- The exception for loops that step by one towards a literal looks for references to a declared
  counter strictly inside the range of the body. A reference at an edge of the range escapes it
  (`ReferenceAtTheEdgeEscapes`), so does one in a function that the body calls
  (`CalledFunctionEscapes`), and so does every one to a counter that is not declared
  (`UndeclaredCounterEscapes`). A loop let through stops for every body exactly when the counter
  is declared, no reference to it is in the closed range or in a function, and the distance is
  whole (`AcceptedLoopStopsExactly`).
- A definition is followed once per mode argument, so `x | x` resolves to nothing
  (`SecondUseIsNotFollowed`), and so does `0 | 7` (`ZeroOperandIsDropped`). A mode is found
  exactly when no definition is used twice and no operand is read as zero
  (`ResolvedModeIsTheMeaning`).
- A number literal that starts with a zero is read as octal digits, so `0x1ff` is taken for 0 and
  not flagged (`HexLiteralIsReadAsZero`). A literal is read rightly exactly when it does not
  start with a zero, is marked by `0o`, consists of octal digits, or is zero
  (`LiteralIsReadRightly`). What is found for an expression is its value exactly when its only
  leaf is read rightly, or when its leaves together have the same bits as they are read
  (`ModeIsTheValueExactly`), and it is flagged for others as its value is exactly when low bits
  are read where there are some (`FlagIsRightExactly`).
- For a relative file name the walk upwards is cut at `.`, which is no ancestor of `..`
  (`RelativeNamesEndAtDot`); from an absolute one it passes exactly the directories on the way to
  the root (`AboveAbsolute`).
- With overlapping requests the shutdown timer can run while one is in flight
  (`OverlapLetsTheTimerRun`); `CallbackInFlightExactly` says when.

## Model

| member | source | states |
|---|---|---|
| ReluctantQuantifiers.FixKeepsSearch | src/linting/eslint/rules/no-empty-after-reluctant.ts:26-71 | replacing every quantifier said to match only `min` repetitions by exactly `{min}`, and making every needlessly lazy one greedy, changes no search of the whole pattern: same start, same end, from every index of every input; assertions are decided by an arbitrary oracle, and only the verdict on `$` needs that what is repeated matches nothing but the empty text where `$` holds |
| ReluctantQuantifiers.VerdictsByPlace | src/linting/eslint/rules/no-empty-after-reluctant.ts:44-71 | the rule says `min` repetitions exactly of a lazy quantifier that is last, or last but one before a greedy one with minimum 0, and says needlessly lazy exactly of one that only `$` follows |
| ReluctantQuantifiers.SilenceIsNeeded | src/linting/eslint/rules/no-empty-after-reluctant.ts:59-70 | before an element that matches the `b` of `ab` and not its `a`, reading `a*?` as `a{0}` changes the match, so the rule has to be silent there |
| ReluctantQuantifiers.ElementsThatNeedSilence | src/linting/eslint/rules/no-empty-after-reluctant.ts:59-70 | characters, groups, quantifiers with a positive minimum and word boundaries are such elements, and the rule is silent before them |
| ReluctantQuantifiers.LazyIgnoresUpperBound | src/linting/eslint/rules/no-empty-after-reluctant.ts:34-42 | the end a lazy repetition offers first does not depend on its upper bound, so it is the one exactly `min` repetitions offer first |
| ReluctantQuantifiers.LazyReachesLikeGreedy | src/linting/eslint/rules/no-empty-after-reluctant.ts:59-66 | lazy and greedy repetition reach the same set of end positions |
| ReluctantQuantifiers.FixIsSafeExactlyWithoutMultiline | src/linting/eslint/rules/no-empty-after-reluctant.ts:59-66 | the edits are safe for all patterns, inputs and indices if and only if the multiline flag is off |
| ReluctantQuantifiers.LazyStopsLikeGreedy | src/linting/eslint/rules/no-empty-after-reluctant.ts:59-66 | before `$`, lazy and greedy repetition offer the same ends in the same order if the element stops where `$` holds |
| ReluctantQuantifiers.FixIsSafeAwayFromLineTerminators | src/linting/eslint/rules/no-empty-after-reluctant.ts:59-66 | with or without the multiline flag, the edits of a given pattern are safe if no needlessly lazy element matches a text that starts with a line terminator |
| ReluctantQuantifiers.MultilineCounterexample | src/linting/eslint/rules/no-empty-after-reluctant.ts:59-66 | with the multiline flag, `\n*?$` and its greedy form match different spans of a line feed |
| EmptyStringRepetition.ReportsByPosition | src/linting/eslint/rules/empty-string-repetition.ts:28-37 | the bodies reported are, in the order of entering, those of exactly the quantifiers at the positions of the pattern, lookarounds included, whose body passes the test, each once |
| EmptyStringRepetition.TestIsEmptyMatchWithoutIteration | src/linting/eslint/rules/empty-string-repetition.ts:41-56 | an element passes the test if and only if the matcher can match the empty string with it when no iteration of a quantifier can |
| EmptyStringRepetition.ReportsExactlyWhenSomeBodyMatchesEmpty | src/linting/eslint/rules/empty-string-repetition.ts:26-56 | the rule reports something in a pattern if and only if a quantifier at some position of it has a body for which the matcher can match the empty string, assertions succeeding |
| EmptyStringRepetition.NullableIffMatchesEmpty | src/linting/eslint/rules/empty-string-repetition.ts:41-56 | nullability by recursion agrees with the matcher, in every input and at every position |
| EmptyStringRepetition.InnermostIsReported | src/linting/eslint/rules/empty-string-repetition.ts:28-37 | below every repeated nullable body there is a quantifier that passes the rule's shortcut test |
| LiveVariablesAnalysis.Lva | src/linting/eslint/rules/helpers/lva.ts:26-36 | the worklist terminates with the least solution of the liveness equations and the matching `out` of every segment |
| LiveVariablesAnalysis.Propagate | src/linting/eslint/rules/helpers/lva.ts:98-139 | one propagation computes the transfer function of the segment and tells whether `in` lacked something |
| LiveVariablesAnalysis.LeastSolutionIsLiveness | src/linting/eslint/rules/helpers/lva.ts:61-78 | a variable is in `in` of a segment if and only if some path from it reaches a segment that reads the variable through segments that do not write it |
| DeadStores.LiveVariablesMap.Add | src/linting/eslint/rules/helpers/lva.ts:85-96 | a resolved reference is collected once, in order, and `gen` and `kill` stay the reads and writes of the references |
| DeadStores.CheckSegment | src/linting/eslint/rules/no-dead-store.ts:124-142 | the backward pass reports exactly the reportable stores not read before being overwritten, last first; a reference that reads and writes reads first |
| DeadStores.LivenessIsOnReferences | src/linting/eslint/rules/helpers/lva.ts:85-111 | the solver's input makes a variable live exactly where a walk over the segments leads, through segments whose references do not write it, to one whose references read it |
| DeadStores.ReportDeadStores | src/linting/eslint/rules/no-dead-store.ts:94-100 | solver and pass together report exactly the reportable stores that no walk over the segments may read, stated on the segments and their references |
| DeadStores.ReportedStoreIsNeverRead | src/linting/eslint/rules/no-dead-store.ts:124-142 | on every continuation of a reported store, references taken in the order collected, the variable is overwritten, or the path ends, before any read |
| DeadStores.ReportedStoreIsUseless | src/linting/eslint/rules/no-dead-store.ts:124-142 | replacing the value written by a reported store changes no value read on any continuation in the order collected, for every program computing its writes from what it has read |
| DeadStores.StoreIsReadExactly | src/linting/eslint/rules/helpers/lva.ts:85-111 | some continuation reads a store if and only if its segment does first, or a path leads through segments that do not write the variable to one that reads it first |
| DeadStores.StoreIsMissedExactly | src/linting/eslint/rules/no-dead-store.ts:124-142 | the rule leaves alone a store that no continuation reads if and only if its segment does not access the variable again, some path comes to a segment that reads it, and none comes to one that reads it first |
| DeadStores.OverwriteThenReadHidesADeadStore | src/linting/eslint/rules/helpers/lva.ts:85-96 | a two-segment program whose dead store is missed |
| AssignmentOrder.VisitCodePath | src/linting/eslint/rules/no-dead-store.ts:59-64 | for every tree, the segment receives every reference once, and right-hand references before left-hand ones at every depth |
| AssignmentOrder.RightHandSideFirst | src/linting/eslint/rules/no-dead-store.ts:118-122 | among the flushed references all under the right-hand side of an assignment precede all under its left-hand side |
| AssignmentOrder.FlushedExactlyOnce | src/linting/eslint/rules/no-dead-store.ts:274-284 | the flushed references are a permutation of those seen, without repetition |
| AssignmentOrder.FindSide | src/linting/eslint/rules/no-dead-store.ts:384-400 | walking up from an identifier finds the side of the assignment whose position is a prefix of the identifier's, or none |
| AssignmentOrder.CodePathContext.Visit | src/linting/eslint/rules/no-dead-store.ts:114-122 | visiting a subtree never fails, restores the stack of open assignments and appends what the subtree flushes where its references go |
| EvaluationOrder.CollectedIsFlushed | src/linting/eslint/rules/no-dead-store.ts:118-122 | the references collected for a piece of code are those at the positions that the visitor flushes, in this order |
| EvaluationOrder.EvaluationIsSimulated | src/linting/eslint/rules/no-dead-store.ts:274-284 | where both orders agree, whatever an evaluation reads first, at its start or behind any of its stores, the collected references read first too |
| EvaluationOrder.ForeseenProgramIsJudgedRightly | src/linting/eslint/rules/no-dead-store.ts:124-142 | if the collected references of every segment stand for each of its evaluations, no execution reads a store that the rule takes for dead |
| EvaluationOrder.OrderlyProgramIsJudgedRightly | src/linting/eslint/rules/no-dead-store.ts:124-142 | so it is if every segment is orderly, in the order of evaluation and for any outcomes of conditions |
| EvaluationOrder.DeadStoreIsUseless | src/linting/eslint/rules/no-dead-store.ts:124-142 | in such programs, replacing the value written by a store judged dead changes no value that any execution reads |
| EvaluationFaults.JudgedRightlyExactlyWhenForeseen | src/linting/eslint/rules/no-dead-store.ts:118-142 | a piece of code as it is written is judged rightly in every program around it if and only if, for every evaluation and variable, whatever is read first at its start or behind a store is read first among the collected references |
| EvaluationFaults.JudgedRightlyExactlyWhenOrderly | src/linting/eslint/rules/no-dead-store.ts:118-142 | with every choice of references that keep their variables to themselves, it is judged rightly in every program around it if and only if it is orderly |
| EvaluationFaults.ShieldedClashIsJudgedRightly | src/linting/eslint/rules/no-dead-store.ts:118-122 | `a[i] = (i, i = 2)` is not orderly, yet judged rightly wherever it stands |
| EvaluationFaults.FindFault | src/linting/eslint/rules/no-dead-store.ts:118-122 | code that is not orderly has an overwriting reference that is collected but need not be evaluated, or two references collected the other way round than evaluated |
| EvaluationFaults.MemberTargetIsEvaluatedFirst | src/linting/eslint/rules/no-dead-store.ts:118-122 | `let i = g(); a[i] = (i = 2); return i;`: a store judged dead that an execution reads |
| EvaluationFaults.BranchIsTakenForAlwaysEvaluated | src/linting/eslint/rules/no-dead-store.ts:274-284 | `let x = g(); let y = c ? (x = 1) : 0; if (d) { return x; } return y;`: a store judged dead that an execution reads |
| InfiniteLoops.LoopVisitor.Visit | src/linting/eslint/rules/no-infinite-loop.ts:133-161 | the visitor sets its flag exactly when there is an end condition at or below the node |
| InfiniteLoops.HasEndExactlyAtSomePosition | src/linting/eslint/rules/no-infinite-loop.ts:133-161 | the visitor finds an end condition if and only if some position of the body, outside functions, holds a return, throw, yield or labelled break, or a break with no while, do or for on the way to it |
| InfiniteLoops.CheckLoop | src/linting/eslint/rules/no-infinite-loop.ts:89-113 | a loop is reported exactly when its test is absent or literally true and no position of its body holds an end condition |
| InfiniteLoops.WithoutEndIsHarmless | src/linting/eslint/rules/no-infinite-loop.ts:133-161 | a statement without an end condition completes normally, with an unlabelled continue, with a continue to an escaping label, or, inside a nested loop, with an unlabelled break |
| InfiniteLoops.ReportedLoopCompletion | src/linting/eslint/rules/no-infinite-loop.ts:89-113 | a reported loop can complete only through a continue that aims beyond it or a yield in the head of a `for` |
| InfiniteLoops.OutcomesAreTheCompletions | src/linting/eslint/rules/no-infinite-loop.ts:133-161 | the completions computed from the syntax of a statement are exactly those it can have, for any outcomes of its conditions |
| InfiniteLoops.ReportedLoopNeverCompletes | src/linting/eslint/rules/no-infinite-loop.ts:89-113 | no evaluation of a reported loop ever completes if and only if the initialization of a `for` cannot yield, the body cannot complete with a continue aimed beyond the loop, and cannot come to an update that yields |
| InfiniteLoops.NoEscapeNoWayOut | src/linting/eslint/rules/no-infinite-loop.ts:89-113 | a body without a continue that aims beyond the loop, and a head without yield, leave no way out |
| InfiniteLoops.UnreachedContinueIsNoWayOut | src/linting/eslint/rules/no-infinite-loop.ts:133-161 | a reported loop with an escaping continue that still never completes |
| InfiniteLoops.OuterContinueEndsAReportedLoop | src/linting/eslint/rules/no-infinite-loop.ts:133-161 | a reported loop that completes through a labelled continue |
| InfiniteLoops.YieldInHeadEndsAReportedLoop | src/linting/eslint/rules/no-infinite-loop.ts:89-101 | a reported loop that completes through a yield in its head |
| ParameterReassignment.InvHoldsInEveryRun | src/linting/eslint/rules/no-parameter-reassignment.ts:119-227 | in every sequence of events, a name marked for its declaring context stays read in every live context that sees that declaration and can still check the name |
| ParameterReassignment.ReportedOnceAndFirst | src/linting/eslint/rules/no-parameter-reassignment.ts:54-88 | a name is reported at most once per declaring context, and only as its first counted use there, even with extra exits |
| ParameterReassignment.ReassignmentRule.Handle | src/linting/eslint/rules/no-parameter-reassignment.ts:113-227 | the handlers take the object through the states of the run, and the issues are those reported in its log |
| ParameterReassignment.CheckEvents | src/linting/eslint/rules/no-parameter-reassignment.ts:54-88 | for every sequence of events the issues are, with their identifiers and in order, the reports of the run, and no two reports are of one name for the same declaring context |
| ParameterReports.CheckProgram | src/linting/eslint/rules/no-parameter-reassignment.ts:54-88 | the issues are exactly those of the events that raise one, in order: a use in a context of the current kind whose nearest reference is an unconditional write only, not an initialization and not mentioning the name itself, of a name that an open context declares and no function exempts, and that was not read since |
| ParameterReports.RunMatches | src/linting/eslint/rules/no-parameter-reassignment.ts:113-306 | after every sequence of events, each open context checks and has read exactly the names that the events say |
| ParameterReports.ReadRaisesNothing | src/linting/eslint/rules/no-parameter-reassignment.ts:71-75 | a parameter that is only read is not reported |
| ParameterReports.ReassignmentIsRaised | src/linting/eslint/rules/no-parameter-reassignment.ts:71-82 | a parameter that is assigned first is |
| ParameterReassignment.ReassignmentRule.MarkRead | src/linting/eslint/rules/no-parameter-reassignment.ts:288-293 | a name is marked in every context from the current one up to its declarer |
| ParameterReassignment.ReassignmentRule.MarkAllFunctionArgumentsAsRead | src/linting/eslint/rules/no-parameter-reassignment.ts:295-306 | the nearest enclosing function has its own variables marked, nothing else changes |
| ExpressionComplexity.CheckProgram | src/linting/eslint/rules/expression-complexity.ts:38-68 | for every tree and maximum, the issues are exactly the outermost conditionals of a scope with more operators than allowed, with those operators, each once and in the order in which they are left |
| ExpressionComplexity.ComplexityRule.Traverse | src/linting/eslint/rules/expression-complexity.ts:42-99 | the visit of a subtree restores the stack below and completes the groups of the subtree |
| ExpressionComplexity.GroupsAreTheOutermostConditionals | src/linting/eslint/rules/expression-complexity.ts:52-66 | the groups completed are those at positions that hold a conditional with no conditional above it in its scope |
| ExpressionComplexity.OperatorsAreConserved | src/linting/eslint/rules/expression-complexity.ts:44-63 | every conditional node is an operator of exactly one group, or of the conditional around the tree |
| ExpressionComplexity.OperatorsAreListed | src/linting/eslint/rules/expression-complexity.ts:44-50 | the operators counted are, in order, those of the conditional nodes at the positions of the same scope, each once |
| NestedControlFlow.CheckProgram | src/linting/eslint/rules/nested-control-flow.ts:38-92 | the issues are exactly the control-flow statements, not else-ifs, around which `threshold` statements nest, an else-if chain counting once for its innermost member; each is raised once, in the order in which they are entered, with their tokens |
| NestedControlFlow.NestingRule.Traverse | src/linting/eslint/rules/nested-control-flow.ts:76-91 | the visit of a subtree restores the stack, an else-if leaving the token of its chain's last member |
| NestedControlFlow.PositionHasIssue | src/linting/eslint/rules/nested-control-flow.ts:48-59 | every statement at the threshold is reported, wherever it is in the tree |
| ImplicitDependencies.Resolver.GetDependencies | src/linting/eslint/rules/no-implicit-dependencies.ts:158-190 | every call returns the union over the directory and all above it, terminates, and keeps both caches equal to their uncached meaning |
| ImplicitDependencies.AboveIsUnionOverAncestors | src/linting/eslint/rules/no-implicit-dependencies.ts:168-187 | that union has exactly the dependencies found some number of levels up |
| ImplicitDependencies.DirnameClimbs | src/linting/eslint/rules/no-implicit-dependencies.ts:181-186 | going to the parent directory makes progress until a directory is its own parent |
| ImplicitDependencies.AboveAbsolute | src/linting/eslint/rules/no-implicit-dependencies.ts:168-187 | for an absolute directory the union is over its prefix directories, down to the root, and no others |
| ForLoopIncrement.DirectionIsSign | src/linting/eslint/rules/for-loop-increment-sign.ts:144-162 | a direction other than zero is the sign of the step, which then has a value in every environment |
| ForLoopIncrement.UpdateMovesCounter | src/linting/eslint/rules/for-loop-increment-sign.ts:75-142 | evaluating the update moves the counter in the direction found |
| ForLoopIncrement.ReportedTestKeepsHolding | src/linting/eslint/rules/for-loop-increment-sign.ts:39-59 | in a reported loop with an unchanged bound and a body that leaves the counter alone, a test that holds once holds after any number of updates |
| ForLoopIncrement.ReportedExactly | src/linting/eslint/rules/for-loop-increment-sign.ts:39-187 | a loop is reported if and only if its update adds a signed literal to a counter that is negative where the test keeps the counter below something, or positive where it keeps it above |
| EqualsInForTermination.AcceptedLoopStops | src/linting/eslint/rules/no-equals-in-for-termination.ts:124-142 | a loop let through by the exception, whose body leaves the counter alone, stops after n iterations if and only if n is the distance between its literals; it never stops when that is not whole |
| EqualsInForTermination.AcceptedLoopStopsExactly | src/linting/eslint/rules/no-equals-in-for-termination.ts:124-188 | a loop let through stops for every body that its references allow if and only if the counter is declared, no reference to it is in the closed range of the body or in a function, and the distance is whole |
| EqualsInForTermination.OnlyEdgesAndFunctionsEscape | src/linting/eslint/rules/no-equals-in-for-termination.ts:175-188 | for a declared counter that passes the range check, nothing can write it if and only if no reference is in a function and none in the body touches an edge of it, as between braces |
| EqualsInForTermination.DisagreeingLoopNeverStops | src/linting/eslint/rules/no-equals-in-for-termination.ts:124-162 | with the same shape and a disagreeing sign it never stops |
| EqualsInForTermination.ReportedExactlyWhenItDoesNotArrive | src/linting/eslint/rules/no-equals-in-for-termination.ts:47-67 | for a whole distance, a loop of that shape is reported if and only if it does not run and then stop |
| EqualsInForTermination.ReportedExactly | src/linting/eslint/rules/no-equals-in-for-termination.ts:47-221 | any loop is reported if and only if it tests by equality a name that a part of its update steps, every part is a step, and it does not go by ones from one literal to another with nothing found in its body that is stepped |
| EqualsInForTermination.ReferenceAtTheEdgeEscapes | src/linting/eslint/rules/no-equals-in-for-termination.ts:186-188 | `for (i = 0; i != 10; i++) i--;` is let through, and its counter is at its start for ever |
| EqualsInForTermination.CalledFunctionEscapes | src/linting/eslint/rules/no-equals-in-for-termination.ts:175-188 | `let i; const dec = () => { i--; }; for (i = 0; i != 10; i++) { dec(); }`: the same through a function |
| EqualsInForTermination.UndeclaredCounterEscapes | src/linting/eslint/rules/no-equals-in-for-termination.ts:175-184 | the same for a counter that is not declared, inside braces |
| EqualsInForTermination.CollectCounters | src/linting/eslint/rules/no-equals-in-for-termination.ts:108-122 | the names of the updated counters are pushed in order |
| FilePermissions.ResolvedModeIsTheMeaning | src/linting/eslint/rules/file-permissions.ts:90-118 | a mode is found if and only if every leaf has one, no definition is used twice and no operand of an `\|` is zero, as the rule reads the leaves; then it is the value read, with definitions substituted, and the value itself if every literal is read rightly |
| FilePermissions.LiteralIsReadRightly | src/linting/eslint/rules/file-permissions.ts:46-62 | the rule takes a number literal for the number that it denotes if and only if the literal does not start with a zero, starts with 0o, consists of octal digits, or is zero |
| FilePermissions.OtherLeavesAreReadRightly | src/linting/eslint/rules/file-permissions.ts:46-88 | a string of octal digits and the constants of `fs` are taken for the modes that they denote |
| FilePermissions.ModeIsTheValueExactly | src/linting/eslint/rules/file-permissions.ts:46-118 | a mode found is the value of the expression if and only if its only leaf is read rightly, or its leaves together have the same bits as they are read |
| FilePermissions.FlagIsRightExactly | src/linting/eslint/rules/file-permissions.ts:46-129 | a mode found is flagged against 0 just as the value would be if and only if low bits are read among the leaves where there are some |
| FilePermissions.ModeResolver.ModeFromExpression | src/linting/eslint/rules/file-permissions.ts:90-118 | resolving terminates for cyclic definitions too, with any set of definitions already followed: a mode is found exactly when nothing is zero and no definition is needed again, and those used are added to the set |
| FilePermissions.CheckModeArgument | src/linting/eslint/rules/file-permissions.ts:120-129 | an argument is flagged if and only if it can be resolved, in that sense, and what is read has the wrong remainder, which is the remainder of its value where every literal is read rightly |
| FilePermissions.OrIsFlaggedExactlyThroughAnOperand | src/linting/eslint/rules/file-permissions.ts:107-116 | the 32-bit `\|` of two numbers has low bits set, by the truncating remainder, if and only if one of them has |
| FilePermissions.FlaggedOrArgument | src/linting/eslint/rules/file-permissions.ts:107-129 | with the modes and the `\|` of the rule, an `\|` is flagged against 0 if and only if both operands resolve to non-zero modes and one of them is flagged |
| FilePermissions.SecondUseIsNotFollowed | src/linting/eslint/rules/file-permissions.ts:101-106 | `x \| x` has a value and resolves to null |
| FilePermissions.ZeroOperandIsDropped | src/linting/eslint/rules/file-permissions.ts:107-115 | `0 \| 7` has a value and resolves to null |
| FilePermissions.HexLiteralIsReadAsZero | src/linting/eslint/rules/file-permissions.ts:46-62 | `0x1ff` is 511, which gives permissions to others; it resolves to 0 and is not flagged |
| NewRule.ParseCheckList | tools/newRule.ts:125-193 | the five sections make up the input in order, and each has the lines that its boundaries call for |
| NewRule.ParseMain | tools/newRule.ts:212-282 | the same for the rule index |
| NewRule.CheckListSplitIsUnique | tools/newRule.ts:125-193 | the boundaries determine the sections: no file has two such splits, so the parser finds the only one |
| NewRule.MainSplitIsUnique | tools/newRule.ts:212-282 | the same for the rule index |
| NewRule.UpdateMain | tools/newRule.ts:195-210 | exactly the two new lines are added, both blocks are sorted permutations, the other sections stay; where there is something between imports and registrations, a second run finds the sections written if and only if the first sorted import still is one of a rule |
| NewRule.UpdateCheckList | tools/newRule.ts:111-123 | the list keeps a comma behind every entry but the last, is sorted, and has exactly the new entry more; an empty list too; where the list was closed, a second run finds the sections written if and only if no entry closes it |
| NewRule.LeqIsLexicographic | tools/newRule.ts:118-118 | lines are sorted with a line before another if it is its beginning or has a smaller code unit where they first differ |
| NewRule.TrimTakesSpacesOff | tools/newRule.ts:163-171 | lines are compared without all white space in front and behind, and nothing else is taken off |
| ShutdownTimeout.Timeout.StartTimer | src/routing/timeout/timeout.ts:39-42 | starting stops the timer held and leaves exactly one new timer in its place |
| ShutdownTimeout.Timeout.StopTimer | src/routing/timeout/timeout.ts:47-52 | stopping clears the timer held |
| ShutdownTimeout.PendingIsTheField | src/routing/timeout/timeout.ts:26-53 | in every run a pending timer is the one in the field, and an arrival or a close leaves none pending |
| ShutdownTimeout.PendingExactlyWhenStarted | src/routing/timeout/timeout.ts:39-52 | in every run a timer is pending if and only if the last thing that concerned it was the start or a finish |
| ShutdownTimeout.CallbackCanRunExactly | src/routing/timeout/middleware.ts:29-46 | the callback can run if and only if, moreover, the last arrival, finish or start is at least `delay` in the past |
| ShutdownTimeout.CallbackRunsOnlyWhenIdle | src/routing/timeout/middleware.ts:29-46 | the callback runs only when the start and every arrival and finish are at least `delay` in the past |
| ShutdownTimeout.CallbackInFlightExactly | src/routing/timeout/middleware.ts:34-41 | as many requests are in flight when the callback runs as when the timer was last started |
| ShutdownTimeout.NeverInFlightWithoutOverlap | src/routing/timeout/middleware.ts:34-41 | when requests never overlap, none is in flight when the callback runs |
| ShutdownTimeout.OverlapLetsTheTimerRun | src/routing/timeout/middleware.ts:34-41 | with two overlapping requests the callback can run while one is in flight |
| CommentedCode.GetGroupedComments | src/linting/eslint/rules/no-commented-code.ts:47-73 | the groups have every comment as often as the file, keep the order of line comments and of block comments, hold a block comment only alone, split line comments exactly where adjacency fails, and come in the order in which they are complete |
| CommentedCode.JoinedByLineFeeds | src/linting/eslint/rules/no-commented-code.ts:60-63 | the text of a group is that of its comments joined by line feeds |
| CommentedCode.AdjacentMeansNoCodeBetween | src/linting/eslint/rules/no-commented-code.ts:76-84 | comments are adjacent if and only if they are on consecutive lines and no code comes behind the first one up to the line of the second |
| CommentedCode.BracesAreBalanced | src/linting/eslint/rules/no-commented-code.ts:165-176 | as many opening as closing braces, the text in one piece with braces on one side only, and nothing to do the second time |

## Left out

- RegexMatcher: captures and backreferences, and the text of lookaround assertions, which are decided by the oracle like every assertion.
- ReluctantQuantifiers.FixKeepsSearch: speaks of the span of a match; what capturing groups hold is not modelled.
- DeadStores.ReportDeadStores: the filters that suppress a report (local variables, basic values, destructuring with rest, use in another code path and others) are one arbitrary predicate.
- DeadStores.ReportedStoreIsUseless: takes the collected references in the order collected; executions are the subject of `EvaluationOrder.DeadStoreIsUseless`.
- EvaluationOrder.DeadStoreIsUseless: is about one code path; reads from closures are kept out by a filter that is part of the same predicate. Exceptions, and the logical assignment operators, which may skip the assignment, are not modelled.
- EvaluationOrder.OrderlyProgramIsJudgedRightly: the segments of a branch inside an assignment collect nothing and are part of the one in which the assignment ends, so which of them a path went through does not tell which branch was evaluated.
- LiveVariablesAnalysis.Lva: segments are numbers and the map from segment to live variables is split into sequences; `out` is a set although the program keeps an array with duplicates.
- `reportNeverReadVariables`, JSX references and scope resolution in the dead store rule.
- AssignmentOrder.VisitCodePath: one segment is current throughout; where segments change inside an assignment, the one current at its end receives its references.
- InfiniteLoops.ReportedLoopNeverCompletes: expressions complete abruptly only through `yield`; exceptions thrown by calls or accesses are not modelled.
- The decoration of ESLint's own rule on unmodified loop conditions.
- ParameterReports.CheckProgram: which identifiers occur in a write expression, and whether a usage is inside an `if` or a `switch` case, come with the events.
- ForLoopIncrement.ReportedTestKeepsHolding: numbers are reals, so rounding, NaN and infinities are not modelled.
- EqualsInForTermination.AcceptedLoopStopsExactly: what the body does to the counter is a function of the counter alone, and leaving the loop early is not modelled; so are ways to write a variable without a reference to it (`eval`, `with`, the `arguments` object, other scripts).
- EqualsInForTermination.AcceptedLoopStops: numbers are reals, so rounding is not modelled; a counter of doubles sticks at 2^53.
- FilePermissions.OtherLeavesAreReadRightly: a string with anything but octal digits denotes no mode; it is given the value that the rule reads.
- FilePermissions.CheckModeArgument: number literals are integers, without fraction or exponent, and exact; finding the unique write of a variable is a map.
- ImplicitDependencies.Resolver.GetDependencies: reading and parsing `package.json` is a function from directory to dependencies; `path.dirname` is the POSIX one.
- ImplicitDependencies.AboveAbsolute: the names of the path are plain, without empty, `.` and `..` ones.
- ImplicitDependencies: path mapping patterns and the decision to raise an issue.
- NewRule.LeqIsLexicographic: characters are Unicode scalar values; outside the basic plane code units sort differently.
- NewRule.UpdateMain: file access, templates and naming of the new rule; the sort is modelled by an insertion sort.
- ShutdownTimeout.CallbackRunsOnlyWhenIdle: aborted connections never finish, and whether the server does shut down eventually is not stated.
- CommentedCode: deciding whether a group is code, which needs a parser.
- Message texts, source locations and quick fixes of all rules.
