# A verified model of Google Test and Google Mock

This project models, in Dafny, the parts of the vendored Google Test and Google Mock
(`ext/gtest`, `ext/gmock`) that decide what a test run means, and proves what they promise
for every input, every run or every reachable state.

- **Unordered matching** (`BipartiteGraph`, `BipartiteMatching`, `UnorderedElements`): the
  augmenting search behind `UnorderedElementsAre`. It finds a maximum matching, certified by a
  vertex cover of the same size, and the quick pre-check never changes the answer.
- **The simple regex engine** (`RegexLanguage`, `SimpleRegex`): validation against a grammar
  with a unique reading, and matching against the language of the pattern.
- **Expectations** (`Expectations`, `Overtaking`): mock expectations as a graph of prerequisites. Creating
  expectations and handling calls are steps of a state machine whose invariant makes the
  shortcuts in retirement and reporting sound, and orders the calls of every sequence up to
  exceptions that are pinned down exactly.
- **The test runner** (`Strings`, `TestFilter`, `Sharding`, `Shuffling`, `ShuffleDraws`, `TestRunner`):
  name filters, shards, registration, shuffling and the loop of iterations.
- **Writers with readers** (`Common`, `Utf`, `CppLiteral`, `Xml`, `DeathTestFlag`): UTF-8 text,
  C++ string literals, XML attributes and CDATA sections, and the death test flag. Each is
  proved against a reader written from the standard, or against the repository's own parser.
- **Prime tables** (`PrimeTables`): trial division, a sieve and their combination.

State that the source updates in place is a class here, and its loops are loops. Each method
is tied by its contract to a definition that does not follow the code, or to a function whose
properties are lemmas beside it.

## Where code and documentation differ

The model follows the code. Each difference is stated with its exact condition.

- A pattern that ends in an escaped dollar gets no closing anchor, so a full match is not a
  match of the whole string (`FullMatchIsWholeMatch`).
- In a sequence, a member that allows no call handles a call to it before earlier members are
  done, since an excessive call retires nothing. `LineRespected` and `OvertakingRun` say exactly
  for which members calls can be out of order; `ForbiddenCallFirst` is one such run.
- A death test case registered while tests are shuffled may run after another test; the source
  warns of this, and `Register` says exactly when it happens.
- The message for invalid code points starts above 1FFFFF and not above 10FFFF
  (`MessageOnlyBeyondFourBytes`), so that the output is UTF-8 only for some inputs
  (`Utf16PrintsUtf8`, `Utf32PrintsUtf8`).
- A NUL printed before an octal digit merges with it (`PrintedLiteralReadsBack`).
- A carriage return in a CDATA section comes back as a line feed (`CDataRoundTrip`).
- Where `char` is signed, bytes from 0x80 on count as invalid in XML. The functions in `Xml`
  take the signedness as a parameter, and it makes no difference exactly for texts without
  such bytes (`SignedCharsLoseBytes`).
- A number within 2^31 of 2^64 is accepted as a natural number and becomes negative
  (`PrintedNumberIsRead`).
- The on-the-fly prime table answers -1 for every negative number (`GetNextPrimeOnTheFly`).

## What is taken from outside

The clock behind a random seed, the descriptors of pipes, the arguments that an expectation's
matchers accept, and the C library's `strtoull` and character traits are parameters or small
functions written out from their documentation. Integers are unbounded except where a
conversion matters (`DeathTestFlag`, the generator in `Shuffling`).

## Model

| member | source | states |
|---|---|---|
| BipartiteMatching.MaxBipartiteMatchState.constructor | ext/gmock/src/gmock-matchers.cc:198-206 | every left and right slot starts unused |
| BipartiteMatching.MaxBipartiteMatchState.TryAugment | ext/gmock/src/gmock-matchers.cc:259-285 | returns true iff an alternating path through unseen right nodes leads from the left node to a free right node; on success the two vectors refer to each other again, save for the right node that an already matched start gives up to its caller; only this left node can stop being unused and no other becomes unused, and any closed set of right nodes stays closed; on failure nothing but the seen marks changes and the newly seen nodes are a dead end; terminates because unseen right nodes only get fewer |
| BipartiteMatching.MaxBipartiteMatchState.Compute | ext/gmock/src/gmock-matchers.cc:207-238 | for every graph the result is a matching at least as large as every matching of the graph, witnessed by a vertex cover of the same size; no left node left unmatched could still be augmented, so one pass over the left nodes is enough |
| BipartiteMatching.MoveToFree | ext/gmock/src/gmock-matchers.cc:259-285 | taking a free neighbour keeps both vectors mutually referent, save for the right node given up, and every closed set closed |
| BipartiteMatching.MoveAfter | ext/gmock/src/gmock-matchers.cc:259-285 | taking over a right node after its owner moved elsewhere does the same, although the owner was cut loose in between |
| BipartiteMatching.PathExtends | ext/gmock/src/gmock-matchers.cc:259-285 | an augmenting path of the owner of an unseen right node extends to one of its neighbour |
| BipartiteMatching.DeadEndHasNoPath | ext/gmock/src/gmock-matchers.cc:259-285 | once a search has failed, no path at all leads from its start through the nodes it had not seen before |
| BipartiteMatching.ClosedHasNoPath | ext/gmock/src/gmock-matchers.cc:207-238 | a left node whose neighbours lie in a closed set has no augmenting path, whatever has been seen |
| BipartiteMatching.BlockedGrows | ext/gmock/src/gmock-matchers.cc:207-238 | the nodes seen by a failed search extend the closed set of all failed searches so far |
| BipartiteMatching.FlowIsMatching | ext/gmock/src/gmock-matchers.cc:207-238 | mutually referent vectors list the edges of a matching |
| BipartiteMatching.CoverOfEqualSize | ext/gmock/src/gmock-matchers.cc:207-238 | when all unmatched left nodes point into a closed set, that set and the left nodes matched outside it cover every edge, and are exactly as many as the matched edges |
| BipartiteGraph.MatchingAtMostCover | ext/gmock/src/gmock-matchers.cc:207-238 | no matching has more edges than a vertex cover has nodes |
| BipartiteGraph.FullMatchingGivesPairing | ext/gmock/src/gmock-matchers.cc:328-357 | a matching as large as the number of matchers is an injective choice of an element for every matcher |
| BipartiteGraph.PairingGivesMatching | ext/gmock/src/gmock-matchers.cc:328-357 | such a choice is a matching of that size |
| BipartiteGraph.SquarePairingCoversLeft | ext/gmock/src/gmock-matchers.cc:443-495 | with as many elements as matchers, such a choice uses every element |
| UnorderedElements.MatchMatrix.AsGraphEdges | ext/gmock/include/gmock/gmock-matchers.h:3016-3054 | the cells of the flat matrix are the edges of the graph |
| UnorderedElements.MatchMatrix.CellsArePairs | ext/gmock/include/gmock/gmock-matchers.h:3043-3045 | every pair of an element and a matcher has a cell of its own |
| UnorderedElements.MatchMatrix.NextGraph | ext/gmock/src/gmock-matchers.cc:359-371 | read as a binary number the matrix counts up by one; false is returned exactly at the last matrix, which wraps to the first |
| UnorderedElements.NumberBound | ext/gmock/src/gmock-matchers.cc:359-371 | the numbers read are below two to the number of cells, the first matrix is the empty one and the last the full one |
| UnorderedElements.CarryAddsOne | ext/gmock/src/gmock-matchers.cc:359-371 | clearing a run of set cells and setting the next one adds one |
| UnorderedElements.FindMaxBipartiteMatching | ext/gmock/src/gmock-matchers.cc:308-310 | a matching of maximum size |
| UnorderedElements.FindPairing | ext/gmock/src/gmock-matchers.cc:328-357 | true iff some injective assignment gives every matcher an element it matches; the matching returned is maximum either way |
| UnorderedElements.VerifyAllElementsAndMatchersAreMatched | ext/gmock/src/gmock-matchers.cc:443-495 | true iff no element and no matcher is without any match |
| UnorderedElements.PreCheckIsSound | ext/gmock/src/gmock-matchers.cc:443-495 | on a square matrix a pairing leaves nothing isolated, so a failed pre-check never changes the answer |
| UnorderedElements.MatchAndExplain | ext/gmock/include/gmock/gmock-matchers.h:3135-3162 | matches iff there are as many elements as matchers and a pairing exists |
| RegexLanguage.Unambiguous | ext/gtest/src/gtest-port.cc:257-311 | a pattern text has exactly one reading as anchors and items |
| RegexLanguage.HeadSplits | ext/gtest/src/gtest-port.cc:320-373 | a prefix in the language of the items splits into a prefix for the first item and one for the rest |
| RegexLanguage.SubstringIsHeadSomewhere | ext/gtest/src/gtest-port.cc:383-396 | some substring matches, honouring both anchors, iff a prefix of some suffix does (the whole string with ^) |
| RegexLanguage.WholeIsAnchoredHead | ext/gtest/src/gtest-port.cc:417-448 | a prefix match closed by $ is membership of the whole string |
| RegexLanguage.RepeatLaws | ext/gtest/src/gtest-port.cc:320-342 | + is one and then *, * is nothing or +, ? is one or nothing |
| RegexLanguage.ClassLaws | ext/gtest/src/gtest-port.cc:228-247 | what the letter escapes and the dot stand for, capitals as complements |
| SimpleRegex.AtomMatchesClass | ext/gtest/src/gtest-port.cc:228-247 | an atom accepts a character iff the character is in the class that the escape, dot or literal denotes |
| SimpleRegex.ScanIsGrammar | ext/gtest/src/gtest-port.cc:257-311 | the flags carried by the validation loop accept exactly the texts of the grammar |
| SimpleRegex.ValidateRegex | ext/gtest/src/gtest-port.cc:257-311 | true iff the regex is given and is the text of some well-formed pattern |
| SimpleRegex.MatchRepetitionAndRegexAtHead | ext/gtest/src/gtest-port.cc:320-342 | true iff a prefix is in the language of the repeated atom followed by the rest; calls below it nest at most one deeper than the rest is long |
| SimpleRegex.MatchRegexAtHead | ext/gtest/src/gtest-port.cc:347-373 | true iff some prefix is in the language of the items, and is the whole string when the regex ends in $; calls below it nest at most as deep as the regex is long |
| SimpleRegex.MatchRegexAnywhere | ext/gtest/src/gtest-port.cc:383-396 | true iff some substring is in the language, honouring both anchors; false for null arguments |
| SimpleRegex.FullTextIsPattern | ext/gtest/src/gtest-port.cc:417-448 | the full pattern is always valid: the same items between ^ and $, except that a pattern ending in an escaped dollar gets no closing anchor |
| SimpleRegex.BuildFullPattern | ext/gtest/src/gtest-port.cc:417-448 | the buffer is filled with that text |
| SimpleRegex.RE.constructor | ext/gtest/src/gtest-port.cc:417-448 | the object is valid iff the regex is, and then holds both patterns |
| SimpleRegex.RE.PartialMatch | ext/gtest/src/gtest-port.cc:412-414 | for a valid regex, true iff some substring matches |
| SimpleRegex.RE.FullMatch | ext/gtest/src/gtest-port.cc:406-408 | for a valid regex, true iff the string matches under the full pattern |
| SimpleRegex.FullMatchIsWholeMatch | ext/gtest/src/gtest-port.cc:406-448 | a full match is membership of the whole string for every string if and only if the pattern does not end in an escaped dollar |
| Expectations.Between | ext/gmock/src/gmock-cardinalities.cc:50-92 | the corrected bounds are valid; the count that first saturates also satisfies, and no later one does |
| Expectations.NeverItsOwnPrerequisite | ext/gmock/src/gmock-spec-builders.cc:95-125 | prerequisites were created earlier, so the relation has no cycle |
| Expectations.RetiredAllTheWay | ext/gmock/src/gmock-spec-builders.cc:95-111 | if prerequisites retire first, everything behind a retired expectation is retired |
| Expectations.ExpectationBase.RetireAllPreRequisites | ext/gmock/src/gmock-spec-builders.cc:95-111 | retires exactly the transitive prerequisites and nothing else, early return included |
| Expectations.ExpectationBase.AllPrerequisitesAreSatisfied | ext/gmock/src/gmock-spec-builders.cc:115-125 | true iff everything in the transitive closure is satisfied |
| Expectations.ExpectationBase.FindUnsatisfiedPrerequisites | ext/gmock/src/gmock-spec-builders.cc:128-146 | adds exactly the unsatisfied expectations to which a chain of immediate prerequisites leads whose inner members are all satisfied and were never called |
| Expectations.ReportInRun | ext/gmock/src/gmock-spec-builders.cc:128-146 | in every state of a run the same holds with inner members that are satisfied, called or not |
| Expectations.ReportedAreUnsatisfied | ext/gmock/src/gmock-spec-builders.cc:128-146 | everything reported is a transitive prerequisite and unsatisfied |
| Expectations.EmptyReportMeansSatisfied | ext/gmock/src/gmock-spec-builders.cc:115-146 | in every state of a run the report is empty iff all transitive prerequisites are satisfied, although the walk skips the prerequisites of satisfied expectations already called |
| Expectations.ExpectationBase.GetActionForArguments | ext/gmock/include/gmock/gmock-spec-builders.h:1188-1218 | counts the call; excessive iff as many calls as allowed were counted before; otherwise retires exactly the transitive prerequisites, and the expectation itself if so specified and the maximum is now reached; keeps the run invariant |
| Expectations.RecordCall | ext/gmock/include/gmock/gmock-spec-builders.h:1188-1218 | the same step together with the record of the run: counts, excess and retirement stay what the log of handled calls says |
| Expectations.Sequence.AddExpectation | ext/gmock/src/gmock-spec-builders.cc:784-792 | makes the previous last member an immediate prerequisite and becomes the last member; adding the last member again changes nothing |
| Expectations.ChainIsTransitive | ext/gmock/src/gmock-spec-builders.cc:784-792 | each member of a sequence has all earlier members as prerequisites |
| Expectations.InSequence | ext/gmock/include/gmock/gmock-spec-builders.h:936-945 | one clause makes the last member of the sequence a prerequisite and keeps every chain; a clause that names the sequence again changes nothing |
| Expectations.JoinSequences | ext/gmock/include/gmock/gmock-spec-builders.h:936-945 | the InSequence clauses give the new expectation the last member of each sequence as a prerequisite and append it to each |
| Expectations.CreateExpectation | ext/gmock/include/gmock/gmock-spec-builders.h:936-975 | a new expectation with its InSequence and After clauses keeps the run invariant and the chains |
| Expectations.FindMatchingExpectation | ext/gmock/include/gmock/gmock-spec-builders.h:1660-1674 | of the expectations in creation order, the newest that is not retired, matches and has satisfied prerequisites; null iff there is none |
| Expectations.CreationKeepsRun | ext/gmock/include/gmock/gmock-spec-builders.h:936-975 | a new expectation keeps the graph acyclic and every expectation sound |
| Expectations.CreationKeepsLog | ext/gmock/include/gmock/gmock-spec-builders.h:936-975 | a new expectation changes nothing about calls already handled |
| Expectations.CallKeepsOrder | ext/gmock/include/gmock/gmock-spec-builders.h:1092-1102 | a call that should be handled comes after a call to something it is a prerequisite of only if that expectation can overtake it |
| Expectations.SatisfiedBeforeCall | ext/gmock/include/gmock/gmock-spec-builders.h:1092-1102 | a call that should be handled by an expectation without allowed calls finds its prerequisites retired, or such that it can overtake them |
| Expectations.CalledHasRetired | ext/gmock/include/gmock/gmock-spec-builders.h:1188-1218 | an expectation that allows a call and has been called has retired all its transitive prerequisites, excessive calls included |
| Expectations.Mocks.Expect | ext/gmock/include/gmock/gmock-spec-builders.h:936-975 | the invariant of the whole run holds after any expectation is set; it becomes the newest of its method |
| Expectations.Mocks.Handle | ext/gmock/include/gmock/gmock-spec-builders.h:1188-1218 | and after any call that is handled; excessive iff the maximum was reached before; says which expectations retire, and that the prerequisites are retired afterwards iff the expectation allows a call or they were before |
| Expectations.Mocks.Call | ext/gmock/include/gmock/gmock-spec-builders.h:1660-1674 | and after any call: handled by the newest expectation of the method that matches, is not retired and has all prerequisites called within their bounds, unchanged iff there is none; excessive iff the maximum was reached before |
| Expectations.Mocks.LogTellsState | ext/gmock/include/gmock/gmock-spec-builders.h:779-826 | in every reachable state the log of handled calls alone tells how often each expectation was called, whether it is satisfied, saturated and retired |
| Expectations.Mocks.ExcessIsLate | ext/gmock/include/gmock/gmock-spec-builders.h:1188-1218 | in every run a handled call was excessive iff its expectation had handled as many calls as it allows before |
| Expectations.Mocks.SequenceRespected | ext/gmock/src/gmock-spec-builders.cc:784-792 | in every reachable state the calls handled for one sequence, excessive ones included, were handled in the order of the sequence, except where a member that allows no call can overtake an earlier one, nothing between them asking for a call |
| Overtaking.OvertakesInLine | ext/gmock/src/gmock-spec-builders.cc:784-792 | in a sequence of its own, a member can overtake an earlier one iff it allows no call, the earlier one need not retire to be satisfied, and no member between asks for a call |
| Overtaking.LineRespected | ext/gmock/src/gmock-spec-builders.cc:784-792 | in no state of a run has a member been called after a later one, unless that condition holds of the two |
| Overtaking.OvertakingRun | ext/gmock/src/gmock-spec-builders.cc:784-792 | for every sequence and every two members of which the condition holds there is a run in which the later is called before the earlier: the condition is exact |
| Overtaking.ForbiddenCallFirst | ext/gmock/src/gmock-spec-builders.cc:784-792 | at most one call, then none: the run that handles the forbidden call first and the allowed one afterwards |
| TestFilter.PatternMatchesIsGlob | ext/gtest/src/gtest.cc:440-455 | the recursive matcher agrees with the declarative meaning of the pattern up to the first colon: a division of the string into one part per pattern character |
| TestFilter.MatchesFilter | ext/gtest/src/gtest.cc:457-476 | true iff one of the colon-separated patterns matches |
| TestFilter.FilterMatchesTest | ext/gtest/src/gtest.cc:480-506 | true iff the full name matches a positive pattern and no negative one, divided at the first dash, with * for an empty positive part, filter and name ending at a NUL |
| TestFilter.FilterReadsAs | ext/gtest/src/gtest.cc:480-506 | the flag read as it is written: positive patterns, then after a dash negative ones |
| TestFilter.DeathTestFilter | ext/gtest/src/gtest.cc:153-158 | the built-in filter selects exactly the names that end in DeathTest or contain DeathTest/ |
| TestFilter.MatchesDeathTestFilter | ext/gtest/src/gtest.cc:4188-4200 | what registration computes for a test case name |
| TestFilter.DisabledFilter | ext/gtest/src/gtest.cc:153-158 | the built-in filter selects exactly the names that start with DISABLED_ or contain /DISABLED_ |
| TestFilter.MatchesDisableFilter | ext/gtest/src/gtest.cc:4472-4478 | what filtering computes for a test or test case name |
| Sharding.ExactlyOneShard | ext/gtest/src/gtest.cc:4444-4446 | the shards partition the tests: a test is runnable iff there is one shard that marks it while no other does, and a test that is not runnable is marked on none |
| Sharding.MarkedCount | ext/gtest/src/gtest.cc:4455-4506 | the tests marked on a shard number exactly as many as the ranks that fall on it |
| Sharding.ShardSizeIs | ext/gtest/src/gtest.cc:4444-4506 | of n ranks each shard gets the quotient, and the first n mod total shards one more |
| Sharding.ShardsAreBalanced | ext/gtest/src/gtest.cc:4444-4506 | the numbers of tests marked on two shards differ by at most one |
| Sharding.ShardsAddUp | ext/gtest/src/gtest.cc:4444-4506 | the numbers of tests marked on all shards add up to the number of runnable tests |
| Sharding.UnshardedMarksAll | ext/gtest/src/gtest.cc:4455-4506 | without sharding exactly the runnable tests are marked |
| Sharding.NothingCounted | ext/gtest/src/gtest.cc:4455-4506 | a count of zero means that no test is marked |
| Shuffling.Random.Generate | ext/gtest/src/gtest.cc:291-305 | a number below the range, from the next state of the generator |
| Shuffling.NextStateIs | ext/gtest/src/gtest.cc:291-305 | the next state as a remainder by 2^31: the wrap-around of 32-bit arithmetic does not show |
| Shuffling.GetRandomSeedFromFlag | ext/gtest/src/gtest-internal-inl.h:135-146 | a seed from 1 to 99999, equal to the flag where that is in range, and otherwise congruent to the flag or, for 0, to the clock |
| Shuffling.GetNextRandomSeed | ext/gtest/src/gtest-internal-inl.h:151-157 | one more, and 1 after 99999 |
| Shuffling.SeedAt | ext/gtest/src/gtest-internal-inl.h:151-157 | the seed after i steps, in closed form |
| Shuffling.ShuffleRange | ext/gtest/src/gtest-internal-inl.h:311-328 | the swapping loop computes the Fisher-Yates shuffle of the range and the generator state after it |
| Shuffling.FisherYatesPermutes | ext/gtest/src/gtest-internal-inl.h:311-328 | every element occurs as often as before |
| ShuffleDraws.ShufflesByDraws | ext/gtest/src/gtest-internal-inl.h:311-328 | the shuffle is the one of the numbers that the generator draws, each below the width that is left |
| ShuffleDraws.Reaches | ext/gtest/src/gtest-internal-inl.h:311-328 | every rearrangement of the range comes from some draws |
| ShuffleDraws.DrawsAreUnique | ext/gtest/src/gtest-internal-inl.h:311-328 | and from no others, so that no rearrangement is favoured |
| ShuffleDraws.ShuffledByDraws | ext/gtest/src/gtest.cc:4601-4613 | a whole shuffle is the one of the numbers drawn for the death test cases, then for the others, then for the tests of each case |
| ShuffleDraws.EveryOrderIsReached | ext/gtest/src/gtest.cc:4601-4613 | every order with the death test cases in front comes from some draws |
| Shuffling.FisherYatesLeavesRest | ext/gtest/src/gtest-internal-inl.h:311-328 | positions outside the range keep their elements |
| Shuffling.FisherYatesKeepsHalves | ext/gtest/src/gtest-internal-inl.h:311-328 | shuffling on one side of a boundary keeps the two sides apart iff they were |
| Shuffling.ShuffledIsValid | ext/gtest/src/gtest.cc:4601-4613 | whatever the seed, a shuffled order is an order, with the death test cases in front iff they were |
| Shuffling.RegistrationIsValid | ext/gtest/src/gtest.cc:4616-4623 | the registration order has the death test cases in front |
| Shuffling.AppendedIndex | ext/gtest/src/gtest.cc:4196-4205 | appending the next index keeps a permutation; afterwards a boundary, the old one or the next, separates low indices from high ones iff it did before |
| Shuffling.BoundaryMovesUp | ext/gtest/src/gtest.cc:4188-4200 | from an order with death test cases in front, that holds for one more death test case iff the first other case is in its registered place |
| Shuffling.LateDeathTestNotFirst | ext/gtest/src/gtest.cc:4188-4205 | seed 1 shuffles two test cases into an order in which a death test case registered next does not come first |
| Shuffling.EachSelectedOnce | ext/gtest/src/gtest.cc:4284-4348 | running any order visits each selected test once and no other |
| Shuffling.DeathTestsFirst | ext/gtest/src/gtest.cc:4284-4348 | an order with the death test cases in front visits no death test after another test |
| Shuffling.VisitsFollow | ext/gtest/src/gtest.cc:4284-4348 | cases are visited in the order of the index vector, and the tests of a case in the order of its own |
| Shuffling.RegistrationIncreases | ext/gtest/src/gtest.cc:4284-4348 | in registration order the numbers of cases and tests only grow |
| TestRunner.TestCase.AddTestInfo | ext/gtest/src/gtest.cc:2423-2426 | appends the test; the order stays a permutation, and the registration order if it was |
| TestRunner.TestCase.ShuffleTests | ext/gtest/src/gtest.cc:2463-2465 | the order of the tests is shuffled as a whole |
| TestRunner.TestCase.UnshuffleTests | ext/gtest/src/gtest.cc:2468-2472 | restores the registration order, whatever the order was |
| TestRunner.TestCase.FilterTests | ext/gtest/src/gtest.cc:4468-4503 | marks exactly the runnable tests that are kept by rank, and the case iff one of its tests is; the two counts returned are the numbers of runnable and of marked tests |
| TestRunner.TestCase.Run | ext/gtest/src/gtest.cc:2429-2454 | visits the marked tests in the present order, and none when the case is not marked |
| TestRunner.FilterOne | ext/gtest/src/gtest.cc:4472-4500 | runnable iff the filter matches and the test is not disabled or disabled tests are to run |
| TestRunner.FindTestCase | ext/gtest/src/gtest.cc:4173-4184 | the case of that name, if any |
| TestRunner.InsertKeepsOrder | ext/gtest/src/gtest.cc:4188-4200 | inserting a case keeps death test cases exactly at the front of the list |
| TestRunner.PartitionGrows | ext/gtest/src/gtest.cc:4188-4205 | after any run of registrations the list holds the death test cases as they were registered, then the others as they were registered |
| TestRunner.UnitTestImpl.Register | ext/gtest/src/gtest.cc:4188-4205 | from any order of the tests: death test cases go after the last one, others to the end, the index vector stays a permutation; exactly when death test cases come first afterwards, told from the order before |
| TestRunner.UnitTestImpl.WelcomeInPlace | ext/gtest/src/gtest.cc:4188-4205 | while death test cases come first, one more can be registered iff the first of the other cases stands where it was registered |
| TestRunner.UnitTestImpl.GetTestCase | ext/gtest/src/gtest.cc:4173-4206 | the case of that name, registered first if there is none |
| TestRunner.UnitTestImpl.AddTestInfo | ext/gtest/src/gtest-internal-inl.h:654-674 | adds the test to the case of that name and to no other |
| TestRunner.UnitTestImpl.ShuffleTests | ext/gtest/src/gtest.cc:4601-4613 | death test cases and others are shuffled apart, then the tests of each case; death test cases run first afterwards iff before |
| TestRunner.UnitTestImpl.UnshuffleTests | ext/gtest/src/gtest.cc:4616-4623 | restores the registration order, death test cases first, whatever the order was |
| TestRunner.UnitTestImpl.FilterTests | ext/gtest/src/gtest.cc:4455-4506 | marks exactly the runnable tests that fall on the shard, marks a case iff it has one, and returns the number of tests marked |
| TestRunner.UnitTestImpl.SelectionMarks | ext/gtest/src/gtest.cc:4270-4283 | when nothing is selected no test is marked, so that skipping the run loses nothing |
| TestRunner.RunCases | ext/gtest/src/gtest-internal-inl.h:593-596 | runs the cases in the order of the index vector |
| TestRunner.IterationIsComplete | ext/gtest/src/gtest.cc:4284-4348 | every iteration, whatever its seed, visits each marked test exactly once and nothing else, all tests of death test cases first |
| TestRunner.IterationFollows | ext/gtest/src/gtest.cc:4292-4298 | without shuffling an iteration visits by number of case and test, with it in the shuffled order of its seed |
| TestRunner.EachVisitedOnOneShard | ext/gtest/src/gtest.cc:4444-4506 | when every shard runs, each runnable test is visited once on exactly one shard, and no other test anywhere |
| TestRunner.IdleIteration | ext/gtest/src/gtest.cc:4284-4348 | an iteration without selected tests visits nothing |
| TestRunner.UnitTestImpl.RunIteration | ext/gtest/src/gtest.cc:4284-4348 | each marked test once and nothing else, death test cases first, by number without shuffling and in the shuffled order of the seed with it; the registration order is restored afterwards |
| TestRunner.UnitTestImpl.RunAllTests | ext/gtest/src/gtest.cc:4222-4353 | in every iteration of a run, endless runs included, each runnable test of the shard is visited exactly once and nothing else is, no test of a death test case comes after one of another case, and the visits come by number without shuffling and in the shuffled order of the seed of that iteration with it; the tests end in registration order |
| Utf.ChopLowBits | ext/gtest/src/gtest.cc:1424-1428 | the low part fits in n bits, and the two parts make up the pattern again |
| Utf.CodePointToUtf8 | ext/gtest/src/gtest.cc:1436-1462 | the shortest UTF-8 form, nothing for 0, and the message for a code point that does not fit |
| Utf.MessageOnlyBeyondFourBytes | ext/gtest/src/gtest.cc:1430-1462 | the message appears iff the code point is above 1FFFFF; the documented limit 10FFFF is met exactly outside the gap between the two |
| Utf.MessageNamesCodePoint | ext/gtest/src/gtest.cc:1437-1440 | the message spells the code point in hexadecimal digits |
| Utf.OnlyNulPrintsNothing | ext/gtest/src/gtest.cc:1442-1461 | exactly the code point 0 is printed as nothing |
| Utf.DecodesOne | ext/gtest/src/gtest.cc:1436-1462 | the bit layout of section 3 of RFC 3629 decodes what is written to the same code point, in shortest form, up to 1FFFFF |
| Utf.DecodesShown | ext/gtest/src/gtest.cc:1436-1521 | printed text decodes to its code points, with the message in the place of those above 1FFFFF |
| Utf.BytesFit | ext/gtest/src/gtest.cc:1436-1462 | everything written is a byte |
| Utf.SurrogatePair | ext/gtest/src/gtest.cc:1471-1485 | a pair is recognized iff it is a high and a low surrogate, and is what section 2.1 of RFC 2781 writes for the combined code point |
| Utf.ReencodesUtf16 | ext/gtest/src/gtest.cc:1500-1521 | reading units pairwise and encoding the result as UTF-16 gives the units back |
| Utf.WideStringToUtf8 | ext/gtest/src/gtest.cc:1500-1521 | the UTF-8 forms of the code points read, up to the length given or the first NUL, whichever comes first |
| Utf.LimitReadsPrefix | ext/gtest/src/gtest.cc:1500-1504 | a limit within the string reads that much of it |
| Utf.NulEndsText | ext/gtest/src/gtest.cc:1500-1508 | nothing from the first NUL on is read, however far the limit reaches |
| Utf.Utf16RoundTrip | ext/gtest/src/gtest.cc:1500-1521 | for every NUL-free sequence of 16-bit units, lone surrogates included, decoding the output and encoding it as UTF-16 gives back the input |
| Utf.Utf32RoundTrip | ext/gtest/src/gtest.cc:1500-1521 | for every NUL-free sequence of code points up to 1FFFFF in 32-bit units, decoding the output gives back the input |
| Utf.Utf16PrintsUtf8 | ext/gtest/src/gtest.cc:1500-1521 | the output for NUL-free 16-bit units is UTF-8 as section 3 of RFC 3629 defines it, scalar values only, iff the input is UTF-16 as section 2.2 of RFC 2781 decodes it |
| Utf.Utf32PrintsUtf8 | ext/gtest/src/gtest.cc:1500-1521 | the output for NUL-free 32-bit units is such UTF-8 iff no unit is a surrogate or lies between 110000 and 1FFFFF |
| CppLiteral.PrintCharsAsStringTo | ext/gtest/src/gtest-printers.cc:255-271 | the text of the literal, broken after a hexadecimal escape that would swallow the next character |
| CppLiteral.TailLexes | ext/gtest/src/gtest-printers.cc:188-271 | reading the rest of a literal gives the characters with each NUL merged into the octal digits after it |
| CppLiteral.MergeChangesNothing | ext/gtest/src/gtest-printers.cc:142-184 | merging changes nothing iff no NUL stands directly before an octal digit |
| CppLiteral.PrintedLiteralReadsBack | ext/gtest/src/gtest-printers.cc:142-271 | a C++ compiler reads the printed literals back as the original array if and only if no NUL stands directly before an octal digit |
| CppLiteral.WritesPrintable | ext/gtest/src/gtest-printers.cc:142-271 | only printable ASCII is written |
| CppLiteral.OneCharacter | ext/gtest/src/gtest-printers.cc:142-206 | printable characters but the double quote and the backslash stand for themselves, control characters with a short escape get it, all others are hexadecimal |
| CppLiteral.BrokenOnlyWhereNeeded | ext/gtest/src/gtest-printers.cc:255-271 | the text is one literal iff no hexadecimal escape stands directly before a hexadecimal digit |
| Xml.EscapeXml | ext/gtest/src/gtest.cc:3139-3180 | the text with each character escaped |
| Xml.AttributeIsQuotable | ext/gtest/src/gtest.cc:3139-3180 | an escaped attribute holds no angle bracket, quote of either kind, tab or line end |
| Xml.PlainIsLeftAlone | ext/gtest/src/gtest.cc:3139-3180 | text without characters to escape is left alone, in element content with its quotes and line ends |
| Xml.RemoveInvalidXmlCharacters | ext/gtest/src/gtest.cc:3185-3194 | the text without invalid characters |
| Xml.KeepsWhatIsAllowed | ext/gtest/src/gtest.cc:3021-3028 | a text stays as it is iff every character is a Char of section 2.2 of XML 1.0, and what is left always is |
| Xml.RemovesTheRest | ext/gtest/src/gtest.cc:3021-3028 | wherever it stands, a character is removed iff it is no such Char, or a byte from 0x80 on where char is signed |
| Xml.AttributeRoundTrip | ext/gtest/src/gtest.cc:3139-3180 | the attribute value that section 3.3.3 of XML 1.0 gives to the escaped text is exactly the text without invalid characters |
| Xml.SignedCharsLoseBytes | ext/gtest/src/gtest.cc:3021-3028 | signed and unsigned characters keep the same text iff it holds no byte from 0x80 on |
| Xml.AttributeKeepsLineEnds | ext/gtest/src/gtest.cc:3139-3180 | the attribute value is the same after the line-end rules of section 2.11, because line ends are escaped |
| Xml.TextReadsBack | ext/gtest/src/gtest.cc:3139-3180 | text escaped as element content reads back as the text without invalid characters |
| Xml.TextRoundTrip | ext/gtest/src/gtest.cc:3139-3180 | and after the line-end rules with its line ends normalized |
| Xml.NoCloseBefore | ext/gtest/src/gtest.cc:3246-3263 | the closing mark found is the first one |
| Xml.NextSegment | ext/gtest/src/gtest.cc:3246-3263 | one round of the loop: the data up to the mark, then the mark outside the section |
| Xml.OutputXmlCDataSection | ext/gtest/src/gtest.cc:3246-3263 | the data in CDATA sections, split wherever it holds the closing mark |
| Xml.CDataReadsBack | ext/gtest/src/gtest.cc:3246-3263 | sections 2.2, 2.4 and 2.7 of XML 1.0 read exactly the data back, and reject it iff it holds a character that XML does not allow |
| Xml.NormalizeCommutes | ext/gtest/src/gtest.cc:3246-3263 | normalizing line ends never makes or breaks a closing mark |
| Xml.CDataRoundTrip | ext/gtest/src/gtest.cc:3246-3263 | after the line-end rules of section 2.11 the data comes back with its line ends normalized iff XML allows it, and unchanged iff it also holds no carriage return |
| Xml.ReportedDetail | ext/gtest/src/gtest.cc:3316-3323 | a detail is stripped of invalid characters first, so that a parser accepts it whatever it was |
| DeathTestFlag.ParseNaturalNumber | ext/gtest/src/gtest-internal-inl.h:1002-1040 | succeeds iff the text is all digits and its value survives the conversion to int and back |
| DeathTestFlag.SurvivesConversion | ext/gtest/src/gtest-internal-inl.h:1002-1040 | which unsigned 64-bit values survive: those below 2^31, and those within 2^31 of 2^64, which become negative |
| DeathTestFlag.PrintedNumberIsRead | ext/gtest/src/gtest-internal-inl.h:1002-1040 | every natural number printed is read back iff it is below 2^31; of the others some are refused and some become negative |
| DeathTestFlag.SplitString | ext/gtest/src/gtest-death-test.cc:1208-1223 | the fields between the delimiters |
| Strings.JoinSplit | ext/gtest/src/gtest-death-test.cc:1208-1223 | joining the fields gives the text back |
| Strings.SplitJoin | ext/gtest/src/gtest-death-test.cc:1208-1223 | splitting joined fields that hold no delimiter gives them back |
| DeathTestFlag.ParseInternalRunDeathTestFlag | ext/gtest/src/gtest-death-test.cc:1296-1338 | absent iff the text is empty; present with file, line, index and descriptor from exactly four fields; unusable for anything else |
| DeathTestFlag.FlagRoundTrip | ext/gtest/src/gtest-death-test.cc:1118-1125 | the flag a parent writes is read back with the same file, line, index and descriptor if and only if the file name holds no vertical bar and the numbers are not negative; otherwise the child aborts |
| DeathTestFlag.TestResult.IncrementDeathTestCount | ext/gtest/include/gtest/gtest.h:585 | counts from one |
| DeathTestFlag.Create | ext/gtest/src/gtest-death-test.cc:1153-1203 | counts the death test; refused past the index of the flag, skipped unless file, line and index agree, otherwise created by style |
| DeathTestFlag.AssumeRole | ext/gtest/src/gtest-death-test.cc:1100-1144 | oversees a child iff the process has no flag, and that child reads from its own flag exactly this death test, or aborts if it cannot be transmitted; a process with a flag executes and reports to the descriptor in it |
| DeathTestFlag.RunBody | ext/gtest/src/gtest-death-test.cc:1100-1203 | the steps of a test body that makes the same death test statements in every process |
| DeathTestFlag.RunProcess | ext/gtest/src/gtest-death-test.cc:1153-1338 | a process aborts on an unusable flag and otherwise runs the body; without a flag it always runs it |
| DeathTestFlag.StyleDecides | ext/gtest/src/gtest-death-test.cc:1181-1198 | without a flag every death test is overseen, left to a fork or not created, by the style alone |
| DeathTestFlag.ExecutesOnlyItsOwn | ext/gtest/src/gtest-death-test.cc:1163-1176 | a process with a flag executes exactly the statement that agrees with it in file, line and number, and creates none after that number |
| DeathTestFlag.ChildExecutesItsTest | ext/gtest/src/gtest-death-test.cc:1100-1338 | from flag texts: a process with the empty text oversees every death test, and the one given the text written for the k-th passes over the earlier ones, executes exactly the k-th, reports to the descriptor it was given and would refuse any later one; it aborts iff the text cannot be transmitted |
| PrimeTables.IsPrimeOnTheFly | ext/gtest/samples/prime_tables.h:58-67 | trial division up to the square root decides primality of every integer |
| PrimeTables.NoSmallDivisor | ext/gtest/samples/prime_tables.h:58-67 | a number without divisors up to its square root is prime |
| PrimeTables.PrimesAreUnbounded | ext/gtest/samples/prime_tables.h:69-75 | above every number there is a prime, so the search ends |
| PrimeTables.GetNextPrimeOnTheFly | ext/gtest/samples/prime_tables.h:69-75 | the least prime above p for every p from 0 on; -1 for every negative p, against the documentation |
| PrimeTables.PreCalculatedPrimeTable.constructor | ext/gtest/samples/prime_tables.h:83-86 | the table is filled for every capacity from 1 on |
| PrimeTables.PreCalculatedPrimeTable.CalculatePrimesUpTo | ext/gtest/samples/prime_tables.h:102-114 | each cell of the sieve says whether its number is prime |
| PrimeTables.PreCalculatedPrimeTable.MarkMultiples | ext/gtest/samples/prime_tables.h:108-113 | crossing out multiples removes exactly the proper multiples of i |
| PrimeTables.CompositeAddsNothing | ext/gtest/samples/prime_tables.h:106 | skipping a crossed-out number loses nothing |
| PrimeTables.PreCalculatedPrimeTable.IsPrime | ext/gtest/samples/prime_tables.h:89-91 | primality within the capacity, false beyond |
| PrimeTables.PreCalculatedPrimeTable.GetNextPrime | ext/gtest/samples/prime_tables.h:93-99 | the least prime above p if the table holds it, otherwise -1 |
| PrimeTables.HybridPrimeTable.constructor | ext/gtest/samples/sample8_unittest.cc:52-56 | a sieve unless told to go without |
| PrimeTables.HybridPrimeTable.IsPrime | ext/gtest/samples/sample8_unittest.cc:62-67 | primality of every integer, for every capacity and either setting of the flag |
| PrimeTables.HybridPrimeTable.GetNextPrime | ext/gtest/samples/sample8_unittest.cc:69-75 | the least prime above p for every p from 0 on, whichever table answers; for -1 the answer depends on the table |
| PrimeTables.Factorial | ext/gtest/samples/sample1.cc:37-44 | the product of 1 to n, and 1 for n up to 0 |
| PrimeTables.IsPrimeOdd | ext/gtest/samples/sample1.cc:47-68 | trial division by odd numbers bounded by the quotient decides primality of every integer |

## Left out

- Listeners, console output, timing and message texts of failures: text without further structure.
- Environments, fixtures, set-up and tear-down around each test: the runner model records which tests are visited, in which order.
- TestRunner.UnitTestImpl.RunAllTests: a run with a negative repeat count never ends, so a run is watched for as many iterations as one likes and its end is not modelled.
- Reading flags and environment variables, the shard status file, and the errors of inconsistent shard variables.
- The const `GetTestCase(i)`, which ignores the shuffled order: order is stated on `GetMutableTestCase`.
- TestRunner.TestCase.AddTestInfo: a test is its name and the three flags that filtering writes, because its factory and result play no part in selection and order.
- Mutexes and the registry of leaked mocks: calls are handled one at a time.
- Actions, default actions, reports of uninteresting and excessive calls, and cardinalities written by users.
- `MatchMatrix::SetEdge`, `Randomize` and the texts of match explanations: easy members.
- DeathTestFlag.AssumeRole: pipes, processes and the Windows branch are foreign calls; the model covers the choice of role and the flag handed on in the threadsafe style, and for the fast style that the test is left to a fork.
- The status byte a death test child sends back and the verdict on its output.
- The POSIX branch of `RE`, which hands the pattern to the C library.
- Trigraphs and universal character names when a C++ literal is read back.
- PrimeTables.PreCalculatedPrimeTable.GetNextPrime: requires p to be at least -1, because the source reads its array at p + 1.
- Overflow of 32-bit integers in the prime samples and of the death test counter.
- The rest of the repository: the router itself, JSON and protocol buffer libraries, yaSSL, build scripts and code generators.
