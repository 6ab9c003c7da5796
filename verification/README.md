# Verified models of the database layer's test framework

The repository is a thin C++ database layer (`dbabstract/`) that carries Google
Test 1.7.0 with it. Its algorithms are in Google Test, plus one string escaper
in the ODBC driver. This project models them in Dafny, in the form the source
gives them, and proves what they are for. `dafny verify dfyconfig.toml` checks
everything.

Each group of modules has a specification that does not know the algorithm, and
lemmas or method contracts that connect the two for all inputs.

- **Shared pointers** (`Ownership`, `Circles`, `SharedCircles`, `LinkedPtr`).
  `linked_ptr` keeps no count: pointers to one object form a circle of links.
  The classes in `LinkedPtr` rewrite real `next` fields; every operation is
  shown to move the heap along a *history* of captures, copies and departures,
  and what holds of every lawful history is proved by induction over it:
  following links from one live pointer reaches another exactly when both hold
  the same object, and an object is deleted exactly once, by the departure of
  its last pointer. Both predecessor walks end.
- **Simple regular expressions** (`RegexSyntax`, `SimpleRegex`, `RegexObject`).
  The validator accepts exactly the strings that write down a well-formed
  regex; the recursive matcher decides a declarative language semantics taken
  from the documented table; anchoring a pattern is proved correct exactly
  where it is.
- **Death tests** (`DeathTest`, `DeathTestProtocol`, `DeathTestFlag`,
  `DeathTestChild`, with `Decimal`, `Fields`). Parent, child and pipe as a
  state machine over system calls; its promises are proved in every
  interleaving. The flags that a threadsafe child is given survive splitting
  and parsing, mark exactly the tests of its own full name, and let exactly the
  intended death test run.
- **Registering, selecting, ordering and running tests** (`TestFilter`,
  `Sharding`, `Shuffle`, `RandomSeeds`, `TestOrder`, `TestRun`,
  `TestRegistry`, `RegisteredRun`). The classes in `TestRegistry` keep the vectors and index
  permutations of the source and are tied method by method to functions on a
  registry value. `RunAllTests` ends with each selected test run exactly once
  in every iteration whose set-up succeeds, death tests first, and with
  registration order restored; and so for any sequence of registrations.
- **Encoders** (`Utf8`, `WideString`, `CppLiteral`, `XmlOutput`, `XmlLineEnds`,
  `SqlLiteral`, with `Hexadecimal`, `Ostreams`). Each is specified by a reader of its output,
  written from the standard for that format, and shown to be undone by it.
- **Paths** (`FilePath`, `Directories`). Normalization, the search for an
  unused file name, and recursive directory creation, with their termination.
- **Primes** (`Primes`, `PrimeTables`, `OddDivisors`). Trial division, the
  sieve and the table that combines them agree with the definition of a prime;
  the search for the next prime ends by Euclid's theorem.
- **Flags** (`FlagParsing`). Compaction of `argv` in place, and what the flags
  are set to.

`Wrappers`, `Collections` and `MachineIntegers` hold what several modules share.

## Where the code is not what its comments say

The model follows the code. Each case has a lemma or, where it is one
operation's own result, a contract.

- `RE::Init` takes a pattern ending in an escaped `\$` for an anchored one, so
  `FullMatch` decides whole-string membership exactly for the other patterns
  (`RegexObject.FullMatchIsWholeStringMatch`, `RegexObject.EscapedDollarExample`).
- A NUL is printed as `\0` and takes an octal digit after it along; printed
  strings read back exactly when that does not occur
  (`CppLiteral.PrintedReadsBack`, `CppLiteral.NulBeforeOctalExample`).
- Values beyond U+10FFFF are said to become a message. They do exactly beyond
  2^21-1 (`Utf8.BeyondUnicode`); 0x110000 is encoded in four bytes
  (`Utf8.BeyondUnicodeExample`), and a wide string reads back exactly when its
  characters stay within 2^21-1 (`WideString.Utf32TextReadsBack`).
- `ParseNaturalNumber` into an `int` also takes the last 2^31 values of the
  64-bit range, as negative numbers (`DeathTestFlag.WhatParseNaturalNumberAccepts`,
  `DeathTestFlag.NotAlwaysNatural`).
- The child's flag is parsed back exactly when the file name has no `|`;
  otherwise the child aborts (`DeathTestFlag.FlagRoundTrip`).
- `RemoveFileName` of `/a_file` gives `/` where the comment says `./`
  (`FilePath.RemoveFileNameExample`). It gives `./` exactly for a path without
  a separator and for a name right below `./` (`FilePath.DirectoryPartIsHere`).
- A parent directory need not have a shorter name than its child
  (`Directories.ParentsNeedNotGetShorter`). It has one exactly when the child's
  name has more than two characters (`Directories.ParentIsShorter`).
- `HybridPrimeTable::GetNextPrime(-1)` finds 2 with a table of size 2 or more,
  and -1 otherwise. The result is the next prime exactly for `p` of 0 and more
  or with such a table (`PrimeTables.HybridPrimeTable.GetNextPrime`).
- `IsValidXmlCharacter` is to say whether a character may appear in a document.
  Where `char` is signed it refuses all bytes past ASCII, which may
  (`XmlOutput.WhatIsValid`, `XmlOutput.DroppedExample`), so a string keeps all
  its characters exactly when XML allows them and, there, they are ASCII
  (`XmlOutput.NothingDropped`).
- The const `GetTestCase(i)` answers with `test_cases_[i]` after looking up the
  permuted index. It agrees with `GetMutableTestCase(i)`, which running uses,
  exactly outside the vector and where the case has not moved
  (`TestRegistry.UnitTestImpl.ConstGetTestCaseAgreesAt`), so for every `i`
  exactly when the cases are not shuffled
  (`TestRegistry.UnitTestImpl.ConstGetTestCaseAgrees`); after a draw of 0 two
  cases come out differently (`TestRegistry.UnitTestImpl.ConstGetTestCaseExample`).

## Model

| member | source | states |
|---|---|---|
| SharedCircles.AlwaysSound | gtest-1.7.0/include/gtest/internal/gtest-linked_ptr.h:89-210 | over every lawful history of constructions, copies, assignments, resets and destructions the links form disjoint circles, non-null pointers share a circle exactly when they share an object, null ones are alone, and no object is leaked, deleted twice or deleted while held |
| SharedCircles.LinkedIffSameObject | gtest-1.7.0/include/gtest/internal/gtest-linked_ptr.h:107-129 | walking links from one live pointer reaches another exactly when both hold the same object |
| SharedCircles.DeletedExactlyOnce | gtest-1.7.0/include/gtest/internal/gtest-linked_ptr.h:194-196 | a captured object has been deleted once if no live pointer holds it and not at all while one does |
| SharedCircles.DeletedWhenLastLeaves | gtest-1.7.0/include/gtest/internal/gtest-linked_ptr.h:118-129 | one event deletes at most one object, and exactly the one that was held before and is not held after it |
| SharedCircles.DepartureDeletes | gtest-1.7.0/include/gtest/internal/gtest-linked_ptr.h:194-196 | being linked to oneself and not null is the same as being the last holder, so depart deletes exactly then |
| Circles.JoinedIsCircular | gtest-1.7.0/include/gtest/internal/gtest-linked_ptr.h:108-116 | splicing a new member in before another keeps all circles closed and disjoint, with the member in that circle |
| Circles.DepartedIsCircular | gtest-1.7.0/include/gtest/internal/gtest-linked_ptr.h:120-129 | splicing a member out leaves the rest of its circle a circle and the others as they were |
| Ownership.ReleaseBalanced | gtest-1.7.0/include/gtest/internal/gtest-linked_ptr.h:194-196 | letting go of an object keeps the account of holders and deletions balanced |
| LinkedPtr.FindPredecessor | gtest-1.7.0/include/gtest/internal/gtest-linked_ptr.h:112-126 | the walk of join and depart ends, at the one pointer that links to the given one |
| LinkedPtr.LinkedPtr.JoinNew | gtest-1.7.0/include/gtest/internal/gtest-linked_ptr.h:92-94 | the pointer is linked to itself |
| LinkedPtr.LinkedPtr.Join | gtest-1.7.0/include/gtest/internal/gtest-linked_ptr.h:108-116 | only the predecessor of the joined pointer changes its link, to the newcomer, which links on |
| LinkedPtr.LinkedPtr.DepartLink | gtest-1.7.0/include/gtest/internal/gtest-linked_ptr.h:120-129 | only the predecessor changes its link, past the leaver; the answer says whether the leaver was alone |
| LinkedPtr.LinkedPtr.CaptureRaw | gtest-1.7.0/include/gtest/internal/gtest-linked_ptr.h:198-201 | the pointer then has the raw pointer and is live; the heap is that of the history extended by this capture |
| LinkedPtr.LinkedPtr.CopyFrom | gtest-1.7.0/include/gtest/internal/gtest-linked_ptr.h:203-209 | the pointer then has the other's object, null or not, and is live; the heap is that of the history extended by this copy |
| LinkedPtr.LinkedPtr.Depart | gtest-1.7.0/include/gtest/internal/gtest-linked_ptr.h:194-196 | the object is deleted exactly when no other live pointer has it; the heap is that of the history extended by this departure |
| LinkedPtr.LinkedPtr.FromRaw | gtest-1.7.0/include/gtest/internal/gtest-linked_ptr.h:142 | the new pointer has the raw pointer: construction is a capture |
| LinkedPtr.LinkedPtr.Copy | gtest-1.7.0/include/gtest/internal/gtest-linked_ptr.h:147-150 | the new pointer has the other's object: copy construction is a copy |
| LinkedPtr.LinkedPtr.AssignFrom | gtest-1.7.0/include/gtest/internal/gtest-linked_ptr.h:159-165 | the pointer then has the other's object, and its former one is deleted exactly when no other live pointer has it; nothing at all on self-assignment |
| LinkedPtr.LinkedPtr.ResetTo | gtest-1.7.0/include/gtest/internal/gtest-linked_ptr.h:168-171 | the pointer then has the raw pointer, and its former object is deleted exactly when no other live pointer has it |
| LinkedPtr.LinkedPtr.Destroy | gtest-1.7.0/include/gtest/internal/gtest-linked_ptr.h:143 | the pointer is gone, and its object with it exactly when no other live pointer has it |
| RegexSyntax.PunctuationListed | gtest-1.7.0/src/gtest-port.cc:211-213 | the listed punctuation is exactly four ASCII ranges |
| RegexSyntax.EscapesListed | gtest-1.7.0/src/gtest-port.cc:222-224 | what the scan takes after a backslash is exactly the eleven documented letters and the listed punctuation |
| RegexSyntax.AtomsAsDocumented | gtest-1.7.0/src/gtest-port.cc:228-247 | a valid atom matches exactly the characters that the documented table gives it |
| RegexSyntax.AcceptsExactlyTheGrammar | gtest-1.7.0/src/gtest-port.cc:257-311 | the scan accepts exactly the strings that write down a regex whose escapes are documented ones and whose other atoms are ordinary characters |
| RegexSyntax.ReadBack | gtest-1.7.0/src/gtest-port.cc:257-311 | and parsing gives back the regex that was written, so the writing is unambiguous |
| SimpleRegex.ValidateRegex | gtest-1.7.0/src/gtest-port.cc:257-311 | the loop over is_valid and prev_repeatable decides the scan, and refuses NULL |
| SimpleRegex.MatchRepetitionAndRegexAtHead | gtest-1.7.0/src/gtest-port.cc:320-342 | true exactly when some prefix of the string is in the language of the repeated atom followed by the rest, all of it under a final $ |
| SimpleRegex.MatchRegexAtHead | gtest-1.7.0/src/gtest-port.cc:347-373 | true exactly when some prefix of the string is in the language, all of it under a final $ |
| SimpleRegex.MatchRegexAnywhere | gtest-1.7.0/src/gtest-port.cc:383-396 | true exactly when some substring is in the language, with ^ and $ at the ends of the whole string; false for NULL |
| RegexObject.AnchoredIsValid | gtest-1.7.0/src/gtest-port.cc:427-447 | the anchored form of a valid pattern is valid and is the same regex between anchors, but for a missing end anchor after an escaped $ |
| RegexObject.AnchoredDecidesFullMatch | gtest-1.7.0/src/gtest-port.cc:406-408 | searching for the anchored pattern decides membership of the whole string, or of a prefix after an escaped $ |
| RegexObject.FullMatchIsWholeStringMatch | gtest-1.7.0/src/gtest-port.cc:444-445 | full match means whole-string membership for all strings if and only if the pattern does not end in an escaped $ |
| RegexObject.EscapedDollarExample | gtest-1.7.0/src/gtest-port.cc:444-445 | the pattern \$ fully matches "$x", which is not in its language |
| RegexObject.RepetitionsAsDocumented | gtest-1.7.0/src/gtest-port.cc:320-342 | for an ordinary character c, the pattern ^c?$ stands for at most one c, ^c*$ for any number, ^c+$ for at least one and ^c$ for exactly one |
| RegexObject.RE.constructor | gtest-1.7.0/src/gtest-port.cc:417-448 | the pattern is kept, checked, and anchored in a buffer it fits into |
| RegexObject.RE.FullMatch | gtest-1.7.0/src/gtest-port.cc:406-408 | on the stored pattern, whole-string membership (or prefix membership after an escaped $) |
| RegexObject.RE.PartialMatch | gtest-1.7.0/src/gtest-port.cc:412-414 | on the stored pattern, membership of some substring |
| DeathTest.CheckSyscall | gtest-1.7.0/src/gtest-death-test.cc:289-300 | the retry macro goes by the first result that is not an interruption |
| DeathTest.BytesNameOutcomes | gtest-1.7.0/src/gtest-death-test.cc:437-449 | the byte written for a reason is read as the outcome of that name, and as that of no other reason |
| DeathTest.WhatIsInterpreted | gtest-1.7.0/src/gtest-death-test.cc:425-464 | L, R and T are read as lived, returned and threw, the end of the pipe as died, and nothing else as an outcome |
| DeathTest.FirstRead | gtest-1.7.0/src/gtest-death-test.cc:433-435 | the result that counts is the first that is not an interruption |
| DeathTest.FirstCall | gtest-1.7.0/src/gtest-death-test.cc:289-300 | and so of every retried call |
| DeathTest.DeathTestImpl.ReadAndInterpretStatusByte | gtest-1.7.0/src/gtest-death-test.cc:425-464 | end of file means died, the three bytes lived, threw and returned, anything else ends the parent; the descriptor is closed and forgotten |
| DeathTest.DeathTestImpl.Wait | gtest-1.7.0/src/gtest-death-test.cc:799-809 | the status stored and returned is the child's |
| DeathTest.DeathTestImpl.Abort | gtest-1.7.0/src/gtest-death-test.cc:470-488 | the one byte for the reason is written and the child exits with 1 |
| DeathTest.DeathTestImpl.Passed | gtest-1.7.0/src/gtest-death-test.cc:530-577 | true exactly when the test was spawned, died, had its status accepted, and left on stderr a part that is in the language of the test's regex; no answer before the test is concluded |
| DeathTestProtocol.AlwaysInv | gtest-1.7.0/src/gtest-death-test.cc:822-863 | in every interleaving the invariant of processes, pipe ends and outcome holds |
| DeathTestProtocol.AtMostOneStatusByte | gtest-1.7.0/src/gtest-death-test.cc:470-488 | in every interleaving at most one byte is written, none if the child dies inside the statement |
| DeathTestProtocol.AbortIsCalledOnce | gtest-1.7.0/include/gtest/internal/gtest-death-test-internal.h:160-209 | in every interleaving Abort is called at most once, so that the sentinel's destructor never reports a second time; the reason is named after how the statement ended; and a child that has ended called it exactly when the statement fell through, threw or returned |
| DeathTestProtocol.OutcomeIsWhatHappened | gtest-1.7.0/src/gtest-death-test.cc:437-449 | in every interleaving the parent's outcome names the way the statement ended |
| DeathTestProtocol.PassesIffDiedAsExpected | gtest-1.7.0/include/gtest/internal/gtest-death-test-internal.h:185-216 | in every interleaving that ends, the test passes exactly when the child died inside the statement with an accepted status and matching output |
| DeathTestProtocol.ExpectDeathPasses | gtest-1.7.0/include/gtest/internal/gtest-death-test-internal.h:185-216 | in every interleaving that ends, EXPECT_DEATH passes exactly when the child ended inside the statement, not with exit code 0, and left on stderr what the regex denotes |
| DeathTestProtocol.DeathIsUnsuccessfulExit | gtest-1.7.0/src/gtest-death-test.cc:208-210 | under EXPECT_DEATH a pass means that the child did not exit with 0 |
| DeathTestProtocol.NoWriteWithoutReader | gtest-1.7.0/src/gtest-death-test.cc:478 | a child that reports has a reader for as long as the parent lives |
| DeathTestProtocol.RunsAreShort | gtest-1.7.0/src/gtest-death-test.cc:433-435 | a run has at most thirteen uninterrupted steps |
| DeathTestProtocol.NeverBlocked | gtest-1.7.0/src/gtest-death-test.cc:429-435 | until the parent is done some process can go on, and once the child has ended the parent can |
| DeathTestFlag.SplitString | gtest-1.7.0/src/gtest-death-test.cc:1208-1223 | the fields contain no delimiter and joined by it give the string |
| DeathTestFlag.WhatParseNaturalNumberAccepts | gtest-1.7.0/src/gtest-internal-inl.h:1002-1040 | exactly which strings are accepted into an int, and as what value |
| DeathTestFlag.NotAlwaysNatural | gtest-1.7.0/src/gtest-internal-inl.h:1034-1038 | 2^64-1 is accepted, as -1 |
| DeathTestFlag.ParseInternalRunDeathTestFlag | gtest-1.7.0/src/gtest-death-test.cc:1296-1338 | the four fields become the flag; any other number of fields, or one that is not a number, is fatal |
| DeathTestFlag.FlagRoundTrip | gtest-1.7.0/src/gtest-death-test.cc:1121-1125 | the child parses back exactly what the parent serialized if and only if the file name has no bar |
| DeathTestFlag.CurrentTest.Create | gtest-1.7.0/src/gtest-death-test.cc:1153-1203 | each call counts one death test and skips, creates or refuses by comparing place and index with the flag |
| DeathTestFlag.WhatTheFactoryAnswers | gtest-1.7.0/src/gtest-death-test.cc:1153-1203 | without a flag, or at the place and index it names, the style decides between the two kinds; else a test up to the index of the flag is skipped |
| DeathTestFlag.CurrentTest.ChildFlag | gtest-1.7.0/src/gtest-death-test.cc:1121-1125 | what the parent passes on is read as the current death test, its place and the descriptor, or aborts the child when the file name has a bar |
| DeathTestFlag.CurrentTest.Reach | gtest-1.7.0/src/gtest-death-test.cc:1153-1203 | a body that reaches its death tests in turn gets the answers for indices counting from 1 |
| DeathTestFlag.ReExecute | gtest-1.7.0/src/gtest-death-test.cc:1118-1176 | parent and child as objects: from the parent's k-th death test through the serialized flag, the child's body skips all earlier ones, creates the k-th and fails at later ones |
| DeathTestFlag.ChildRunsTheIntendedTest | gtest-1.7.0/src/gtest-death-test.cc:1153-1203 | over a test's sequence of death tests the child skips all before the intended one, runs that one, and would fail at any later one |
| TestFilter.MatcherDecidesGlob | gtest-1.7.0/src/gtest.cc:440-455 | the recursive matcher is true exactly when the whole string can be cut into one fitting piece for each pattern character before the first colon |
| TestFilter.MatchesFilter | gtest-1.7.0/src/gtest.cc:457-476 | true exactly when some colon-separated pattern matches the whole name |
| TestFilter.FilterMatchesTest | gtest-1.7.0/src/gtest.cc:480-506 | true exactly when the full name is in the positive list and not in the negative one |
| TestFilter.PositiveMinusNegative | gtest-1.7.0/src/gtest.cc:493-505 | for positive-negative, split at the first dash, what is in the positive list (all, if it is empty) and not in the negative one |
| TestFilter.PositiveOnly | gtest-1.7.0/src/gtest.cc:490-492 | a filter without a dash selects what is in it |
| TestFilter.NoNegativeExcludesNothing | gtest-1.7.0/src/gtest.cc:490-492 | without a negative list only the positive one decides |
| TestFilter.LeadingDashSelectsTheRest | gtest-1.7.0/src/gtest.cc:496-499 | a filter that starts with a dash selects everything its negative list does not name |
| TestFilter.PlainFilter | gtest-1.7.0/src/gtest.cc:480-506 | a name without filter characters, as a filter, selects just the tests of that full name |
| Shuffle.ShuffleRange | gtest-1.7.0/src/gtest-internal-inl.h:311-328 | one draw below each width from the range down to 2 is made; the vector ends as the function of the draws, and whatever they are it is only rearranged inside the range |
| Shuffle.ShuffleRearranges | gtest-1.7.0/src/gtest-internal-inl.h:323-327 | for all draws each value in the range is one that was in it, different values stay different, and nothing moves across the ends of the range |
| Shuffle.ShuffleKeepsElements | gtest-1.7.0/src/gtest-internal-inl.h:323-327 | for all draws nothing is lost and nothing is repeated, even among equal elements |
| Shuffle.ShuffleKeepsOrder | gtest-1.7.0/src/gtest-internal-inl.h:311-328 | a permutation of the positions stays one |
| Shuffle.EveryOrderPossible | gtest-1.7.0/src/gtest-internal-inl.h:321-327 | some draws bring about any given order from any other |
| RandomSeeds.GetRandomSeedFromFlag | gtest-1.7.0/src/gtest-internal-inl.h:135-146 | the seed is valid for every flag and time, and a valid seed that the user gives is kept |
| RandomSeeds.SeedIsOfTimeOrFlag | gtest-1.7.0/src/gtest-internal-inl.h:135-146 | the seed differs by a multiple of 99999 from the time for flag 0, and else from the flag, as unsigned numbers |
| RandomSeeds.SeedsCountUp | gtest-1.7.0/src/gtest-internal-inl.h:151-157 | the seeds of the iterations count up from the first and start again after 99999 |
| RandomSeeds.SeedsRepeat | gtest-1.7.0/src/gtest-internal-inl.h:151-157 | two iterations have the same seed exactly when a whole number of cycles through all seeds lies between them |
| Sharding.ExactlyOneShard | gtest-1.7.0/src/gtest.cc:4444-4446 | every test id is on exactly one shard |
| Sharding.ShardsTakeTurns | gtest-1.7.0/src/gtest.cc:4444-4446 | a shard gets the test ids that are its index and a multiple of the number of shards more |
| Sharding.ShardsPartitionTheTests | gtest-1.7.0/src/gtest.cc:4444-4446 | shard sizes add up to the number of tests and differ by at most one |
| TestOrder.RegistrationPartitions | gtest-1.7.0/src/gtest.cc:4173-4206 | for every registration sequence the cases are the names first seen, death test cases before the others and each part in the order seen, the boundary index between them, each case with its tests in order |
| TestOrder.BoundaryIsByName | gtest-1.7.0/src/gtest.cc:4190-4198 | a case stands at or before last_death_test_case_ exactly when its name matches the death test filter |
| TestOrder.DeathCaseNames | gtest-1.7.0/src/gtest.cc:155-158 | death test cases are those whose name ends in DeathTest or contains DeathTest/ |
| TestOrder.DisabledNames | gtest-1.7.0/src/gtest.cc:151-153 | a name is disabled if it begins with DISABLED_ or contains /DISABLED_ |
| TestRun.OneShardSelects | gtest-1.7.0/src/gtest.cc:4492-4496 | each runnable test is selected by exactly one shard index |
| TestRun.WhatIsMarked | gtest-1.7.0/src/gtest.cc:4475-4505 | each test is marked as disabled by name, as matching the filter, and to run if it is not excluded by either and has its turn on the shard |
| TestRun.WhatElseIsMarked | gtest-1.7.0/src/gtest.cc:4463-4510 | a case is to run exactly when one of its tests is; order and names stay |
| TestRun.ShardsShareTheTests | gtest-1.7.0/src/gtest.cc:4498-4507 | the per-shard counts of selected tests add up to the runnable total and differ by at most one |
| TestRun.ShuffleKeepsSound | gtest-1.7.0/src/gtest.cc:4601-4613 | for every outcome of the random numbers both index levels stay permutations and all death cases come first |
| TestRun.EveryRunningOrderPossible | gtest-1.7.0/src/gtest.cc:4601-4613 | some draws bring about, all at once, any order of the death cases, any of the others and any of each case's tests |
| TestRun.UnshuffleUndoesShuffle | gtest-1.7.0/src/gtest.cc:4616-4623 | unshuffling restores exactly the registry before any shuffle |
| TestRun.EachSelectedTestRunsOnce | gtest-1.7.0/src/gtest.cc:4313-4316 | in any order that is a permutation, each test marked to run occurs exactly once in the run and no other does |
| TestRun.DeathTestsRunFirst | gtest-1.7.0/src/gtest.cc:4599-4607 | no test of an ordinary case runs before one of a death test case |
| TestRun.UnshuffledRunsInOrder | gtest-1.7.0/src/gtest.cc:4313-4316 | what is not shuffled runs in the order of its cases, and within a case of its tests |
| TestRun.NothingToRun | gtest-1.7.0/src/gtest.cc:4257-4259 | a returned count of zero means that no test is marked to run |
| TestRegistry.TestCase.AddTestInfo | gtest-1.7.0/src/gtest.cc:2423-2426 | the test and its index are appended |
| TestRegistry.TestCase.ShuffleTests | gtest-1.7.0/src/gtest.cc:2463-2465 | only the index permutation changes, as the draws say |
| TestRegistry.TestCase.UnshuffleTests | gtest-1.7.0/src/gtest.cc:2468-2472 | the indices count up again and nothing else changes |
| TestRegistry.UnitTestImpl.GetTestCase | gtest-1.7.0/src/gtest.cc:4173-4206 | the case of that name, new ones placed as the registry function says |
| TestRegistry.UnitTestImpl.AddCase | gtest-1.7.0/src/gtest.cc:4185-4205 | a new case goes behind the last death test case if its name is one's, and to the end otherwise |
| TestRegistry.UnitTestImpl.ConstGetTestCaseAgreesAt | gtest-1.7.0/src/gtest-internal-inl.h:586-596 | the const and the mutable accessor agree at i if and only if i is outside the vector or the case there has not moved |
| TestRegistry.UnitTestImpl.ConstGetTestCaseAgrees | gtest-1.7.0/src/gtest-internal-inl.h:586-596 | they agree everywhere if and only if the cases are not shuffled |
| TestRegistry.UnitTestImpl.ConstGetTestCaseExample | gtest-1.7.0/src/gtest-internal-inl.h:586-596 | two cases swapped by a shuffle for which they differ |
| TestRegistry.UnitTestImpl.AddTestInfo | gtest-1.7.0/src/gtest-internal-inl.h:654-674 | the registry changes by exactly this registration |
| TestRegistry.UnitTestImpl.FilterTests | gtest-1.7.0/src/gtest.cc:4455-4508 | every test is marked disabled, matching and to run as the filter, the disabled names and the shard say; every case to run exactly if one of its tests is; the count is of the selected tests |
| TestRegistry.UnitTestImpl.ShuffleTests | gtest-1.7.0/src/gtest.cc:4601-4613 | the registry is the shuffled one for the draws made |
| TestRegistry.UnitTestImpl.UnshuffleTests | gtest-1.7.0/src/gtest.cc:4616-4623 | both index levels count up again and nothing else changes |
| TestRegistry.UnitTestImpl.RunTestCase | gtest-1.7.0/src/gtest.cc:2429-2452 | the tests marked to run are run, in index order, if the case is |
| TestRegistry.UnitTestImpl.RunIterations | gtest-1.7.0/src/gtest.cc:4281-4348 | for every repeat count, and any number of first iterations where it is negative: every iteration with a successful set-up runs each selected test once, death tests first, in registration order without shuffling and with it in the order that its draws make, and registration order is back after each |
| TestRegistry.UnitTestImpl.RunAllTests | gtest-1.7.0/src/gtest.cc:4244-4348 | filtering and then repeating, unsharded and once in a death test's child: the same, from any unshuffled registry |
| RegisteredRun.PlacesDiffer | gtest-1.7.0/src/gtest.cc:4173-4206 | registrations, even of the same names, never end up at the same place of the registry |
| RegisteredRun.EveryPlaceIsRegistered | gtest-1.7.0/src/gtest.cc:4173-4206 | and each place of it is that of a registration |
| RegisteredRun.OneShardRuns | gtest-1.7.0/src/gtest.cc:4481-4496 | each runnable registration is to run on exactly one shard |
| RegisteredRun.RegisterAndRun | gtest-1.7.0/src/gtest.cc:4222-4348 | whatever was registered in whatever order, each iteration whose set-up succeeds runs each registration selected on the shard (all runnable ones without sharding) once and nothing else, those of death test cases first, and otherwise in registration order or, shuffled, in the order of the draws |
| FilePath.Normalize | gtest-1.7.0/src/gtest-filepath.cc:351-379 | the buffer ends up with runs of separators shortened to one |
| FilePath.NormalizeKeepsMeaning | gtest-1.7.0/src/gtest-filepath.cc:347-351 | normalizing leaves no double separator, is idempotent, and keeps the components, the leading and the trailing separator |
| FilePath.DirectoryPartCuts | gtest-1.7.0/src/gtest-filepath.cc:161-170 | RemoveFileName takes off exactly what follows the last separator, and gives ./ when there is none |
| FilePath.DirectoryPartIsHere | gtest-1.7.0/src/gtest-filepath.cc:155-170 | it gives ./ if and only if the path has no separator or is a name right below ./ |
| FilePath.RemoveFileNameExample | gtest-1.7.0/src/gtest-filepath.cc:155-170 | for /a_file it gives / |
| FilePath.ConcatPathsComponents | gtest-1.7.0/src/gtest-filepath.cc:194-200 | the components of the result are those of the directory and then those of the relative path |
| FilePath.ConcatPathsEnds | gtest-1.7.0/src/gtest-filepath.cc:194-200 | the result begins as the directory does and ends as the relative path does, or in a separator if that is empty |
| FilePath.CandidateComponents | gtest-1.7.0/src/gtest-filepath.cc:178-190 | MakeFileName names base.extension, or base_number.extension, in the directory |
| FilePath.CandidateShape | gtest-1.7.0/src/gtest-filepath.cc:178-200 | through all normalization the number stands between a prefix and a tail that do not depend on it |
| FilePath.CandidatesDiffer | gtest-1.7.0/src/gtest-filepath.cc:178-190 | MakeFileName is injective in its number |
| FilePath.NotMoreThan | gtest-1.7.0/src/gtest-filepath.cc:286-288 | if the first n candidates exist, the file system has at least n names |
| FilePath.GenerateUniqueFileName | gtest-1.7.0/src/gtest-filepath.cc:281-290 | over any finite file system it ends with the candidate of the smallest number that does not exist |
| Directories.ParentsNeedNotGetShorter | gtest-1.7.0/src/gtest-filepath.cc:161-170 | the parent of a/ is ./, which is no shorter and its own parent |
| Directories.ParentIsShorter | gtest-1.7.0/src/gtest-filepath.cc:312 | a parent has a shorter name if and only if the directory's has more than two characters |
| Directories.ParentDropsLastComponent | gtest-1.7.0/src/gtest-filepath.cc:312 | the parent has all the components but the last, with ./ standing in above a lone relative one |
| Directories.FileSystem.CreateFolder | gtest-1.7.0/src/gtest-filepath.cc:320-336 | true exactly when the directory was there, or its parent was and mkdir is permitted; then it is there, and nothing else is added |
| Directories.FileSystem.CreateDirectoriesRecursively | gtest-1.7.0/src/gtest-filepath.cc:303-314 | it ends; it makes the missing ancestry from the topmost down, up to the first directory that is not permitted; true exactly for a directory name none of whose missing ancestry is refused |
| Directories.FileSystem.ExistsWithAncestry | gtest-1.7.0/src/gtest-filepath.cc:300-302 | a directory that exists has all its ancestors |
| Directories.MissingIsMissing | gtest-1.7.0/src/gtest-filepath.cc:312-313 | the directories to be made are exactly the ancestors that do not exist |
| Directories.ParentsComeFirst | gtest-1.7.0/src/gtest-filepath.cc:312-313 | in the ancestry each directory comes right after its parent |
| Utf8.BeyondUnicode | gtest-1.7.0/src/gtest.cc:1432-1439 | a value beyond U+10FFFF becomes the message if and only if it needs more than 21 bits |
| Utf8.BeyondUnicodeExample | gtest-1.7.0/src/gtest.cc:1419-1462 | 0x110000 becomes four bytes |
| Utf8.MessageExample | gtest-1.7.0/src/gtest.cc:1438 | the message for a number, in hexadecimal and upper case |
| Utf8.DecodeCodePoint | gtest-1.7.0/src/gtest.cc:1436-1463 | each code point from 1 to 2^21-1 is read from its bytes, whatever follows |
| Utf8.OnlyItsEncoding | gtest-1.7.0/src/gtest.cc:1436-1463 | no other bytes are read as that code point |
| Utf8.DecodeToUtf8 | gtest-1.7.0/src/gtest.cc:1498-1521 | the encoding of a sequence decodes to it if and only if none of it needs more than 21 bits |
| Utf8.ToUtf8Decoded | gtest-1.7.0/src/gtest.cc:1498-1521 | bytes that decode are the encoding of what they decode to |
| WideString.AreTheCodePoints | gtest-1.7.0/src/gtest.cc:1472-1487 | the code points of 16-bit text are the only reading that UTF-16 writes back as the text and that leaves no pair apart |
| WideString.Utf16TextReadsBack | gtest-1.7.0/src/gtest.cc:1498-1521 | no 16-bit character is lost in the UTF-8, paired or not |
| WideString.Utf32TextReadsBack | gtest-1.7.0/src/gtest.cc:1498-1521 | 32-bit text reads back if and only if no character has more than 21 bits |
| WideString.WideStringToUtf8 | gtest-1.7.0/src/gtest.cc:1498-1521 | the output is the encoding of the code points of the text up to the limit or the first NUL |
| WideString.TextWithinLimit | gtest-1.7.0/src/gtest.cc:1498-1521 | the text converted is the longest beginning without a NUL of at most the given number of characters |
| CppLiteral.PrintNextTo | gtest-1.7.0/src/gtest-printers.cc:261-268 | one turn of the loop adds a break if the character would be read into the escape before it, and the character's own text |
| CppLiteral.PrintCharsAsStringTo | gtest-1.7.0/src/gtest-printers.cc:251-271 | the stream gains exactly the printed literals of the string, narrow or wide |
| CppLiteral.PlainTextAsIs | gtest-1.7.0/src/gtest-printers.cc:251-271 | printable text without quotes and backslashes is printed as it is between quotes, after an L if it is wide |
| CppLiteral.PrintableAsIs | gtest-1.7.0/src/gtest-printers.cc:180-206 | a printable character stands for itself |
| CppLiteral.LetterWhereThereIsOne | gtest-1.7.0/src/gtest-printers.cc:141-206 | any other that has a simple escape gets that |
| CppLiteral.HexadecimalForTheRest | gtest-1.7.0/src/gtest-printers.cc:141-190 | and the rest are in hexadecimal, save NUL |
| CppLiteral.BrokenWhereNeeded | gtest-1.7.0/src/gtest-printers.cc:261-268 | the literal is broken exactly between a hexadecimal escape and a hexadecimal digit |
| CppLiteral.ReadPiece | gtest-1.7.0/src/gtest-printers.cc:141-206 | each character but NUL is read back from its own escape |
| CppLiteral.ReadPrinted | gtest-1.7.0/src/gtest-printers.cc:251-271 | what the printed text of any string denotes |
| CppLiteral.PrintedReadsBack | gtest-1.7.0/src/gtest-printers.cc:251-271 | the adjacent literals denote exactly the string if and only if no NUL has an octal digit after it |
| CppLiteral.NulBeforeOctalExample | gtest-1.7.0/src/gtest-printers.cc:144-146 | NUL and the digit 1 print as an escape for code 1 |
| XmlOutput.EscapeXml | gtest-1.7.0/src/gtest.cc:3139-3181 | the loop writes the escape of every character, for attributes and for text |
| XmlOutput.PlainTextAsIs | gtest-1.7.0/src/gtest.cc:3139-3181 | text that means nothing in XML is written as it is |
| XmlOutput.EscapedReadsBack | gtest-1.7.0/src/gtest.cc:3139-3181 | an XML processor reads from it exactly the valid characters, in spite of attribute-value normalization; line ends apart |
| XmlOutput.WhatIsValid | gtest-1.7.0/src/gtest.cc:3021-3028 | the characters taken for valid are those that XML 1.0 allows, without the bytes past ASCII where char is signed |
| XmlOutput.NothingDropped | gtest-1.7.0/src/gtest.cc:3185-3194 | a string keeps all its characters if and only if XML allows them all and, where char is signed, they are ASCII |
| XmlOutput.ValidConcat | gtest-1.7.0/src/gtest.cc:3185-3194 | each character is kept or dropped by itself |
| XmlOutput.ValidOne | gtest-1.7.0/src/gtest.cc:3025-3028 | and kept exactly when XML allows it and, where char is signed, it is ASCII |
| XmlOutput.DroppedExample | gtest-1.7.0/src/gtest.cc:3025-3028 | the byte 0xE9 is allowed and, where char is signed, dropped |
| XmlOutput.RemoveInvalidXmlCharacters | gtest-1.7.0/src/gtest.cc:3185-3194 | the valid characters remain, in order |
| XmlOutput.OutputXmlCDataSection | gtest-1.7.0/src/gtest.cc:3246-3263 | the stream gains the data with each end marker split off into character data |
| XmlOutput.SectionUnsplit | gtest-1.7.0/src/gtest.cc:3246-3263 | data without an end marker is not split |
| XmlOutput.CDataReadsBack | gtest-1.7.0/src/gtest.cc:3246-3263 | an XML processor reads exactly the data from it, whatever brackets it has, if and only if XML allows all its characters; line ends apart |
| XmlOutput.DetailReadsBack | gtest-1.7.0/src/gtest.cc:3321 | from the section of a failure's details it reads exactly the valid characters of the details; line ends apart |
| XmlOutput.OutputDetail | gtest-1.7.0/src/gtest.cc:3321 | the one caller passes a string without NUL and writes the section of the valid characters |
| XmlLineEnds.AttributeReadsBack | gtest-1.7.0/src/gtest.cc:3139-3181 | an attribute's valid characters are read exactly, carriage returns and newlines included, although the processor first translates line ends |
| XmlLineEnds.TextReadsBack | gtest-1.7.0/src/gtest.cc:3139-3181 | from text the valid characters are read with their line ends translated, so exactly if and only if there is no carriage return |
| XmlLineEnds.CDataReadsBack | gtest-1.7.0/src/gtest.cc:3246-3263 | from a section the data is read with its line ends translated if XML allows it, and exactly if and only if there is also no carriage return |
| XmlLineEnds.DetailReadsBack | gtest-1.7.0/src/gtest.cc:3321 | the same for the valid characters of a failure's details |
| SqlLiteral.PutPiece | dbabstract/odbc/odbc_db.cpp:618-623 | one turn of the loop adds a character, or a quote twice, behind what is there |
| SqlLiteral.Escape | dbabstract/odbc/odbc_db.cpp:610-627 | within a buffer of 2*len+4 the C string is the quoted one |
| SqlLiteral.NothingDoubled | dbabstract/odbc/odbc_db.cpp:618-623 | what has no quote is only put between quotes |
| SqlLiteral.QuotedReadsBack | dbabstract/odbc/odbc_db.cpp:610-627 | in a statement the literal is read as exactly the string and nothing after it if and only if no quote follows, neither at once nor after separators with a newline |
| SqlLiteral.QuotedInjective | dbabstract/odbc/odbc_db.cpp:610-627 | different strings have different literals |
| SqlLiteral.LiteralsAreSegments | dbabstract/odbc/odbc_db.cpp:610-627 | what the reader takes for a literal is exactly a row of quoted segments, each after the first behind separators with a newline, and its value is theirs put together |
| SqlLiteral.OnlyQuoted | dbabstract/odbc/odbc_db.cpp:610-627 | of all literals with a value its quoting is the only one of a single segment |
| SqlLiteral.ContinuedExample | dbabstract/odbc/odbc_db.cpp:610-627 | two quoted strings on two lines are one literal |
| Primes.PrimeAbove | gtest-1.7.0/samples/prime_tables.h:69-75 | there is a prime above every number, which is why the search ends |
| PrimeTables.OnTheFlyPrimeTable.IsPrime | gtest-1.7.0/samples/prime_tables.h:58-67 | trial division up to the square root decides primality |
| PrimeTables.OnTheFlyPrimeTable.GetNextPrime | gtest-1.7.0/samples/prime_tables.h:69-75 | the least prime above p for p of 0 and more, -1 below |
| PrimeTables.PreCalculatedPrimeTable.CalculatePrimesUpTo | gtest-1.7.0/samples/prime_tables.h:101-114 | the sieve leaves marked exactly the primes |
| PrimeTables.PreCalculatedPrimeTable.IsPrime | gtest-1.7.0/samples/prime_tables.h:88-90 | primality, within the table |
| PrimeTables.PreCalculatedPrimeTable.GetNextPrime | gtest-1.7.0/samples/prime_tables.h:92-98 | the least prime above p in the table, or -1 when it has none |
| PrimeTables.HybridPrimeTable.IsPrime | gtest-1.7.0/samples/sample8_unittest.cc:62-67 | primality for every n, every table size, forced or not |
| PrimeTables.HybridPrimeTable.GetNextPrime | gtest-1.7.0/samples/sample8_unittest.cc:69-75 | the next prime if and only if p is 0 or more or the table has 2; with a smaller table or none, -1 below 0 |
| OddDivisors.IsPrime | gtest-1.7.0/samples/sample1.cc:47-68 | trial division by odd numbers, bounded by i > n/i, decides primality |
| FlagParsing.OneFlag | gtest-1.7.0/src/gtest.cc:4677-4703 | no argument can be taken for two flags |
| FlagParsing.SettingSets | gtest-1.7.0/src/gtest.cc:4898-4924 | an argument sets a flag to a value exactly when it has the documented text and form for it, whatever the order of the attempts |
| FlagParsing.WhatParseInt32Accepts | gtest-1.7.0/src/gtest-port.cc:724-760 | exactly the integers of 32 bits are accepted, after white space and with or without a sign, and no text at all as 0 |
| FlagParsing.Int32ReadsBack | gtest-1.7.0/src/gtest-port.cc:724-760 | the decimal text of an integer is accepted, as that integer, exactly when it has 32 bits |
| FlagParsing.PrefixAsDocumented | gtest-1.7.0/src/gtest.cc:4767-4774 | help is shown for what looks like a flag of Google Test after dashes or a slash, but not for an internal one |
| FlagParsing.HelpAsDocumented | gtest-1.7.0/src/gtest.cc:4939-4944 | help is asked for by its four names or by what looks like a flag of Google Test that is not internal |
| FlagParsing.GoogleTestFlags.Examine | gtest-1.7.0/src/gtest.cc:4898-4944 | one argument is recognized, set, or counted as a request for help |
| FlagParsing.GoogleTestFlags.ShiftLeft | gtest-1.7.0/src/gtest.cc:4929-4931 | one argument is taken out, those after it and the closing NULL move down |
| FlagParsing.GoogleTestFlags.ParseGoogleTestFlagsOnlyImpl | gtest-1.7.0/src/gtest.cc:4889-4947 | for any way of recognizing flags: it ends; argv holds the kept arguments and then NULL, argc counts them, the flags and the help flag are what the arguments say |
| FlagParsing.GoogleTestFlags.ParseGoogleTestFlagsOnly | gtest-1.7.0/src/gtest.cc:4957-4961 | the same for the flags of Google Test |
| FlagParsing.KeptAreUnrecognized | gtest-1.7.0/src/gtest.cc:4925-4944 | the program name and the arguments that are not flags are kept, and nothing else |
| FlagParsing.KeptInOrder | gtest-1.7.0/src/gtest.cc:4925-4937 | they are kept in their order |
| FlagParsing.ProgramStaysFirst | gtest-1.7.0/src/gtest.cc:4890 | the first argument is kept, whatever it looks like |
| FlagParsing.LastWins | gtest-1.7.0/src/gtest.cc:4894-4924 | the last argument that sets a flag decides its value |
| FlagParsing.NoneSets | gtest-1.7.0/src/gtest.cc:4894-4924 | a flag that no argument sets stays as it was |
| FlagParsing.ChildSeesItsFlags | gtest-1.7.0/src/gtest-death-test.cc:1118-1129 | whatever flags the parent was given, the child of a threadsafe death test parses its own filter and death test flag |
| FlagParsing.ChildArgumentsAre | gtest-1.7.0/src/gtest-death-test.cc:1118-1129 | the child gets the parent's arguments, a filter flag and the flag that names the death test |
| FlagParsing.OtherFlagsAsInParent | gtest-1.7.0/src/gtest-death-test.cc:1118-1129 | all other flags are in the child what they are in the parent |
| DeathTestChild.ChildMarksItsTest | gtest-1.7.0/src/gtest-death-test.cc:1118-1129 | for a running test with a plain name, the child's FilterTests marks that test, and of the others only those of the same full name that the parent does not leave out as disabled |

## Left out

- DeathTestChild: names with `*`, `?`, `:` or `-`, which the macros do not make, mean more than themselves as a filter.
- DeathTestProtocol: a jump out of the statement counts as returning from it. It covers the fast style; the threadsafe style's fork, chdir and exec, its extra descriptor flags and the child's second run of the program up to the test are not steps of it. `DeathTestFlag` and `FlagParsing` cover what that run is told.
- LinkedPtr: the process-wide mutex and concurrent use; the `link_` member is folded into the pointer that contains it, and the template copy and assignment from `linked_ptr<U>` are those of one type.
- SharedCircles: each raw pointer is captured once, as the class demands of its users.
- DeathTestProtocol.AlwaysInv: the child's system calls fail only by interruption and nobody else holds the write end, as the protocol assumes.
- SimpleRegex: strings are at most 2^64-2 characters, the limit the source states for itself; messages for invalid patterns are not modelled.
- TestRegistry.UnitTestImpl.RunAllTests: for a negative repeat count, which repeats for ever, what is stated is about any number of first iterations. Help, listing and the shard status file are not modelled, nor are listeners, fixtures, environments and results; whether set-up failed fatally is a parameter.
- Shuffle: a random number is any number below its range; the generator that a seed starts is not modelled.
- TestRegistry: the vectors are sequences held in fields, so that a shuffle is an assignment of a changed sequence rather than a swap through a pointer.
- FilePath: POSIX separators only; `FindLastPathSeparator`, `RemoveExtension` and the absolute-path tests would add only easy members.
- Directories: directories are known by their normalized names, so that links, `.` and `..` as aliases, and changes by other processes are not modelled; whether `mkdir` may otherwise make a directory is given by its name and stays the same during a call.
- Utf8: `StringStreamToString` and its treatment of NUL bytes are not modelled; the output here has none.
- CppLiteral: character literals with their codes and the array printer's note on a missing NUL.
- XmlOutput: references to characters past ASCII or by decimal code, which are never written, are not read; characters are bytes, and their being well-formed UTF-8 is not asked for.
- SqlLiteral: introducers and national or bit string literals, which the driver does not write, are not read; the newline, which the standard leaves to the implementation, is `\n`.
- PrimeTables.PreCalculatedPrimeTable.GetNextPrime: asks for p of at least -1, as the source does of its callers: below that it reads before its array. The hybrid table asks the same where it has one.
- PrimeTables: integers are unbounded, so that overflow near the largest int and the -1 it leads to are not modelled; so are numbers of files.
- FlagParsing: `strtol` into a long of 64 bits; warnings for bad numbers and the help text are not printed; strings have no identity, so `argv` is compared by content.
- The MySQL, PostgreSQL and SQLite drivers and the rest of the ODBC driver: calls into client libraries.
- `ODBC_ResultSet::getString`: its static cache is keyed by column only, so agreement with the row is not a property of the code.
- The reference count of `Connection`, the driver factory, `MyString`, the sample queue and counter: easy members.
- POSIX regular expressions, Windows variants, file capture, sockets, colours, console printers, the generated parameter templates and the Python scripts.
