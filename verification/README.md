# qstorage: verified models

Models, with proofs, of the storage code of qstorage and of the vendored GoogleTest and GoogleMock algorithms its
tests rest on. One module stands for one component.

| file | what it models |
|---|---|
| `BipartiteMatching.dfy` | GoogleMock's maximum bipartite matching behind the unordered container matchers |
| `EditScript.dfy`, `UnifiedDiff.dfy` | GoogleTest's edit-distance table, and the unified diff grouped from its scripts |
| `GlobFilter.dfy`, `Sharding.dfy` | test-name globbing, test filters, and the selection of the tests of a shard |
| `SimpleRegex.dfy` | the built-in regular-expression validator and matcher |
| `IoSplit.dfy`, `IoExecution.dfy` | splitting an I/O request into bounded parts, and what executing the parts does |
| `LinkedList.dfy` | the intrusive doubly linked list |
| `Prerequisites.dfy` | GoogleMock's expectation prerequisite graph |
| `BoundedQueue.dfy` | the two-semaphore bounded queue, as a state machine over all interleavings |
| `IoUringLoop.dfy` | the io_uring submission and completion loop, as a state machine with the kernel |
| `RingBuffer.dfy` | the doubly mapped single-producer ring buffer |
| `Utf8.dfy` | the UTF-8 encoder and validator |
| `PrimeTables.dfy` | the sample prime tables: on the fly, by sieve, and the hybrid |
| `Uint128Print.dfy` | decimal printing of 128-bit integers |
| `Arithmetic.dfy`, `Sequences.dfy`, `Wrappers.dfy` | facts and types that several models share |

Code that works in place is modelled by methods over classes, arrays and sequence variables, each proved against a
specification that does not mention how the code works: a maximum matching is one no other matching exceeds, a diff is
right when a strict patch program turns one file into the other, a pattern matches when the declarative relation holds.
The two concurrent components are state machines whose invariants are proved step by step and then for every run.

Where the code falls short of what its documentation or its callers would expect, the code is modelled as it is, and
the exact condition under which the expectation is met is proved for all inputs:

- a unified diff with a context of zero reports nothing, so it patches only equal files;
- the edit script is not always optimal: ties in the table make it too dear, on the walk (`SwappedLinesAreNotOptimal`)
  or beside it (`TieBesideTheWalk`); it is optimal for the inputs and all their prefixes exactly when there is no tie
  (`OptimalIffTieFree`);
- a full regular-expression match of a pattern that ends in an escaped dollar is not anchored at the end
  (`EscapedDollarIsNotAnchored`);
- a split scatter read depends on the order in which its parts complete exactly when it repeats an address across
  stretches of the maximum length (`SplitReadInAnyOrderIff`, `RepeatedAddressDependsOnOrder`);
- the encoder writes surrogates and 21-bit numbers beyond the last code point as if they were characters, although its
  comment promises a message for every invalid code point, and loses NUL;
- the hybrid prime table answers 2 above -1, where the on-the-fly table answers -1;
- inserting into the intrusive list always leaves a wrong end pointer;
- the ring buffer counts committed bytes only, so finishing slices out of order exposes the ones still being written
  (`SliceExposedIff`, `FinishSecondSliceFirst`).

`dafny verify dfyconfig.toml` checks everything.

## Model

| member | source | states |
|---|---|---|
| `BipartiteMatching.MaxBipartiteMatchState.Compute` | deps/extract/googletest-1.17.0/googlemock/src/gmock-matchers.cc:132-163 | for every graph the result is a matching of maximum size, and `left` and `right` end mutually referent over edges, although each left node is tried once |
| `BipartiteMatching.MaxBipartiteMatchState.TryAugment` | deps/extract/googletest-1.17.0/googlemock/src/gmock-matchers.cc:184-208 | terminates by the unvisited right nodes; a success newly matches exactly its argument and spares what was marked before, a failure changes no link and leaves a dead end behind |
| `BipartiteMatching.DeadRegionBoundsMatchings` | deps/extract/googletest-1.17.0/googlemock/src/gmock-matchers.cc:124-163 | a region whose left nodes reach only right nodes matched back into it bounds the size of every matching |
| `BipartiteMatching.DeadRegionCertifiesMaximum` | deps/extract/googletest-1.17.0/googlemock/src/gmock-matchers.cc:124-163 | once every unmatched left node lies in such a region, the recorded links form a maximum matching |
| `BipartiteMatching.LinkAfterSearch` | deps/extract/googletest-1.17.0/googlemock/src/gmock-matchers.cc:193-205 | relinking to a right node whose partner has just found another keeps the two arrays consistent, with exactly one left node newly matched |
| `BipartiteMatching.DeadEnd` | deps/extract/googletest-1.17.0/googlemock/src/gmock-matchers.cc:184-208 | a failed recursive search adds its marks to those already known to lead nowhere |
| `BipartiteMatching.SearchedNext` | deps/extract/googletest-1.17.0/googlemock/src/gmock-matchers.cc:148-156 | after each round of the outer loop every unmatched left node tried so far lies in a dead region, and the later ones are untouched |
| `BipartiteMatching.FindMaxBipartiteMatching` | deps/extract/googletest-1.17.0/googlemock/src/gmock-matchers.cc:228-230 | a matching no other matching exceeds |
| `BipartiteMatching.PairingExistsBySize` | deps/extract/googletest-1.17.0/googlemock/src/gmock-matchers.cc:436-475 | a pairing that covers every matcher (superset), every element (subset) or both (exact match) exists exactly when a maximum matching is that large |
| `BipartiteMatching.FindPairing` | deps/extract/googletest-1.17.0/googlemock/src/gmock-matchers.cc:436-475 | true exactly when some pairing covers all matchers (superset), all elements (subset) or both (exact match) |
| `BipartiteMatching.VerifyMatchMatrix` | deps/extract/googletest-1.17.0/googlemock/src/gmock-matchers.cc:369-434 | true exactly when every matcher (superset), every element (subset), or all of both with equal sizes (exact match) have an edge |
| `BipartiteMatching.PairingNeedsNeighbours` | deps/extract/googletest-1.17.0/googlemock/src/gmock-matchers.cc:369-434 | the pre-filter never rejects a matrix that has a required pairing |
| `BipartiteMatching.MatchAndExplain` | deps/extract/googletest-1.17.0/googlemock/include/gmock/gmock-matchers.h:3851-3861 | pre-filter and search together decide whether some pairing covers all matchers (superset), all elements (subset) or both (exact match) |
| `EditScript.BestPathIsScript` | deps/extract/googletest-1.17.0/googletest/src/gtest.cc:1345-1400 | the path read off the table matches only equal elements, consumes both inputs exactly, and costs what the last cell says |
| `EditScript.ScriptIffReaches` | deps/extract/googletest-1.17.0/googletest/src/gtest.cc:1390-1399 | consuming both inputs from the front is the same as walking the table from its origin to its last cell |
| `EditScript.AllMatchesIffEqual` | deps/extract/googletest-1.17.0/googletest/src/gtest.cc:1345-1400 | no edit is reported exactly when the inputs are equal |
| `EditScript.ReplaceCostsLittleMore` | deps/extract/googletest-1.17.0/googletest/src/gtest.cc:1366-1385 | n replacements are cheaper than n + 1 additions or removals exactly for n below 100000 |
| `EditScript.MoveOfCell` | deps/extract/googletest-1.17.0/googletest/src/gtest.cc:1359-1386 | in every table, tied or not, where the elements differ: Add exactly when that neighbour is strictly cheaper than the other two, Remove likewise, and Replace otherwise |
| `EditScript.UntiedIsCheapest` | deps/extract/googletest-1.17.0/googletest/src/gtest.cc:1372-1386 | an untied cell costs no more than coming to it by any of the three moves, whatever ties lie elsewhere |
| `EditScript.FillTable` | deps/extract/googletest-1.17.0/googletest/src/gtest.cc:1347-1388 | the loops fill every cell with the cost and the move that the recurrence gives it |
| `EditScript.CalculateOptimalEditsOfIds` | deps/extract/googletest-1.17.0/googletest/src/gtest.cc:1345-1400 | the table and the walk back compute that path |
| `EditScript.LeastIsBound` | deps/extract/googletest-1.17.0/googletest/include/gtest/internal/gtest-internal.h:168-172 | no script for the two prefixes is cheaper than the least cost of a cell |
| `EditScript.LeastIsReached` | deps/extract/googletest-1.17.0/googletest/include/gtest/internal/gtest-internal.h:168-172 | and some script costs just that |
| `EditScript.OptimalIffTieFree` | deps/extract/googletest-1.17.0/googletest/src/gtest.cc:1372-1386 | the scripts of the inputs and of all their prefixes are optimal, as documented, exactly when the branches meet no tie: nowhere do adding and removing tie below replacing, or replacing with the cheaper of the two |
| `EditScript.TieFreeIffLeast` | deps/extract/googletest-1.17.0/googletest/src/gtest.cc:1372-1386 | the greedy rule arrives at the least cost in every cell exactly when no cell is tied |
| `EditScript.SwappedLinesAreNotOptimal` | deps/extract/googletest-1.17.0/googletest/src/gtest.cc:1372-1386 | for two swapped lines it reports two replacements, which is not optimal |
| `EditScript.TieBesideTheWalk` | deps/extract/googletest-1.17.0/googletest/src/gtest.cc:1372-1386 | a tie the walk does not meet can cost optimality too, as for aba and baac |
| `EditScript.InternalStrings.GetId` | deps/extract/googletest-1.17.0/googletest/src/gtest.cc:1405-1417 | equal strings get equal ids, different ones different ids, and ids given out stay |
| `EditScript.InternedAgree` | deps/extract/googletest-1.17.0/googletest/src/gtest.cc:1405-1435 | the ids agree exactly where the lines do, so the table cannot tell them apart |
| `EditScript.CalculateOptimalEdits` | deps/extract/googletest-1.17.0/googletest/src/gtest.cc:1421-1435 | working on ids gives the path of the lines themselves |
| `UnifiedDiff.CreateUnifiedDiff` | deps/extract/googletest-1.17.0/googletest/src/gtest.cc:1520-1581 | applying the hunks to the left lines gives the right ones exactly when the context is positive or nothing differs; there are no hunks exactly when the context is zero or nothing differs; in each hunk a side has a header exactly when the hunk changes it, removals precede additions, and the right amount of context surrounds the changes |
| `UnifiedDiff.DiffOfScript` | deps/extract/googletest-1.17.0/googletest/src/gtest.cc:1520-1581 | all of this for the hunks of any valid script, optimal or not; there are none exactly when the context is zero or the script only has matches |
| `UnifiedDiff.Hunk.PushLine` | deps/extract/googletest-1.17.0/googletest/src/gtest.cc:1452-1468 | a line is added to what the hunk shows on its side or sides, and the counters stay the numbers of removed, added and common lines |
| `UnifiedDiff.Hunk.FlushEdits` | deps/extract/googletest-1.17.0/googletest/src/gtest.cc:1483-1486 | pending removals, then pending additions, move to the end of the hunk and it shows the same |
| `UnifiedDiff.RemovalSlipsIn` | deps/extract/googletest-1.17.0/googletest/src/gtest.cc:1452-1468 | a removal slipped in before pending additions changes neither file shown nor the context runs |
| `UnifiedDiff.Hunk.Print` | deps/extract/googletest-1.17.0/googletest/src/gtest.cc:1470-1509 | the header of a side appears exactly when the body has a line marked as its change, and carries the start line and the true number of lines |
| `UnifiedDiff.SkipMatches` | deps/extract/googletest-1.17.0/googletest/src/gtest.cc:1528-1533 | skips exactly the equal lines up to the next change or the end |
| `UnifiedDiff.OpenHunk` | deps/extract/googletest-1.17.0/googletest/src/gtest.cc:1528-1540 | a hunk starts with the unchanged lines before its first change: as many as the context, or all there are |
| `UnifiedDiff.NextChange` | deps/extract/googletest-1.17.0/googletest/src/gtest.cc:1546-1555 | the next change is far exactly when the next edits, as many as the context, are all matches |
| `UnifiedDiff.FillHunk` | deps/extract/googletest-1.17.0/googletest/src/gtest.cc:1542-1571 | a hunk takes edits until enough unchanged lines follow: exactly the context of them, or the end of the files; with a zero context it takes none |
| `UnifiedDiff.NextHunk` | deps/extract/googletest-1.17.0/googletest/src/gtest.cc:1525-1579 | each printed hunk lies ahead of the previous one and takes a patch from where that left off to where it ends |
| `UnifiedDiff.HunkApplies` | deps/extract/googletest-1.17.0/googletest/src/gtest.cc:1492-1509 | a hunk whose header and body are right is accepted by a strict patch, which checks position, lengths and left lines |
| `GlobFilter.PatternMatchesString` | deps/extract/googletest-1.17.0/googletest/src/gtest.cc:740-785 | terminates and is true exactly when the declarative relation for `?` and `*` holds |
| `GlobFilter.LaterStarSuffices` | deps/extract/googletest-1.17.0/googletest/src/gtest.cc:766-781 | whatever an earlier star could still achieve, the latest one achieves from where it was reached |
| `GlobFilter.EnterStar` | deps/extract/googletest-1.17.0/googletest/src/gtest.cc:766-774 | moving the restart point to a new star loses no match |
| `GlobFilter.ExactPattern` | deps/extract/googletest-1.17.0/googletest/src/gtest.cc:789-792 | a pattern without wildcards matches itself and nothing else |
| `GlobFilter.SplitString` | deps/extract/googletest-1.17.0/googletest/src/gtest.cc:1288-1303 | the parts between the delimiters, in order |
| `GlobFilter.JoinSplit` | deps/extract/googletest-1.17.0/googletest/src/gtest.cc:1288-1303 | the parts contain no delimiter and joined by it give the text back |
| `GlobFilter.MakeFilter` | deps/extract/googletest-1.17.0/googletest/src/gtest.cc:799-813 | sorting the patterns into an exact set and a list of globs keeps the verdict on every name |
| `GlobFilter.UnitTestFilter.MatchesName` | deps/extract/googletest-1.17.0/googletest/src/gtest.cc:815-825 | true exactly when the exact set or a glob accepts the name |
| `GlobFilter.MakePositiveAndNegativeFilter` | deps/extract/googletest-1.17.0/googletest/src/gtest.cc:839-864 | the filter accepts what the text before the first `-` selects and the text after it does not; an empty positive part selects everything |
| `GlobFilter.UniversalFilterMatchesAll` | deps/extract/googletest-1.17.0/googletest/src/gtest.cc:188 | the filter that stands in for an empty positive part matches every name |
| `GlobFilter.PositiveAndNegativeUnitTestFilter.MatchesTest` | deps/extract/googletest-1.17.0/googletest/src/gtest.cc:866-879 | a test is judged by its suite and name joined with a dot |
| `SimpleRegex.ValidateRegex` | deps/extract/googletest-1.17.0/googletest/src/gtest-port.cc:822-873 | accepts exactly the texts of well-formed regular expressions, and no null pointer |
| `SimpleRegex.AcceptableIffDenotes` | deps/extract/googletest-1.17.0/googletest/src/gtest-port.cc:822-873 | what the scan lets through is exactly the set of texts of well-formed abstract syntax |
| `SimpleRegex.DenotesUnique` | deps/extract/googletest-1.17.0/googletest/src/gtest-port.cc:822-873 | a text denotes at most one regular expression |
| `SimpleRegex.AtomMatchesCharIffStands` | deps/extract/googletest-1.17.0/googletest/src/gtest-port.cc:763-811 | the tests of the code agree with the classes written out by ASCII code: digits, word characters, spaces and their complements, single control characters, all but the newline for a dot, and otherwise the character itself |
| `SimpleRegex.ValidEscapeIffStands` | deps/extract/googletest-1.17.0/googletest/src/gtest-port.cc:775-777 | a backslash is allowed before exactly the characters with which it stands for something |
| `SimpleRegex.MatchRepetitionAndRegexAtHead` | deps/extract/googletest-1.17.0/googletest/src/gtest-port.cc:882-901 | true exactly when some prefix is a repetition of the atom followed by a match of the rest |
| `SimpleRegex.MatchRegexAtHead` | deps/extract/googletest-1.17.0/googletest/src/gtest-port.cc:906-930 | true exactly when some prefix (the whole, if end-anchored) is in the language of the atoms |
| `SimpleRegex.MatchRegexAnywhere` | deps/extract/googletest-1.17.0/googletest/src/gtest-port.cc:940-950 | for an accepted pattern, true exactly when some substring, anchored as asked, is in its language |
| `SimpleRegex.PrefixMatchesHead` | deps/extract/googletest-1.17.0/googletest/src/gtest-port.cc:882-930 | matching a list of atoms is matching the first one and then the others |
| `SimpleRegex.FullPatternDenotes` | deps/extract/googletest-1.17.0/googletest/src/gtest-port.cc:968-995 | the pattern built for a full match denotes the same atoms, anchored at both ends unless the text ends in an escaped dollar |
| `SimpleRegex.FullMatchMeansWholeString` | deps/extract/googletest-1.17.0/googletest/src/gtest-port.cc:957-995 | a full match means that the whole string is in the language exactly for patterns that do not end in an escaped dollar |
| `SimpleRegex.EscapedDollarIsNotAnchored` | deps/extract/googletest-1.17.0/googletest/src/gtest-port.cc:968-995 | the pattern of a backslash and a dollar accepts "$a", which its language does not hold |
| `SimpleRegex.FullMatch` | deps/extract/googletest-1.17.0/googletest/src/gtest-port.cc:957-995 | the anchored matcher on that pattern |
| `IoSplit.SplitBuffer` | src/io/io_request.cc:19-35 | the parts transfer the same bytes in the same order at their own file positions; all but the last have the maximum length |
| `IoSplit.SplitIovec` | src/io/io_request.cc:38-80 | the same for scatter/gather requests, whose iovecs pass on whole or cut, none dropped, merged or reordered; there is no part exactly when there is no iovec; terminates although one branch advances neither cursor nor offset |
| `IoSplit.Split` | src/io/io_request.cc:6-16 | splits reads and writes of both kinds and refuses every other request |
| `IoSplit.PartOfSplit` | src/io/io_request.cc:19-80 | part k takes the bytes that follow those of the parts before it: the maximum length or, in the last part, all that is left |
| `IoSplit.PartOffset` | src/io/io_request.cc:66-70 | part k begins k times the maximum length into the request |
| `IoSplit.PartCount` | src/io/io_request.cc:24-32 | the number of parts is the total divided by the maximum length, rounded up; an empty request has one part |
| `IoSplit.SplitsAgree` | src/io/io_request.cc:19-80 | a buffer and iovecs for the same bytes are split into parts that agree in number, size, position and bytes |
| `IoSplit.SingleIovecIsBuffer` | src/io/io_request.cc:19-80 | one iovec describes the same bytes as a buffer |
| `IoExecution.SplitWriteInAnyOrder` | src/io/io_request.h:229-237 | in whatever order the parts of a split write complete, the file ends up as if the request had not been split |
| `IoExecution.SplitReadInAnyOrderIff` | src/io/io_request.h:229-237 | for a split read this holds for all orders, files and memories exactly when the request repeats no address in two different stretches of the maximum length |
| `IoExecution.SharedIffRepeated` | src/io/io_request.h:262-294 | two parts share an address exactly when the request repeats one in two different stretches |
| `IoExecution.RepeatedAddressDependsOnOrder` | src/io/io_request.h:229-237 | reading one address twice, a byte at a time, depends on the order |
| `IoExecution.SplitReadOfDistinctAddresses` | src/io/io_request.h:262-294 | so for a plain buffer, and for iovecs that do not overlap, it always holds |
| `IoExecution.WritePiecesInAnyOrder` | src/io/io_request.h:229-237 | writing consecutive pieces in any order equals one write of the whole |
| `IoExecution.ReadPiecesInSequence` | src/io/io_request.h:229-237 | reading consecutive pieces in order equals one read of the whole, overlapping addresses included |
| `LinkedList.ListBase.Prepend` | src/tools/list.h:38-53 | the element becomes the first; links, ends and count agree with the sequence |
| `LinkedList.ListBase.Append` | src/tools/list.h:55-70 | the element becomes the last |
| `LinkedList.ListBase.Remove` | src/tools/list.h:90-108 | exactly that element goes, fully unlinked |
| `LinkedList.ListBase.Validate` | src/tools/list.h:130-139 | forward traversal yields the sequence, backward traversal its reverse, and both counts agree |
| `LinkedList.ListBase.Map` | src/tools/list.h:110-118 | visits the elements in order |
| `LinkedList.ListBase.Insert` | src/tools/list.h:72-88 | as written it links the element in place and counts it, but always leaves a wrong end pointer, so it represents no sequence whatever |
| `LinkedList.Run` | src/tools/list.h:38-139 | over any run of allowed operations the list holds what the operations say, read forwards and backwards |
| `LinkedList.WithoutIsSplice` | src/tools/list.h:90-108 | removing by value is removing at the one place the element occupies |
| `Prerequisites.Expectations.AllPrerequisitesAreSatisfied` | deps/extract/googletest-1.17.0/googlemock/src/gmock-spec-builders.cc:136-153 | on every acyclic graph terminates, without visited marks, and is true exactly when all transitive prerequisites are satisfied |
| `Prerequisites.Expectations.RetireAllPreRequisites` | deps/extract/googletest-1.17.0/googlemock/src/gmock-spec-builders.cc:109-132 | exactly the transitive prerequisites become retired, and a retired expectation keeps having only retired prerequisites; terminates on every graph |
| `Prerequisites.Expectations.GetActionForArguments` | deps/extract/googletest-1.17.0/googlemock/include/gmock/gmock-spec-builders.h:1218-1253 | a handled call counts, retires the prerequisites and, where asked, the saturated expectation itself; an excessive call only counts |
| `Prerequisites.FewerPrerequisites` | deps/extract/googletest-1.17.0/googlemock/src/gmock-spec-builders.cc:136-153 | in an acyclic graph an immediate prerequisite has strictly fewer transitive prerequisites |
| `Prerequisites.RetireNext` | deps/extract/googletest-1.17.0/googlemock/src/gmock-spec-builders.cc:118-130 | each step of the work loop keeps what the closure still needs on the stack |
| `Prerequisites.AskNext` | deps/extract/googletest-1.17.0/googlemock/src/gmock-spec-builders.cc:140-151 | replacing an expectation by its satisfied immediate prerequisites forgets none of the transitive ones |
| `Prerequisites.CardinalityBounds` | deps/extract/googletest-1.17.0/googlemock/src/gmock-cardinalities.cc:75-81 | a count is unsatisfied exactly below the least and above the greatest, and saturated exactly when no larger one is satisfied |
| `Prerequisites.Config.RetiredIsFinal` | deps/extract/googletest-1.17.0/googlemock/include/gmock/gmock-spec-builders.h:780-783 | over any run of calls a retired expectation stays retired, handles no more calls and keeps its call count |
| `Prerequisites.Config.CallsRespectOrder` | deps/extract/googletest-1.17.0/googlemock/include/gmock/gmock-spec-builders.h:1124-1134 | over any run of calls, once an expectation has handled a call that was not excessive, none of its prerequisites handles another one and all of them stay satisfied |
| `BoundedQueue.UncheckedOperationsSucceed` | src/infra/bounded_queue.h:20-60 | in every reachable state the unchecked write finds room and the unchecked read finds an item |
| `BoundedQueue.StepInv` | src/infra/bounded_queue.h:14-89 | every step keeps permits, operations in flight and queue length in balance with the capacity |
| `BoundedQueue.RunInv` | src/infra/bounded_queue.h:14-89 | so that balance holds in every state of every interleaving |
| `BoundedQueue.RunsAreFifo` | src/infra/bounded_queue.h:20-89 | what has been written is always what has been read followed by what is queued, never more than the capacity, and no unchecked operation has failed |
| `BoundedQueue.StepCarries` | src/infra/bounded_queue.h:20-40 | over every run a write appends the item its own enqueue was called with, and a read hands its thread the next item in the order of the writes |
| `BoundedQueue.DequeueReturnsInOrder` | src/infra/bounded_queue.h:20-40 | what a dequeue returns, having made the k-th read, is what the enqueue that made the k-th write was called with |
| `BoundedQueue.WaitsOnlyWhenFullOrEmpty` | src/infra/bounded_queue.h:20-60 | with no operation in flight, an enqueuer waits only when the queue is full and a dequeuer only when it is empty |
| `BoundedQueue.NoDeadlock` | src/infra/bounded_queue.h:20-60 | as long as there is a thread and some capacity, some step is possible |
| `IoUringLoop.SqSpaceIsRoomLeft` | src/infra/io_uring.h:9-12 | the unsigned difference is the room left in the ring, however often the 32-bit indexes have wrapped |
| `IoUringLoop.StepInv` | src/infra/io_uring.h:47-90 | every step of submitters, loop and kernel keeps the invariant |
| `IoUringLoop.RunInv` | src/infra/io_uring.h:47-90 | so it holds in every state of every run |
| `IoUringLoop.EveryRequestAccountedFor` | src/infra/io_uring.h:47-90 | every submitted request is in exactly one place, and each finished one carries the answer the kernel gave to it and was signalled once |
| `IoUringLoop.RequestsKeepOrder` | src/infra/io_uring.h:47-76 | requests reach the kernel in the order of their submission: those it has taken, those in the ring and those queued are together the submitted ones, in order |
| `IoUringLoop.KernelTakesNext` | src/infra/io_uring.h:59-76 | what the kernel takes up is the next of them |
| `IoUringLoop.FinishedWithItsResult` | src/infra/io_uring.h:85-90 | a finished request holds what the kernel completed that very request with |
| `IoUringLoop.PassReapsAll` | src/infra/io_uring.h:79-90 | between the beginning of a pass and the return to the top there is a point at which no completion is left unprocessed |
| `IoUringLoop.PassFits` | src/infra/io_uring.h:59-71 | a pass takes the least of the queued requests, the room left and five; an entry is always available, and as many are flushed as were taken |
| `IoUringLoop.ReapDelivers` | src/infra/io_uring.cc:4-8 | processing a completion stores the result of its own request, for the first time |
| `IoUringLoop.DoneIsFinal` | src/infra/io_uring.cc:4-8 | a finished request stays finished with the same result |
| `IoUringLoop.DrainedMeansDone` | src/infra/io_uring.h:51-90 | when queue, rings and kernel are empty every submitted request is finished |
| `IoUringLoop.UnfinishedMakesProgress` | src/infra/io_uring.h:51-90 | while a submitted request is unfinished the loop or the kernel has a step to take |
| `Utf8.IsValidUTF8` | deps/extract/googletest-1.17.0/googletest/src/gtest-printers.cc:481-514 | accepts exactly the strings that are concatenations of encodings of Unicode scalar values, as in section 4 of RFC 3629 |
| `Utf8.DecodeIffSpells` | deps/extract/googletest-1.17.0/googletest/src/gtest-printers.cc:483-514 | decoding succeeds with a list of scalar values exactly on the octets that spell it |
| `Utf8.SpellingUnique` | deps/extract/googletest-1.17.0/googletest/src/gtest-printers.cc:483-514 | a string spells at most one list of scalar values |
| `Utf8.HeadIsEncoding` | deps/extract/googletest-1.17.0/googletest/src/gtest-printers.cc:486-512 | the lead and trail bytes let through are the encoding of a scalar value |
| `Utf8.EncodingIsHead` | deps/extract/googletest-1.17.0/googletest/src/gtest-printers.cc:486-512 | and every encoding is let through, whatever follows; surrogates and numbers beyond the last code point are not |
| `Utf8.CodePointToUtf8` | deps/extract/googletest-1.17.0/googletest/src/gtest.cc:2041-2067 | the result spells the code point exactly for scalar values other than zero, and is valid exactly for scalar values and numbers above 21 bits; zero gives the empty string, and a number above 21 bits the message with its hexadecimal numeral |
| `Utf8.NotEveryEncodingIsValid` | deps/extract/googletest-1.17.0/googletest/src/gtest.cc:2037-2040 | the octets written for the surrogate 0xD800 and for 0x110000 spell nothing |
| `Utf8.ChoppedIsEncoding` | deps/extract/googletest-1.17.0/googletest/src/gtest.cc:2029-2066 | chopping six bits at a time assembles the octets of the encoding |
| `Utf8.HexDigitsAreNumeral` | deps/extract/googletest-1.17.0/googletest/src/gtest.cc:2247-2251 | the hexadecimal digits are the upper-case numeral of the value, without leading zeros |
| `PrimeTables.OnTheFlyPrimeTable.IsPrime` | deps/extract/googletest-1.17.0/googletest/samples/prime_tables.h:55-64 | true exactly for primes |
| `PrimeTables.OnTheFlyPrimeTable.GetNextPrime` | deps/extract/googletest-1.17.0/googletest/samples/prime_tables.h:66-72 | terminates with the least prime above p; -1 below zero |
| `PrimeTables.PrimeAbove` | deps/extract/googletest-1.17.0/googletest/samples/prime_tables.h:66-72 | there is a prime above every number |
| `PrimeTables.PreCalculatedPrimeTable.CalculatePrimesUpTo` | deps/extract/googletest-1.17.0/googletest/samples/prime_tables.h:100-116 | the sieve leaves exactly the primes |
| `PrimeTables.PreCalculatedPrimeTable.MarkMultiples` | deps/extract/googletest-1.17.0/googletest/samples/prime_tables.h:109-114 | the inner loop marks the multiples from the square on and nothing else |
| `PrimeTables.SieveStep` | deps/extract/googletest-1.17.0/googletest/samples/prime_tables.h:106-115 | one candidate later the marks are right for the next one, composites and skipped even numbers included |
| `PrimeTables.SieveDone` | deps/extract/googletest-1.17.0/googletest/samples/prime_tables.h:106-116 | beyond the square root of the bound only primes are left |
| `PrimeTables.PreCalculatedPrimeTable.IsPrime` | deps/extract/googletest-1.17.0/googletest/samples/prime_tables.h:87-89 | true exactly for primes within the table |
| `PrimeTables.PreCalculatedPrimeTable.GetNextPrime` | deps/extract/googletest-1.17.0/googletest/samples/prime_tables.h:91-97 | the least prime above p in the table, or -1 when there is none |
| `PrimeTables.HybridPrimeTable.IsPrime` | deps/extract/googletest-1.17.0/googletest/samples/sample8_unittest.cc:61-66 | the hybrid answers as the on-the-fly table does |
| `PrimeTables.HybridPrimeTable.GetNextPrime` | deps/extract/googletest-1.17.0/googletest/samples/sample8_unittest.cc:68-74 | it does so for the next prime exactly when p is not negative, there is no table or the table holds no prime; otherwise it finds 2 where the other gives up |
| `Sharding.FilterTests` | deps/extract/googletest-1.17.0/googletest/src/gtest.cc:6241-6293 | marks every test and every suite, and returns how many tests run on this shard |
| `Sharding.MarksOfTest` | deps/extract/googletest-1.17.0/googletest/src/gtest.cc:6262-6290 | the flags of a test say whether it is disabled, matches the filter, belongs to another shard and runs, judged in the whole list of tests |
| `Sharding.ShardsPartition` | deps/extract/googletest-1.17.0/googletest/src/gtest.cc:6230-6232 | every runnable test runs on exactly one shard, the one its place among the runnable tests gives modulo their number, and no other test on any |
| `Sharding.UnshardedRunsAll` | deps/extract/googletest-1.17.0/googletest/src/gtest.cc:6273-6276 | without sharding exactly the runnable tests are selected |
| `Sharding.ShardsBalanced` | deps/extract/googletest-1.17.0/googletest/src/gtest.cc:6230-6293 | any two shards differ in size by at most one, the lower-numbered being the larger |
| `Sharding.ShardSizesAddUp` | deps/extract/googletest-1.17.0/googletest/src/gtest.cc:6252-6286 | together the shards run as many tests as are runnable |
| `Sharding.DisabledNames` | deps/extract/googletest-1.17.0/googletest/src/gtest.cc:178-180 | the disable filter catches exactly the names that begin with DISABLED_ or hold it after a slash |
| `Sharding.MarkTest` | deps/extract/googletest-1.17.0/googletest/src/gtest.cc:6262-6290 | the body of the inner loop: the flags of one test |
| `RingBuffer.SPSCRingBuffer.RequestWriteSpace` | src/db/sp_ring_buffer.h:67-79 | space is granted exactly when it fits beside what is outstanding, inside the double mapping, at its stream position modulo the size, also after the counters wrap |
| `RingBuffer.SPSCRingBuffer.CommitWrite` | src/db/sp_ring_buffer.h:81-83 | committing no more than was granted keeps the counters right |
| `RingBuffer.UncommittedBytesDoNotAlias` | src/db/sp_ring_buffer.h:43-55 | two different bytes that are granted and not committed never share a byte of memory |
| `RingBuffer.SliceExposedIff` | src/db/sp_ring_buffer.h:67-83 | the memory of a slice has been granted again, or the next grant can cover it, exactly when the committed total has passed its first byte, whichever slices the commits were for |
| `RingBuffer.FinishSecondSliceFirst` | src/db/sp_ring_buffer.h:67-83 | when only the second of two slices is finished, the next grant is the memory of the first |
| `RingBuffer.OverCommitOverGrants` | src/db/sp_ring_buffer.h:67-83 | after committing more than was granted, requests up to the size of the buffer and the excess are granted, and no larger ones |
| `RingBuffer.HeadIndex` | src/db/sp_ring_buffer.h:75-76 | masking the wrapped counter gives the stream position modulo the buffer size |
| `RingBuffer.MaskIsRemainder` | src/db/sp_ring_buffer.h:75 | bitwise and with a power of two less one is the remainder |
| `Uint128Print.PrintUint128` | deps/extract/googletest-1.17.0/googletest/src/gtest-printers.cc:291-323 | prints the canonical decimal numeral of every 128-bit value, inside a 40-byte buffer |
| `Uint128Print.DivisionStep` | deps/extract/googletest-1.17.0/googletest/src/gtest-printers.cc:309-319 | each step divides the two limbs exactly by ten, with no 64-bit overflow |
| `Uint128Print.DivisionStepIsTight` | deps/extract/googletest-1.17.0/googletest/src/gtest-printers.cc:317 | the sum reaches the largest 64-bit value |
| `Uint128Print.NumeralUnique` | deps/extract/googletest-1.17.0/googletest/src/gtest-printers.cc:291-323 | every number has one numeral without leading zeros |
| `Uint128Print.DigitsFit` | deps/extract/googletest-1.17.0/googletest/src/gtest-printers.cc:297-299 | no 128-bit value takes more than 39 digits |
| `Uint128Print.PrintInt128` | deps/extract/googletest-1.17.0/googletest/src/gtest-printers.cc:324-331 | the signed version is right for every value, the minimum included |

## Left out

- OptimalIffTieFree: speaks of an input together with its prefixes. A tie beside the walk may or may not spoil a single input, so OptimalWithoutTies and NotOptimalThroughTie give one direction each for it.
- RequestWriteSpace: the counters and the address arithmetic are modelled; the shared-memory mapping itself is the function `Physical`, and atomics are sequentially consistent.
- Insert: modelled as written, with its inverted test of the end pointer; no repaired version is given.
- FilterTests: the two shard variables are taken as already checked to satisfy 0 <= index < total; reading and checking the environment is not modelled.
- MatchRegexAtHead: characters are Unicode characters where the source has C chars, and strings hold no NUL.
- FillTable: costs are exact integers, 100000 times the source's doubles; where rounding in long inputs decides a tie the program's table may differ.
- CalculateOptimalEditsOfIds: the path is that of the exact costs, as for FillTable.
- CalculateOptimalEdits: the same; DiffOfScript covers whatever valid script comes out.
- CreateUnifiedDiff: a hunk is a record of ranges and tagged lines, not the printed text.
- SplitIovec: moving the vector of iovecs into a part is modelled by value, so the stability of its data pointer is not covered.
- Submit in `IoUringLoop`: the bound of the request queue is not repeated there (`BoundedQueue.dfy` models it); completion-queue overflow and short submissions are not modelled.
- IsPrime, GetNextPrime: integers are mathematical; the overflow of `i * i` near the largest int is not modelled. A table bound below 1 and a start below -1, which read or write outside the table, are excluded.
- Compute, FindPairing: the match matrix is a list of rows instead of one flattened vector, and the explanations written to the listener are left out.
- RetireAllPreRequisites: expectations are numbered, and the retired and call-count fields of all of them are two sequences.
- Split: a maximum length of zero, which divides by zero or never ends, is excluded; file positions and addresses do not wrap, and every transfer is complete.
- Prepend, Append: the added element is in no list; sharing an element between two lists is not modelled. `list.end - ` on line 60 and `list.start` on line 67 of src/tools/list.h are read as the end and start pointers.
- ChopLowBits: stated for six bits, the only width the encoder asks for.
- The log writer (src/db/log_writer.h) and the second ring buffer (src/db/ring_buffer.h): the code does not yet fix a sound protocol.
- Histogram, TablePrefix, Node::SetKeyValue, the trie and SKMV headers: incomplete or self-inconsistent.
- Files, sockets, shared memory, mmap, folly and liburing internals: the queue is atomic, semaphores are counters, the kernel takes nondeterministic steps.
- Memory orders: every atomic is sequentially consistent.
- Death tests, XML, JSON and pretty printers, flags, action templates, sinks, serialization, failpoints, cardinality text, sample counters and strings: input and output, type-level code, or easy members.
