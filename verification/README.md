# Verification model of the CI and operator scripts

The scripts of this repository decide whether a commit may merge, move cost events to a broker, apply SQL migrations,
rewrite contracts and choose which tests run. This project models the algorithms and protocols inside them and proves
what they promise, for all inputs and, where there is state, for all runs. Each file is one module:

| module | what it models |
|---|---|
| `CoverageSelection` | greedy selection of candidate inputs by branch arcs, and the receipt built from it |
| `GoldenMask`, `GoldenHeap` | deletion of volatile fields from JSON documents: as a function, and in place on a deep copy |
| `GoldenCompare`, `GoldenCanonical` | the structural differ, the sorted-key JSON printer, and how the two comparators relate |
| `EnvExample` | the greedy word wrap of field descriptions |
| `Spool`, `SpoolDaemon` | the cost event spool as a machine with crashes, and the publisher as a class whose methods are runs of it |
| `Migrations`, `MigrationRunner` | the migration ledger under several runners and crashes, the static gate, and one runner as a class |
| `CiSummary` | the poller that folds job rows into one state per job and gives a three-valued verdict |
| `StateCoverage` | the two-pass check that a test source mentions a declared state outside vacuous comparisons |
| `ContractPatcher` | the line-level edit of `metadata.transport_type` |
| `TestSelection`, `ShardCensus` | the change-aware test matrix, the sidecar each shard emits, their validation, and staging |
| `ReasonGraph` | the typed reason graph over the product classifier |
| `SortedKeys`, `PythonText`, `Sets`, `Options` | Python's `sorted` on a set of strings; white space for Python's str methods; sizes of sets; a value that may be missing |

Code that works by changing things (the selection loop, deletion inside objects, the differ's accumulation, the wrap
loop, the publisher, the runner, the fold over job rows, the gate's loop, the passes over syntax tree nodes, the line
editor, the validator, the graph builder) is written as methods and classes, each proved against a specification
function or against the machine; the properties below are proved about those.

## Findings

Where the code is weaker than its documentation, the model follows the code, and the exact condition is proved.

- `select_covering` is documented as returning a minimal subset. It does not: `NotAlwaysMinimal` gives three
  candidates of which two suffice and all three are picked. It does whenever any two candidates reach nested or
  disjoint arcs (`MinimalIfLaminar`, which a caller can check on the measured arcs), and whenever it picks at most two.
  Both are one-directional on purpose: whether a larger greedy selection is a smallest one is set cover itself, so no
  condition cheaper than solving it can be exact. What holds always is `HarmonicBound`: at most k·H(d) picks against
  any k covering candidates of at most d arcs.
- Building an adequacy receipt raises exactly when a percentage is out of bounds, or when the target counts as met
  although no candidate was selected.
- Mask paths are split at dots, so a mask removes an address exactly if there is a key along it and the first one has
  no dot, and it removes a field while keeping the field's parent exactly if no key along the address has a dot.
- The differ takes Python's `==`, the canonical printer does not: `true` and `1` are equal for one and not for the
  other. The two comparators agree unless the masked documents are Python-equal with such an alias somewhere.
- With `max_retries = 0` a valid file is archived as published although nothing was sent; with any positive number it
  never is. A spool file raises in every pass, and everything sorted behind it waits, if its JSON is not an object, if
  its source fields are lists or objects, or if it is valid but its session or model is a string with an unpaired
  surrogate, which has no encoding for the key. A failure to start or to stop the producer raises as well; after a
  failed stop an acknowledged file stays in the root and is sent again.
- A runner filters out the applied versions before it calls `apply_migration`, so the checksum comparison there is
  never reached by a single run: a recorded file that has changed since is neither applied nor reported.
- Executing a file and recording it are two statements. A crash between them leaves a file executed without a row, and
  every later runner has it pending again (`CrashLeavesNoRow`). Apart from crashes, rejected files and changed recorded
  files nothing can stop a runner: `CleanRunnerCanFinish` shows that it can get to its end from anywhere, even where
  others have recorded its files before it.
- The base-before-view gate accepts a view that reads itself, and that view then fails on its first execution.
  Everything else that the gate accepts is safe in every run.
- `success` and `skipped` have one severity in `dedup_latest`, so on a tie the order of the rows decides. The order can
  change the verdict exactly when such a tie is on a strict gate, or on the change detector while the test matrix is
  unfinished, and nothing else fails (`DecisiveTie`).
- FAILURE is permanent while each job has one row (`FailureStays`). With several rows for one job it can be left,
  exactly under the condition `Lifts`: no counted job has a bad row, every strict gate that had ended in a skip now has
  a success behind it or an unfinished row beside it, and no other strict gate has come to end in a skip. A poller can
  tell from one snapshot: a FAILURE is final exactly if a counted job has a bad row.
- SUCCESS too can be lost to the gates themselves, by a late skip or an unfinished row beside a success, and a change
  detector that was skipped and then succeeds reopens the matrix. `SuccessLostExactly` lists the ways.
- The patcher assumes that the `metadata:` line ends in a line ending. If that line is the last and unterminated, the
  new entry lands on the line itself; in every other case the patched text reads back as requested.
- The shard validator accepts JSON `true` as split 1, because a Python bool is an int; its data file is then
  `.coverage.True`, and staging `.coverage.1` fails.
- A changed path can make the selection itself fail, when it asks for an existing path under tests/ that the output
  record's pattern refuses. And a larger change can run less: a change that asks for no existing directory runs all of
  tests/, while adding one file under tests/foo/ to it runs only that directory. `SelectionGrows` shows that refusal
  and this are the only ways.
- In the reason graph the statuses INFRA and ABSENT never occur: a subcheck that did not report is always blocked by
  some root. Receipt texts are told apart only because signals are lower-cased. For arbitrary triples another one with
  the same text exists exactly if the head with the separator behind it, or the signal with the separator before it,
  holds a kind between separators.

## Hypotheses

- SHA-256 is a function on texts. Where keys are told apart, the texts hashed in that very run - the files' bytes and
  the key texts made from them, finitely many - are assumed not to collide and to have digests of 64 characters
  (`NoCollision`, which can be met: `NoCollisionIsPossible`). Checksums of migrations stand for the file contents.
- A file put into the spool has a name that was not used before, since a rename onto an existing name overwrites it;
  and one daemon works on a spool at a time.
- Numbers in JSON are their literal texts. Whether two different literals are equal numbers for Python is a parameter,
  assumed reflexive where needed. `NaN` and `Infinity` are not literals of the model.
- Text files are read with universal newlines, so a text holds no carriage return. A patched transport is one word.
- `str.strip().lower()` in the reason graph is a parameter. Where receipts are told apart it is assumed to leave no
  upper-case letter A-Z.
- Over growing snapshots completed rows do not change, and all rows that count are of one attempt.
- For the safety of migrations, a recorded file is unchanged when a runner reads the ledger for its node, allowlisted
  relations exist, and every checkout used passes the gate. Files that are not recorded may change between checkouts.

## Model

| member | source | states |
|---|---|---|
| CoverageSelection.BestCandidate | scripts/ci/adequacy_receipt.py:197-203 | one scan returns the candidate with the largest positive gain, the lowest index on a tie, and -1 exactly when nothing gains |
| CoverageSelection.SelectCovering | scripts/ci/adequacy_receipt.py:193-209 | the loop's picks and covered arcs are a complete greedy run over the measured arcs |
| CoverageSelection.RunPicksDistinct | scripts/ci/adequacy_receipt.py:196-208 | every pick is an available candidate and none is picked twice |
| CoverageSelection.SelectionCoversEverything | scripts/ci/adequacy_receipt.py:178-209 | the returned arcs are exactly those of the picks, and exactly those any candidate reaches |
| CoverageSelection.PickIsBest | scripts/ci/adequacy_receipt.py:197-205 | just before each pick no candidate picked at any later round offered more than it |
| CoverageSelection.GainsPositiveAndDecreasing | scripts/ci/adequacy_receipt.py:197-208 | every pick adds at least one arc, and gains never increase along the run |
| CoverageSelection.HarmonicBound | scripts/ci/adequacy_receipt.py:184-209 | any k candidates reaching every arc, none with more than d arcs, bound the number of picks by k times the d-th harmonic number |
| CoverageSelection.HarmonicBoundByArcs | scripts/ci/adequacy_receipt.py:184-209 | the same bound with the number of arcs reached at all |
| CoverageSelection.LogarithmicBound | scripts/ci/adequacy_receipt.py:184-209 | if k candidates reach every arc, none with more than 2 to the m arcs, at most k times m + 1 are picked |
| CoverageSelection.MinimalIfLaminar | scripts/ci/adequacy_receipt.py:184-188 | if any two candidates reach nested or disjoint arcs the selection is no larger than any covering set of candidates |
| CoverageSelection.MinimalUpToTwo | scripts/ci/adequacy_receipt.py:184-188 | a selection of at most two candidates is no larger than any covering set of candidates |
| CoverageSelection.NotAlwaysMinimal | scripts/ci/adequacy_receipt.py:184-188 | the documented minimality fails: three picks where two candidates reach everything |
| CoverageSelection.RunIsDeterministic | scripts/ci/adequacy_receipt.py:187-203 | the tie-break leaves exactly one possible run from any state of the loop |
| CoverageSelection.ReselectionIsFixpoint | scripts/ci/adequacy_receipt.py:196-208 | selecting again from the chosen candidates in pick order picks all of them in that order with the same arcs |
| CoverageSelection.ReceiptAccepted | scripts/ci/adequacy_receipt.py:93-128 | the receipt built from a selection passes the field bounds and the model validator exactly if the percentages are in bounds and the target does not count as met while no candidate reached an arc |
| CoverageSelection.PassingAreBuildable | scripts/ci/adequacy_receipt.py:93-128 | the receipts that pass the bounds and the validator are exactly those that building can give, for some candidates and some distinct picks among them |
| CoverageSelection.ReceiptListsPicks | scripts/ci/adequacy_receipt.py:237-284 | the receipt lists the hashes of the picks in pick order and counts all candidates, and the inputs behind the listed hashes reach every arc that any candidate reaches |
| GoldenMask.RemovePathExact | scripts/ci/compute_golden.py:48-62 | after one removal an address is left exactly if its keys, list indices dropped, do not start with the path, and its label is unchanged |
| GoldenMask.SameLabelsSameDocument | scripts/ci/compute_golden.py:48-62 | labels at all addresses determine the document, so the statements about addresses are complete |
| GoldenMask.MaskExact | scripts/ci/compute_golden.py:35-62 | the addresses surviving the mask are exactly those whose key projection has no mask path as a prefix, each unchanged |
| GoldenMask.MaskIsASet | scripts/ci/compute_golden.py:42-45 | two masks with the same entries, in any order and repetition, give the same document |
| GoldenMask.MaskTwice | scripts/ci/compute_golden.py:42-45 | masking twice is masking once with both lists; masking again with the same list changes nothing |
| GoldenMask.RemovableExactly | scripts/ci/compute_golden.py:43-45 | some mask removes an address exactly if there is a key along it and the first key holds no dot |
| GoldenMask.RemovableAloneExactly | scripts/ci/compute_golden.py:43-60 | some mask removes a field and keeps its parent exactly if no key along the field's address holds a dot |
| GoldenHeap.RemovePathInPlace | scripts/ci/compute_golden.py:48-62 | the in-place deletion leaves a well-formed object tree on the same objects that stands for the document with the path removed |
| GoldenHeap.RemoveFromItems | scripts/ci/compute_golden.py:49-52 | a list passes all segments to each of its elements, and only they change |
| GoldenHeap.RemoveFromEntries | scripts/ci/compute_golden.py:53-62 | a dictionary pops the last segment or descends below the key if it is there, and only that subtree changes |
| GoldenHeap.Load | scripts/ci/compute_golden.py:38-42 | a document is loaded into new, unshared objects |
| GoldenHeap.Dump | scripts/ci/compute_golden.py:38-42 | the objects print as the document they stand for |
| GoldenHeap.TreesPrint | scripts/ci/compute_golden.py:38-42 | an object tree left by a deletion is one that prints, as the document it stands for |
| GoldenHeap.ApplyMaskToCopy | scripts/ci/compute_golden.py:35-45 | for any payload without cycles, shared objects included, the result stands for the masked document on fresh unshared objects, and the payload is untouched |
| GoldenCompare.DiffPaths | scripts/ci/compute_golden.py:65-84 | the accumulated report is the specified list of differences |
| GoldenCompare.EmptyReport | scripts/ci/compute_golden.py:65-84 | the report is empty exactly when the documents are equal for Python |
| GoldenCompare.ReportExact | scripts/ci/compute_golden.py:65-84 | an address is reported as added, removed, resized or changed exactly when the documents differ there in that way |
| GoldenCompare.AtomEqExactly | scripts/ci/compute_golden.py:82-83 | two values that are neither both lists nor both dicts are equal exactly if they are the same text or null, or compare as equal numbers, booleans counting as 1 and 0 |
| GoldenCanonical.PrintedInjective | scripts/ci/compute_golden.py:30-32 | equal printed texts, with anything behind them, come from equal documents and equal continuations |
| GoldenCanonical.CanonicalIffEqual | scripts/ci/compute_golden.py:30-32 | canonical strings agree exactly when the documents do |
| GoldenCanonical.OnlyAliasesHide | scripts/ci/compute_golden.py:65-84 | Python-equal documents are identical unless some address holds two differently printed equal scalars |
| GoldenCanonical.ComparatorsAgree | scripts/ci/compute_golden.py:104-121 | an empty report and equal canonical strings coincide, except exactly when the masked documents are Python-equal with such an alias |
| GoldenCanonical.TrueIsNotOne | scripts/ci/compute_golden.py:104-121 | true against 1 is reported as no difference and yet has different canonical strings |
| GoldenCanonical.RecordedOutputMatches | scripts/ci/compute_golden.py:87-112 | comparing the recorded output with its own golden reports nothing |
| GoldenCanonical.ComparedExactly | scripts/ci/compute_golden.py:87-112 | an output compared with a golden recorded under a mask: a difference is reported exactly where the two outputs themselves differ in that way and no mask path leads |
| GoldenCanonical.LargerMaskKeepsEmptyReport | scripts/ci/compute_golden.py:104-112 | enlarging the mask, in any order, never turns an empty report into a non-empty one |
| EnvExample.ProbeIsText | scripts/generate_env_example.py:183 | the stripped probe is the current line with the word joined by one space |
| EnvExample.WrapDescription | scripts/generate_env_example.py:178-191 | the loop emits the lines of the greedy wrapping of the description's words |
| EnvExample.SplitExactly | scripts/generate_env_example.py:179 | the words are exactly those the description is made of, broken at all of its white space and nowhere else |
| EnvExample.WrapKeepsInk | scripts/generate_env_example.py:178-191 | the emitted lines hold the description's characters other than white space, all and in order |
| EnvExample.WrapIsWrapping | scripts/generate_env_example.py:178-191 | every word is kept, once and in order, and a line over 76 characters is one single word |
| EnvExample.WrappedTextReadsBack | scripts/generate_env_example.py:178-191 | splitting the emitted lines again gives exactly the description's words |
| EnvExample.WrapIsShortest | scripts/generate_env_example.py:178-191 | no order-preserving way of breaking the words under the same rule uses fewer lines |
| EnvExample.GreedyStaysAhead | scripts/generate_env_example.py:181-191 | filling lines greedily behind a partly filled line needs no more lines than any rival wrapping of the rest |
| StateCoverage.VacuousOccurrenceIds | scripts/validate_state_coverage.py:253-281 | the first pass collects exactly the identities below a comparison of two or more operands that are all alike or of operands none of which holds a runtime value, and of constants that stand alone as a string statement or an assertion |
| StateCoverage.StateMatchNodes | scripts/validate_state_coverage.py:208-224 | the second pass collects exactly the nodes that are the state as a string constant or, for identifier-shaped states, access an attribute of that name |
| StateCoverage.TwoPassIsOneWalk | scripts/validate_state_coverage.py:208-311 | some match survives the excluded identities exactly when one top-down walk with a flag finds a mention |
| StateCoverage.ExercisedExactly | scripts/validate_state_coverage.py:208-281 | the walk finds a mention exactly if some address leads to one without stepping into a self-tautology, a comparison without a runtime value, or a constant that stands alone |
| StateCoverage.CoveredExactly | scripts/validate_state_coverage.py:284-311 | a state is covered exactly if it is not empty and some parsable source has such an address |
| StateCoverage.IdentifierStateExactly | scripts/validate_state_coverage.py:301 | attributes count for a state exactly if it is a letter or underscore followed by letters, digits, underscores and hyphens, with at most one newline behind |
| StateCoverage.StateCovered | scripts/validate_state_coverage.py:284-311 | a state counts as covered exactly when some parsable source exercises it |
| StateCoverage.InsertAddsItsOwn | scripts/validate_state_coverage.py:253-311 | inserting a statement into a block adds exactly the coverage it has alone |
| StateCoverage.InertStatementsDoNotCover | scripts/validate_state_coverage.py:227-281 | docstrings, bare constant assertions and vacuous comparisons never change the answer wherever they are inserted |
| StateCoverage.RealComparisonCovers | scripts/validate_state_coverage.py:240-281 | a comparison whose operands are not all alike and of which some operand holds a runtime value covers whatever any operand mentions, wherever it is asserted |
| StateCoverage.CoverageGrowsWithSources | scripts/validate_state_coverage.py:284-311 | more sources, in any order, never lose a covered state |
| StateCoverage.ValidateStates | scripts/validate_state_coverage.py:345-371 | the uncovered declared states, in order and with repetitions, are split into failures and warnings: a warning is baselined and either not strict or exempt |
| StateCoverage.SelectMembers | scripts/validate_state_coverage.py:345-371 | each list holds exactly the declared states with its property, so no state is in both |
| CiSummary.DedupLatest | scripts/ci/ci_summary_gate.py:265-307 | the loop computes the fold over the rows |
| CiSummary.DedupKeepsTheTop | scripts/ci/ci_summary_gate.py:265-307 | each named job has the state of the last of its rows with the highest attempt and then the highest severity, whatever the order of the rest |
| CiSummary.ConsideredExactly | scripts/ci/ci_summary_gate.py:265-307 | a row is considered exactly if it has a name and no attempt is pinned, or it is of the pinned attempt, or the first is pinned and it names none |
| CiSummary.LaterAttemptDecides | scripts/ci/ci_summary_gate.py:265-307 | of two rows of one job the later attempt decides, in either order |
| CiSummary.OrderIrrelevantWithoutTies | scripts/ci/ci_summary_gate.py:300-306 | reordering or repeating rows keeps the verdict unless a strict gate or the change detector has both a success and a skip at the top |
| CiSummary.OrderMattersExactly | scripts/ci/ci_summary_gate.py:255-307 | some order of the same rows gives another verdict exactly on a decisive tie |
| CiSummary.SuccessMeans | scripts/ci/ci_summary_gate.py:369-437 | SUCCESS holds exactly when all gates are present and good, no other job outside the allowlist has failed and the matrix is settled |
| CiSummary.FailureExactly | scripts/ci/ci_summary_gate.py:369-407 | FAILURE exactly if a completed job is a strict gate without success, or has neither succeeded nor been skipped and is a skippable gate, or is neither the poller, nor a gate, nor in the allowlist under its name or the part before its first " / " |
| CiSummary.SuccessExactly | scripts/ci/ci_summary_gate.py:408-437 | otherwise SUCCESS exactly if every gate is there and completed and, when the change detector succeeded, some test split is there and all splits are completed |
| CiSummary.CountedExactly | scripts/ci/ci_summary_gate.py:310-322 | the jobs that count are the gates and every other job but the poller whose name and whose caller's name are not in the allowlist |
| CiSummary.GreenMeansTested | scripts/ci/ci_summary_gate.py:324-355 | on this repository's gates SUCCESS implies that the change detector skipped, or some test split ran and every split seen is good |
| CiSummary.SuccessByRows | scripts/ci/ci_summary_gate.py:369-437 | within one attempt the verdict is SUCCESS exactly if no counted job has a bad row, no strict gate ends in a skip, every gate has rows and none of them unfinished, and the matrix is not open |
| CiSummary.SuccessLostExactly | scripts/ci/ci_summary_gate.py:324-437 | between two snapshots with frozen completed rows and any number of rows per job, SUCCESS is lost exactly if a counted job has a bad row, a strict gate ends in a skip, a gate has an unfinished row, or the change detector ends in a success while no split has a row or one is still running |
| CiSummary.SuccessAlongPolls | scripts/ci/ci_summary_gate.py:358-437 | the same between any two polls of a run |
| CiSummary.LateSkipSpoilsSuccess | scripts/ci/ci_summary_gate.py:300-306 | a late skip of a strict gate that had passed turns SUCCESS into FAILURE |
| CiSummary.NothingPendingAtTheEnd | scripts/ci/ci_summary_gate.py:408-437 | once everything is complete, PENDING means exactly that a gate is missing or the matrix is empty and not waived |
| CiSummary.FailureByRows | scripts/ci/ci_summary_gate.py:369-407 | within one attempt the verdict is FAILURE exactly if a counted job has a bad row or a strict gate's rows all passed and its last one was skipped |
| CiSummary.FailureLeftExactly | scripts/ci/ci_summary_gate.py:255-307 | between two snapshots with frozen completed rows and any number of rows per job, FAILURE is left exactly if no counted job has a bad row, each strict gate that ended in a skip has an unfinished row or ends in a success, and no other strict gate ends in a skip |
| CiSummary.FailureAlongPolls | scripts/ci/ci_summary_gate.py:358-437 | the same between any two polls of a run |
| CiSummary.FailureIsFinalExactly | scripts/ci/ci_summary_gate.py:369-407 | read off one snapshot: a FAILURE stays whatever is still to come in the attempt exactly if a counted job has a bad row |
| CiSummary.LateSuccessHidesSkip | scripts/ci/ci_summary_gate.py:300-306 | a late success of a strict gate that was skipped turns FAILURE into SUCCESS |
| CiSummary.LateStartHidesSkip | scripts/ci/ci_summary_gate.py:255-262 | an unfinished row beside the skip turns FAILURE into PENDING |
| Spool.RunKeepsInvariant | scripts/cost_event_publisher.py:135-215 | every step of every run keeps conservation, the send account, archiving of events only, and that each message stems from an arrived file |
| Spool.InspectExactly | scripts/cost_event_publisher.py:81-108 | a file passes exactly if it decodes to an object with all five names, both sources null or in their sets, a correlation id that is null or a UUID, and encodable session and model; it is refused without raising exactly if the object fails this and no source is a list or an object |
| Spool.OnlyValidEventsLeave | scripts/cost_event_publisher.py:81-211 | over every run from an empty spool whatever is archived or was sent decodes to such an event, each message is the one made from its bytes, and those arrived |
| Spool.KeyExactly | scripts/cost_event_publisher.py:70-78 | the key is the digest of source, session, correlation, model and the digest of the bytes, joined by colons, null printed as None |
| Spool.SpoolConservation | scripts/cost_event_publisher.py:135-215 | from an empty spool each arrived file is in exactly one of root, published and rejected with its bytes; an archived one was acknowledged once plus once per interruption before its rename, a rejected one once per such interruption |
| Spool.ArchivedUnsentIffNoRetries | scripts/cost_event_publisher.py:181-211 | an event can be archived without an acknowledged send exactly when no attempt is configured |
| Spool.KeyDeterminesBytes | scripts/cost_event_publisher.py:70-78 | two files have one message key exactly if they have the same bytes, unless the four texts hashed for them collide |
| Spool.AppliedKeys | scripts/cost_event_publisher.py:158-176 | a consumer that drops repeated keys applies each key once, only messages that were sent, and misses no key |
| Spool.RedeliveryIsHarmless | scripts/cost_event_publisher.py:158-211 | over every run of crashes, retries and duplicates such a consumer applies each distinct content exactly once if it was sent at all, and nothing that never arrived, unless texts hashed in this run collide |
| SpoolDaemon.CostEventPublisher.constructor | scripts/cost_event_publisher.py:113-133 | a new publisher takes over the directories as an earlier one left them, wherever it stopped: that is the machine's crash step, and the invariant still holds |
| SpoolDaemon.FreshSpoolIsSound | scripts/cost_event_publisher.py:113-133 | a spool of files not looked at yet satisfies the invariant |
| SpoolDaemon.CostEventPublisher.Quarantine | scripts/cost_event_publisher.py:135-140 | the file moves to rejected, gets its reason file, and nothing else changes; its steps are steps of the machine |
| SpoolDaemon.CostEventPublisher.SendWithRetry | scripts/cost_event_publisher.py:181-199 | it succeeds exactly if one of the first max_retries attempts is acknowledged or none is configured, and it moves no file |
| SpoolDaemon.EndingExactly | scripts/cost_event_publisher.py:142-215 | what is no JSON is rejected, what is no object raises, an object that the validator refuses is rejected unless a source is a list or an object, and a valid event with encodable texts is rejected only when attempts are configured and all of them are lost |
| SpoolDaemon.CostEventPublisher.ProcessFile | scripts/cost_event_publisher.py:142-215 | the file ends as EndingExactly says; it leaves the root exactly if nothing is raised, to the matching directory; all its steps are steps of the machine |
| SpoolDaemon.CostEventPublisher.PollOnce | scripts/cost_event_publisher.py:217-229 | a pass raises exactly if some event file would, after handling exactly the files sorted before the first such; otherwise all event files are handled and counted; each handled file is in the directory its content and the broker's answers decide |
| SpoolDaemon.EventFilesExactly | scripts/cost_event_publisher.py:219-221 | a pass looks at the files whose name is a non-empty stem and .json |
| SpoolDaemon.DaemonKeepsInvariant | scripts/cost_event_publisher.py:142-229 | what the publisher does undisturbed keeps the machine's invariant |
| Migrations.CheckNode | scripts/ci/check_migration_base_before_view.py:118-159 | the violations returned are exactly the views reading another relation that no earlier file of the node creates and the allowlist does not name |
| Migrations.ViolatesExactly | scripts/ci/check_migration_base_before_view.py:118-159 | read off the statements: some view of the file reads another relation that is not allowlisted and that no statement of a file sorting before it creates |
| Migrations.ViolationsAreReal | scripts/ci/check_migration_base_before_view.py:118-159 | executing a reported file after the files before it fails unless an earlier statement of the same file creates the relation |
| Migrations.ViewsReadyExactly | scripts/run-projection-migrations.py:104-121 | a file can be executed exactly if every relation a view of it reads is there before or is created by an earlier statement of the file |
| Migrations.LedgerOverAnyRun | scripts/run-projection-migrations.py:73-123 | under any interleaving of runners, crashes and rejected files no row is removed or rewritten, relations only grow, and what is recorded was executed |
| Migrations.FinishedRunnerRecordedAll | scripts/run-projection-migrations.py:145-159 | whatever other runners do, once a runner that is no dry run has no node left every file of every discovered node, or with a filter of that node, is in the ledger |
| Migrations.BegunRunnerRecordedAll | scripts/run-projection-migrations.py:126-159 | the same for a runner from the moment it is begun on a checkout and a filter |
| Migrations.CleanGateMakesRunsSafe | scripts/ci/check_migration_base_before_view.py:118-159 | if every checkout passes the gate, recorded files are unchanged when the ledger is read for their node and allowlisted relations exist, then at every moment of every run, repaired files included, the file about to execute fails on a missing relation only through a view that reads itself |
| Migrations.CleanRunnerCanFinish | scripts/run-projection-migrations.py:85-159 | after any interleaving, crashes included, a runner on a clean checkout without self-reading views, of which nothing recorded has changed, can reach the end by steps of its own with no file rejected, and has then recorded everything in its scope, even where others have overtaken it |
| Migrations.AcceptedExactly | scripts/run-projection-migrations.py:108-109 | a file is accepted exactly if each relation that a view of it reads is there or created earlier in the file |
| Migrations.CrashLeavesNoRow | scripts/run-projection-migrations.py:108-121 | a crash between executing a file and recording it leaves it executed without a row, so it is pending again |
| Migrations.SelfReadPassesTheGate | scripts/ci/check_migration_base_before_view.py:131-158 | a self-reading view passes the gate and is not ready when it is executed |
| MigrationRunner.Migrator.ApplyMigration | scripts/run-projection-migrations.py:85-123 | a recorded version is skipped, or reported when its content differs; a new one is executed and then recorded, or leaves nothing behind if its SQL is rejected; a dry run changes nothing |
| MigrationRunner.Migrator.ApplyNode | scripts/run-projection-migrations.py:145-159 | the pending files of a node are applied in order up to the first rejected one, and exactly those are recorded |
| MigrationRunner.Migrator.Run | scripts/run-projection-migrations.py:48-168 | over the checkout: a completed run leaves every file of every discovered node, or with a filter of that node, in the ledger and no other new row, and returns the number of such files not recorded before; it raises exactly if one of those is rejected, at the first in node and file name order, with exactly those before it recorded; a dry run changes nothing |
| MigrationRunner.SecondRunAppliesNothing | scripts/run-projection-migrations.py:145-168 | after a completed run every file in scope is recorded, nothing is new, and an immediate second run changes nothing |
| MigrationRunner.DriftGoesUnreported | scripts/run-projection-migrations.py:95-102 | a recorded file whose content changed is neither applied nor reported by a run |
| ContractPatcher.SetMetadataTransportType | scripts/audit/apply_contract_config.py:107-160 | the scan and edit give the patched text that PatchReplaces, PatchInserts and PatchAppends describe |
| ContractPatcher.PatchReplaces | scripts/audit/apply_contract_config.py:130-156 | below the first metadata line, the first line holding the key and a colon, with only blank or indented lines up to it, is given the transport with its indentation kept, or the text is left alone if its value is the transport already |
| ContractPatcher.PatchInserts | scripts/audit/apply_contract_config.py:158-160 | with a metadata line and no such line, one is inserted directly below the metadata line |
| ContractPatcher.PatchAppends | scripts/audit/apply_contract_config.py:120-128 | without a metadata line the block is appended behind the whole text |
| ContractPatcher.SeparatorExactly | scripts/audit/apply_contract_config.py:122-125 | in between come a newline unless the text is empty or ends in one, and another one unless the last line is blank |
| ContractPatcher.ReadBackExactly | scripts/audit/apply_contract_config.py:137-150 | what is read is the trimmed text after the colon of that line |
| ContractPatcher.AppendBlock | scripts/audit/apply_contract_config.py:120-128 | without a metadata line the final newline is repaired, a separator line added and the block appended |
| ContractPatcher.PatchReadsBack | scripts/audit/apply_contract_config.py:107-160 | the patched text declares the requested transport, except exactly when an unterminated metadata line ends the text |
| ContractPatcher.UnchangedIffDeclared | scripts/audit/apply_contract_config.py:107-160 | the text is left alone exactly if it already declares that transport |
| ContractPatcher.PatchIdempotent | scripts/audit/apply_contract_config.py:107-160 | patching twice is patching once, except exactly in that case |
| ContractPatcher.InsertMisses | scripts/audit/apply_contract_config.py:159-160 | in that case the patched text declares no transport at all |
| ContractPatcher.UnterminatedExample | scripts/audit/apply_contract_config.py:159-160 | a concrete such text, for every transport |
| ContractPatcher.PatchFrame | scripts/audit/apply_contract_config.py:107-160 | old and new text share everything but one stretch: nothing at all, a block appended behind a text without metadata line, a line inserted directly below a metadata line without entry, or the first entry of the block renewed with its indentation |
| ContractPatcher.ReplaceReadsLines | scripts/audit/apply_contract_config.py:141-156 | exchanging the transport line that is read changes what is read to the new line's value |
| TestSelection.Resolve | scripts/ci/detect_test_paths.py:48-73 | the staged sets end in the sorted existing paths that some changed path asks for |
| TestSelection.StagesAgree | scripts/ci/detect_test_paths.py:53-71 | collecting modules, then dependents, then directories asks for the same as looking at each changed path by itself |
| TestSelection.TestsForExactly | scripts/ci/detect_test_paths.py:53-71 | a path below a known module of the source asks for the tests of that module and of its dependents, a path below tests/ for the entry it lies in, and nothing else asks for anything |
| TestSelection.ChangeReasonExactly | scripts/ci/detect_test_paths.py:96-114 | everything is run if a changed file is an infrastructure entry or lies below one, whatever slashes the entry ends in; else if a shared module changed; else if as many known modules changed as the threshold says |
| TestSelection.ValidTestPathExactly | scripts/ci/test_selection_models.py:23-26 | the record accepts tests/, and tests/ with a non-empty name of the listed characters and a slash |
| TestSelection.ShardsByPaths | scripts/ci/detect_test_paths.py:139-149 | one shard, and one more for each of 2, 5, 10 and 16 that the number of directories exceeds |
| TestSelection.ComputeSelection | scripts/ci/detect_test_paths.py:76-149 | the early returns and checks give the specified selection or its refusal |
| TestSelection.ChangedCodeIsTested | scripts/ci/detect_test_paths.py:76-126 | every existing path a changed file asks for is run, itself or within tests/; without a reason for everything nothing else is run |
| TestSelection.RefusedExactly | scripts/ci/test_selection_models.py:23-40 | a selection is refused exactly when no reason calls for everything and a changed file asks for an existing path that the record's pattern refuses |
| TestSelection.ReasonStays | scripts/ci/detect_test_paths.py:96-114 | a change that calls for every test still does when more files change |
| TestSelection.SelectionGrows | scripts/ci/detect_test_paths.py:76-149 | a larger change keeps every full run full, has no fewer shards when neither selection is refused, and runs everything the smaller one runs except exactly when it calls for no full run and either asks for a path that is refused, which the smaller did not, or asks for an existing path while the smaller, asking for none, ran all of tests/ |
| TestSelection.LargerChangeRunsLess | scripts/ci/detect_test_paths.py:115-117 | such a pair: no change runs tests/, a change under tests/foo/ only that directory |
| TestSelection.MatrixNumbersTheShards | scripts/ci/detect_test_paths.py:115-149 | the matrix is 1 to the split count, at most 20; a full run has 20 splits over tests/; a partial run has no more splits than directories |
| ShardCensus.ValidateArtifacts | scripts/ci/aggregate_coverage_artifacts.py:227-354 | acceptance returns the common scope of a complete census, and rejection means that no scope makes it complete |
| ShardCensus.AcceptedExactly | scripts/ci/aggregate_coverage_artifacts.py:227-354 | over the fields: there are as many sidecars as shards, at least one; each has the schema, the head, the split count, the scope, a data file and, with an age limit, a readable creation time no further back than that; and every shard 1 to n has one |
| ShardCensus.NoLossNoAddition | scripts/ci/aggregate_coverage_artifacts.py:295-345 | dropping sidecars from an accepted census or adding any is rejected |
| ShardCensus.ExchangeOne | scripts/ci/aggregate_coverage_artifacts.py:259-345 | one sidecar of an accepted census can be exchanged for exactly those well-formed for the same head with the same split and the scope of the others |
| ShardCensus.ReheadingIsRejected | scripts/ci/aggregate_coverage_artifacts.py:276-282 | binding one sidecar of an accepted census to another head gets the whole census rejected |
| ShardCensus.OrderIsIrrelevant | scripts/ci/aggregate_coverage_artifacts.py:259-354 | acceptance does not depend on the order in which sidecars are found |
| ShardCensus.BuiltIsWellFormed | scripts/ci/coverage_artifact_metadata.py:50-85 | a built sidecar passes exactly if its scope is known, head and split count match, it is fresh enough and its data file arrived |
| ShardCensus.SelectionRoundTrip | scripts/ci/detect_test_paths.py:115-149 | sidecars built for every entry of a selected matrix, found in any order, are accepted with their scope exactly when all are bound to the validated head, fresh enough and have their data files |
| ShardCensus.StageDataFiles | scripts/ci/aggregate_coverage_artifacts.py:377-383 | staging succeeds exactly if the data file of every split 1 to n is there, and then stages them in order |
| ShardCensus.StagingAfterAcceptance | scripts/ci/aggregate_coverage_artifacts.py:326-383 | after acceptance every data file but the first is certainly there, and staging succeeds exactly if that of shard 1 is |
| ShardCensus.TrueIsAcceptedAsShardOne | scripts/ci/aggregate_coverage_artifacts.py:283-288 | a census with split true is accepted although the data file of shard 1 is missing |
| ReasonGraph.ClassifyMeaning | scripts/ci/product_readiness.py:195-249 | a failure is named by the first failed subcheck in the fixed order, green holds exactly if every subcheck passed, and without a failure outcome no subcheck failed |
| ReasonGraph.ProductExactly | scripts/ci/product_readiness.py:120-249 | over the conclusion strings: the product failed at a subcheck exactly if it says failure or action_required and no earlier one does, and is green exactly if all say success or neutral |
| ReasonGraph.BuildReasonGraph | scripts/ci/product_reason_graph.py:155-311 | the filled candidates, elected root and listed nodes are the specified graph |
| ReasonGraph.ElectRoot | scripts/ci/product_reason_graph.py:222-238 | the scan in precedence order elects the specified root with its receipt |
| ReasonGraph.RootByPrecedence | scripts/ci/product_reason_graph.py:89-96 | the root is the candidate cause that no candidate outranks, with its own signal, and there is none exactly if there is no candidate |
| ReasonGraph.RootExactly | scripts/ci/product_reason_graph.py:155-238 | over the strings: the root is the first of API outage, runner, hold, evidence, product and deployment whose strings report it |
| ReasonGraph.InfraNamesExactly | scripts/ci/product_reason_graph.py:203-209 | the runner signal of an unconfirmed product lists the subchecks that neither passed nor failed, in the fixed order |
| ReasonGraph.ReadyExactly | scripts/ci/product_reason_graph.py:296-311 | ready holds exactly if there is no root, which is exactly if every subcheck passed and no signal reports a cause |
| ReasonGraph.ReadyOverStrings | scripts/ci/product_reason_graph.py:296-311 | over the strings: ready exactly if every subcheck says success or neutral, the evidence check is not red, runner and policy are silent, and neither the API nor the deployment reports a failure |
| ReasonGraph.ProductSignal | scripts/ci/product_reason_graph.py:219-221 | a root for a failed product names the failed subcheck in its signal |
| ReasonGraph.ExactlyOneRootNode | scripts/ci/product_reason_graph.py:241-294 | no root, no root node; otherwise exactly one node is the root, failed and carrying the root's receipt |
| ReasonGraph.NodesExplained | scripts/ci/product_reason_graph.py:246-282 | a blocked node carries the receipt of an existing root, a node passes exactly if its subcheck did, and no node is left INFRA or ABSENT |
| ReasonGraph.NonPassingAccountedFor | scripts/ci/product_reason_graph.py:296-306 | the subchecks that did not pass are exactly the blocked ones, plus the root itself if the product failed |
| ReasonGraph.OccIndependence | scripts/ci/product_reason_graph.py:189-215 | after an affirmative product failure, and wherever else OCC is outranked, the whole graph is the same for every OCC conclusion |
| ReasonGraph.OccIndependenceExactly | scripts/ci/product_reason_graph.py:189-215 | the graph ignores the OCC conclusion exactly when a product failure, an API outage, a runner signal, or a hold on a green head outranks it |
| ReasonGraph.ReceiptsDistinct | scripts/ci/product_reason_graph.py:139-148 | receipt texts of different triples differ as long as the signals hold no upper-case letter |
| ReasonGraph.RootReceiptsDistinct | scripts/ci/product_reason_graph.py:139-148 | two graphs share a root receipt text exactly if they have the same head, cause and signal |
| ReasonGraph.CollidesExactly | scripts/ci/product_reason_graph.py:139-148 | another triple has the same receipt text exactly if the head with the separator behind it, or the signal with the separator before it, holds a kind between separators |
| ReasonGraph.RawTriplesCollide | scripts/ci/product_reason_graph.py:139-148 | for arbitrary triples the documented unambiguity of the separator fails |
| SortedKeys.StrLeExactly | scripts/run-projection-migrations.py:52-62 | names are ordered by the first differing character, a prefix coming first |
| PythonText.StripExactly | scripts/generate_env_example.py:183 | stripping leaves the text without the white space at its ends |

## Left out

- CoverageSelection.MinimalUpToTwo: one direction only, like MinimalIfLaminar, since deciding whether a larger selection is a smallest cover is as hard as set cover.
- Measuring arcs and percentages with coverage.py: arcs and percentages are inputs. Input scrubbing and hashing in the receipt are not modelled.
- ShardCensus.ValidateArtifacts: reason codes and messages of a rejection are left out, because which comes first depends on the order of the sidecars.
- Loading sidecars from disk, parity with the legacy coverage total, bounded subprocesses and the combine step itself.
- GoldenCompare.DiffPaths: the report is a list of addresses and kinds of change; the wording of its lines is left out.
- GoldenCanonical.PrintedInjective: `NaN`, `Infinity` and unpaired surrogates are left out; numbers are opaque literals.
- Category buckets, default rendering and the header of the generated env example: concatenation of given parts.
- Kafka, producer start and stop beyond success or failure, environment variables, signal handling and the endless loop of the daemon: the loop repeats the modelled pass.
- SpoolDaemon.CostEventPublisher.PollOnce: files that arrive during a pass are not seen by that pass; between passes and across crashes the machine of module Spool covers arrivals.
- The reasons written into reason files; only that the file is written is modelled.
- SQL text: migrations are lists of created tables and views with what the views read; extraction by regular expressions, `DROP`, comments and other statements are left out.
- asyncpg connections, transactions as such and printing: one file is one atomic step, as the transaction around it promises.
- The polling interval, the deadline and the text report of the CI summary; the verdict on each snapshot is modelled.
- Python parsing: a source is a tree of nodes with distinct identities, or does not parse. Expression contexts and operators without text are not nodes of the model.
- Extraction of declared states from contracts, and change detection against a git ref.
- ContractPatcher.SetMetadataTransportType: works on the text; the YAML meaning of nested or quoted keys, and the validation of the result by a YAML parser, are left out.
- Reading the audit CSV and picking the dominant transport.
- TestSelection.ComputeSelection: the adjacency file is a given record; its own load-time checks are not needed by the properties.
- Governance readiness, merge queue enqueueing and lane resolution: single decisions over a fixed number of flags, with no state and no unbounded input.
- Template and adapter generators, catalog scripts, linters and baselines that are one set difference.
