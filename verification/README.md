# Models of a cross-chain end-to-end suite

The repository is an end-to-end suite for a privacy ledger: a parallel runner that schedules
files over slots, a layer that submits transactions and waits for effects, batch and ledger
helpers, and two cross-chain protocols (a public-chain bridge and a registry broadcast) whose
steps and invariants the suite states. This project models that logic in Dafny and proves
what it is for.

Files whose code changes state step by step are modelled by classes and methods with loops
(`Phases`, `TokenBridge`, `Registry`, `TemplateReplica`, `ContractStore`, `TokenSend`, and the
loops of the tokeniser, flag rewriting, retry, polling, scan, lanes and observer). Each is proved
equal to a specification function, and the theorems are about that function. Pure expressions
(the sort, error classification, backend choice, key formatting) stay functions.

Modules, in reading order:

- **Runner**: `ListScheduling` (Graham's bounds over numbers), `Scheduler` (the slots as a step
  system and its invariant), `SchedulerRuns` (what holds of every run), `ParallelPhase` (the object
  that mutates), `TimedPhase` and `LongestFirstQueue` (the clocked runs and their makespan),
  `QueueSort`, `Tokeniser`, `Shell` (how `sh -c` splits a line), `Flags` and `FlagLimits`,
  `ScriptCommand`, `Text`.
- **Submission**: `Errors`, `Submission` (`retry`, `sendTx`, `submitTx` against any node), `RetriedErrors`
  (the same told from error texts, codes and times),
  `Polling` (`poll`, `eventually`, `never` over any stream of checks).
- **Batches and observers**: `HolderScan`, `BatchCombine`, `NonceLanes`, `CrashObserver`,
  `ContractCache`, `Backends`, with `Arithmetic` for division.
- **Protocols**: `Bridge` (lock, mint, burn, unlock, revert, freeze), `BridgeLedger` (its runs told from
  requests and answers) and `Replica` (approve, seed, revoke, stale messages).

The environment is arbitrary throughout. Exit codes, durations, interleavings, delivery orders,
RPC outcomes, probes, clocks and balances are parameters, and every theorem quantifies over them.

## Where the code departs from what it promises

Each is proved, with the exact condition under which the promise holds.

- With `PARALLEL_WORKERS=0` the phase reports success having run nothing
  (`SchedulerRuns.VerdictSoundExactly`).
- The child's command line is joined without quoting and given to `sh -c`. Words that the shell does not
  expand reach the child as intended iff none is empty or holds a blank, a quote or an operator
  (`ScriptCommand.ChildCommandExact`); an apostrophe in a pattern makes the line an error
  (`ApostropheBreaksChild`). The runner's own tokeniser is more lenient: it reads such a line back iff no
  word is empty, holds white space or opens a quote that is closed later (`Tokeniser.RejoinReadsBack`);
  a grep pattern with a space is split by both (`Tokeniser.SpacedPatternSplits`).
- A grep pattern that is itself `--bail` or `--grep` can make the flag rewriting drop the wrong words
  (`Flags.ReservedPatternsExactly`), or the runner bail unasked (`FlagLimits.PatternTakenForBail`). For
  every flag list, its meaning is kept iff no pattern but the last is `--grep`, `--bail`, if given, is
  given while the pattern in force is not `--bail`, and the last pattern is not `--bail` unless that flag
  was given (`FlagLimits.DedupeFaithfulExactly`).
- `tokens.indexOf('test', -1)` starts at the last token, so a script of another tool that ends in
  `test` is accepted (`ScriptCommand.AcceptedExactly`, `OtherToolAccepted`).
- An empty quoted token is collected as `undefined`. The parser crashes iff one stands after `test` where it
  is not taken as a pattern (`ScriptCommand.CrashesExactly`, `EmptyArgumentCrashes`); as a pattern it is
  written as the empty string here.
- The phase lasts until every slot has returned, and the stagger alone may outlast the work
  (`LongestFirstQueue.StaggerOutlasts`): it does iff (workers - 1) staggers are longer than every file's
  end (`StaggerOutlastsExactly`). The makespan theorems therefore bound the end of the last file.
- `sendTx` and `submitTx` do not recover the same transactions. Both send a replaced one again
  (`Submission.ReplacedTransaction`); only `submitTx` makes good one whose receipt does not come in time
  (`DisplacedTransaction`); only `sendTx` retries a nonce error raised while waiting
  (`NonceErrorWhileWaiting`). When each goes on, and when they part, is exact in `SendGoesOnExactly`,
  `SubmitGoesOnExactly` and `TheyPartExactly`.
- The comment on `eventually` promises the last observed value; any tolerated error hides it
  (`Polling.ValueShownExactly`).
- The holder scan misses a holder whose last receipt is older than the window
  (`HolderScan.OldReceiptMissed`); what it finds is exact in `HolderScan.ScanExact`.
- The waits for combined transfers can be met for all values iff, among transfers to one recipient, each
  source sends one token and each token comes from one source (`BatchCombine.WaitsMetExactly`);
  `getBatchTokenResourceId` sees to that by giving each source its own token.
- A batch send that returns need not have delivered its count. Only messages about nonces and replacements
  are looked at, so a send can return with every transaction refused (`NonceLanes.AllRefused`); and what an
  aborted attempt had accepted comes on top of the signed-again run (`AcceptedTwice`). For every node and
  every send that returns, if the replies to the last attempt have an entry per transaction: `count` were
  accepted in all iff as many were accepted in the aborted attempts as were refused in the last
  (`ExactlyOnceExactly`).
- A cache hit compares signer objects, not addresses (`ContractCache.HitIgnoresAddress`). Runs of a set of
  operations answer every request at its address iff requests agree in address with all operations of
  their key and signer (`ContractCache.AnsweredExactly`). For the same reason two signer objects of one
  address evict each other's bindings. No run of a set of operations evicts a request's binding iff all
  operations under its key have its signer object and store nothing else there (`CoexistExactly`). A default
  key collides with a signer-scoped one iff it ends in an underscore and an address (`CollisionExactly`).
- Two different changes of one key in one block can leave replicas wrong
  (`Replica.ConvergesExactly`, `SameBlockDiverges`).
- The suite computes `available = balance - locked` at
  `test/e2e/public-chain/ERC20_Public_Chain.ts:342`, although by its own comment at line 316 the balance
  already excludes what is locked. It is positive iff less than half of what was minted is locked, and
  denies a send that would succeed iff 0 < balance <= locked (`Bridge.AvailableExactly`,
  `AvailableTooStrict`). The model follows the comment and the assertions.

## Model

| member | source | states |
|---|---|---|
| `ListScheduling.LoadsAddUp` | scripts/runners/base-parallel-runner.js:344-346 | the slots' busy times add up to the durations of the files dispatched: no work is lost or done twice |
| `ListScheduling.WorkConservingBound` | scripts/runners/base-parallel-runner.js:315-357 | any queue order, durations and tie-breaking: 2mC <= 2(total) + 2(m-1)(longest) + s*m*(m-1) for every file's end C, with slot i starting at i*s |
| `ListScheduling.FewFilesPerSlot` | scripts/runners/base-parallel-runner.js:262-269 | longest-first is optimal up to a file too long to share a slot with two others within the optimum |
| `ListScheduling.LongestFirstBound` | scripts/runners/base-parallel-runner.js:262-269 | Graham's bound: in descending order every file ends by C with 3mC <= (4m-1)*opt, for any placement of the same files that finishes by opt |
| `ListScheduling.LongTail` | scripts/runners/base-parallel-runner.js:256-261 | without the sort the long tail is real: for every m, a queue with the long file last ends at 2m-1 although its files fit in m, and the work-conserving bound is attained |
| `ListScheduling.LongestFirstTight` | scripts/runners/base-parallel-runner.js:262-269 | the factor is exact: for every m there are 2m+1 files, longest first, that end at 4m-1 although they can be placed to finish by 3m |
| `Scheduler.StepInv` | scripts/runners/base-parallel-runner.js:315-364 | every step of every slot keeps: the cursor counts dispatched files and exhausted slots, each spawned file is held by one slot or closed once, a slot's runs are numbered upwards, and statistics, failures and bail flag agree with the exits |
| `Scheduler.PlayInv` | scripts/runners/base-parallel-runner.js:315-367 | the invariant holds after every interleaving, and between steps each slot is at an await or has returned |
| `SchedulerRuns.SuffixesDistinct` | scripts/runners/base-parallel-runner.js:330-341 | on no run do two children share a report suffix, so no report overwrites another |
| `SchedulerRuns.SuffixInjective` | scripts/runners/base-parallel-runner.js:331 | a suffix determines its slot and run index |
| `Text.DecimalReads` | scripts/runners/base-parallel-runner.js:331 | the numbers in a suffix are written in decimal, without leading zeros |
| `SchedulerRuns.DispatchedIsPrefix` | scripts/runners/base-parallel-runner.js:305-313 | at any moment the dispatched files are the queue's first min(queuePos, total), the number the progress line shows |
| `SchedulerRuns.CountersAddUp` | scripts/runners/base-parallel-runner.js:344-347 | at any moment the slots' filesCompleted add up to the children that have closed |
| `SchedulerRuns.CompleteRun` | scripts/runners/base-parallel-runner.js:315-367 | a run that ends without bailing had each file's child close exactly once, leaves queuePos at total + workers, and counted every file |
| `SchedulerRuns.FailuresExact` | scripts/runners/base-parallel-runner.js:351-352 | at any moment a file whose child has ended is listed as failed, under its name and slot, iff the `close` event that ended it had a code other than 0 |
| `SchedulerRuns.OnlyEndedFail` | scripts/runners/base-parallel-runner.js:351-352 | no file is listed whose child has not ended |
| `SchedulerRuns.BailExact` | scripts/runners/base-parallel-runner.js:351-357 | the bail flag is set iff `--bail` was given and some `close` event had a code other than 0 |
| `SchedulerRuns.TotalsExact` | scripts/runners/base-parallel-runner.js:344-347 | a slot's filesCompleted, totalMs and runIndex are the number and the total time of its `close` events |
| `SchedulerRuns.ClosedInOrder` | scripts/runners/base-parallel-runner.js:338-344 | the children close in the order of the `close` events, each with its event's slot, code and time |
| `SchedulerRuns.NextFile` | scripts/runners/base-parallel-runner.js:323-342 | after every event of every run: the slot takes the next file of the queue, with the run index and suffix its earlier children give it, unless none is left or a failure has called a bail, and then returns; no other slot is touched |
| `SchedulerRuns.CanHappenExactly` | scripts/runners/base-parallel-runner.js:315-338 | what can happen next in a run: any slot's stagger ends, once, or any running child closes, with any code and after any time |
| `SchedulerRuns.GreenMeansPassed` | scripts/runners/base-parallel-runner.js:367-383 | with at least one slot, a finished phase has no failure iff every file's child was closed by exactly one event, with code 0, bail or not |
| `SchedulerRuns.VerdictSoundExactly` | scripts/runners/base-parallel-runner.js:366-383 | success implies that everything passed on every run iff there is a slot or an empty queue |
| `SchedulerRuns.BailStops` | scripts/runners/base-parallel-runner.js:323-357 | once a failure was seen under `--bail` nothing is dequeued again and at most workers - 1 more children close |
| `SchedulerRuns.EveryRunEnds` | scripts/runners/base-parallel-runner.js:315-367 | every run has at most workers + total steps and can continue until all slots have returned |
| `ParallelPhase.Phases.constructor` | scripts/runners/base-parallel-runner.js:284-299 | the closure variables start as the step system's initial state, with bail read from the flags |
| `ParallelPhase.Phases.StaggerElapsed` | scripts/runners/base-parallel-runner.js:316-333 | a slot resuming after its stagger does exactly one step of the system |
| `ParallelPhase.Phases.ChildClosed` | scripts/runners/base-parallel-runner.js:344-358 | a slot whose child closes updates statistics, run index, failures and bail flag, then dequeues or leaves: one step of the system |
| `ParallelPhase.Phases.TakeNext` | scripts/runners/base-parallel-runner.js:323-342 | the loop head: stop on bail, else post-increment the cursor and spawn or leave |
| `ParallelPhase.Phases.Drive` | scripts/runners/base-parallel-runner.js:315-367 | a whole sequence of resumptions takes the object where the step system goes |
| `TimedPhase.RunOnSchedule` | scripts/runners/base-parallel-runner.js:315-357 | whenever the event loop serves an await that is due first, the run so far is a list schedule and each slot's clock is its stagger plus its load |
| `TimedPhase.DispatchMeansAllPending` | scripts/runners/base-parallel-runner.js:323-338 | one step dispatches at most one file, and none once some slot has returned |
| `TimedPhase.SomeoneIsDue` | scripts/runners/base-parallel-runner.js:367 | until all slots have returned some await is due first, so a clocked run never gets stuck |
| `LongestFirstQueue.ClockedRunIsARun` | scripts/runners/base-parallel-runner.js:315-367 | every clocked run is one of the interleavings, so all results about those apply |
| `LongestFirstQueue.ClockedMakespan` | scripts/runners/base-parallel-runner.js:315-357 | the work-conserving bound for the clocked phase itself, with stagger, any exit codes and bail |
| `LongestFirstQueue.SlotReturns` | scripts/runners/base-parallel-runner.js:316-358 | a slot's clock stands at the end of the last file it ran or, if it ran none, at its stagger |
| `LongestFirstQueue.StaggerOutlastsExactly` | scripts/runners/base-parallel-runner.js:316-367 | some slot returns after the end of every file iff there is a slot and (workers - 1) times the stagger is longer than every file's end |
| `LongestFirstQueue.StaggerOutlasts` | scripts/runners/base-parallel-runner.js:316-367 | two slots and one short file: the phase lasts until the second slot's stagger is over |
| `LongestFirstQueue.SortedPlacement` | scripts/runners/base-parallel-runner.js:262-269 | sorting loses nothing: any placement of the unsorted files is a placement of the queue with the same loads |
| `LongestFirstQueue.LongestFirstWithinFourThirds` | scripts/runners/base-parallel-runner.js:262-367 | with exact hints and no stagger, the phase on the sorted queue ends every file by C with 3mC <= (4m-1)*opt, opt the finish of any assignment of files to slots |
| `QueueSort.LongestFirstExactly` | scripts/runners/base-parallel-runner.js:262-269 | the queue is the one list that is longest first with unknown files on top and keeps files of equal hint in their given order |
| `QueueSort.SortPermutes` | scripts/runners/base-parallel-runner.js:262-269 | the sorted copy holds the same files, each as often |
| `QueueSort.UnknownGoFirst` | scripts/runners/base-parallel-runner.js:256-267 | a file without a hint stands before every file with one |
| `QueueSort.BasenameExactly` | scripts/runners/base-parallel-runner.js:265-266 | the hint of a path is looked up under its last segment, whatever directory it is in and whatever slashes follow |
| `QueueSort.LongerNameFirst` | scripts/runners/base-parallel-runner.js:264-267 | on paths and file names: the one with the longer hint, or with none, stands before the other |
| `Tokeniser.Exec` | scripts/runners/base-parallel-runner.js:48-50 | one regex match from a position: skips white space, then takes a closed quoted part or a run of non-space characters |
| `Tokeniser.Tokenise` | scripts/runners/base-parallel-runner.js:46-52 | the loop collects exactly the matches of the expression, an empty quoted match as undefined |
| `Tokeniser.RejoinReadsBack` | scripts/runners/base-parallel-runner.js:183 | words joined by spaces tokenise back to themselves iff none is empty, holds white space, or opens a quote closed later |
| `Tokeniser.SpacedPatternSplits` | scripts/runners/base-parallel-runner.js:332 | a pattern of two plain words after a flag is read back as two separate words |
| `Tokeniser.QuotedReadsBack` | scripts/runners/base-parallel-runner.js:46-52 | words quoted with one quote character and joined tokenise back iff none is empty or holds that character |
| `Tokeniser.SizeBound` | scripts/runners/base-parallel-runner.js:48-52 | tokenising never makes up characters: tokens and their separators fit in the line |
| `Tokeniser.SpacesExactly` | scripts/runners/base-parallel-runner.js:48 | `\s` matches the 25 white-space and line-terminator characters of ECMAScript, and no other |
| `Tokeniser.OrdinaryWord` | scripts/runners/base-parallel-runner.js:48-52 | a word of printable ASCII characters other than quotes, `/` and `-` among them, is one token, ended by a blank or line break |
| `Tokeniser.OrdinaryWordsSplit` | scripts/runners/base-parallel-runner.js:48-52 | a line of such words is split into exactly those words |
| `Tokeniser.QuotedPart` | scripts/runners/base-parallel-runner.js:48-52 | a closed quoted part is one token, undefined when empty |
| `Flags.DedupeFlags` | scripts/runners/base-parallel-runner.js:115-133 | the loop with its splice computes the rewriting |
| `Flags.DedupeIsIntended` | scripts/runners/base-parallel-runner.js:115-133 | unless a pattern is itself `--bail` or `--grep`, what is left is the first `--bail`, the last `--grep` with its pattern, and all other flags, each in place |
| `Flags.DedupeKeepsMeaning` | scripts/runners/base-parallel-runner.js:102-133 | bail is set iff given, the pattern in force is the last, other flags keep their order, one of each remains, `includes('--bail')` agrees, and rewriting twice is rewriting once |
| `Flags.ReservedPatternsExactly` | scripts/runners/base-parallel-runner.js:120-128 | the rewriting is right for every flag list with pattern v iff v is neither `--bail` nor `--grep` |
| `Flags.BailAsPattern` | scripts/runners/base-parallel-runner.js:121-122 | `--grep --bail --bail` loses the bail flag |
| `Flags.GrepAsPattern` | scripts/runners/base-parallel-runner.js:123-127 | `--grep --grep --grep --grep` keeps three words where two are meant |
| `Flags.RenderItems` | scripts/runners/base-parallel-runner.js:115-133 | reading flags as options and writing them back gives the same flags |
| `FlagLimits.DedupeFaithfulExactly` | scripts/runners/base-parallel-runner.js:115-133 | for every flag list: the last `--grep` stays in place among the other flags, those keep their order, and both hardhat and `includes('--bail')` read bail iff it was given, exactly when no pattern but the last is `--grep`, some `--bail`, if any, does not follow the pattern `--bail`, and the last pattern is not `--bail` unless that flag was given |
| `FlagLimits.BailWordLeft` | scripts/runners/base-parallel-runner.js:353 | as long as no pattern but the last is `--grep`, `includes('--bail')` holds of the rewritten flags iff a `--bail` was read or the last pattern is that word |
| `FlagLimits.PatternTakenForBail` | scripts/runners/base-parallel-runner.js:353 | `--grep --bail` makes the runner bail although no `--bail` was given |
| `FlagLimits.ReadAsLeft` | scripts/runners/base-parallel-runner.js:120-130 | as long as no pattern but the last is `--grep`: what is read from the rewritten flags, the pattern `--bail` standing in for the flag |
| `FlagLimits.DedupeTimes` | scripts/runners/base-parallel-runner.js:123-127 | the result holds the word `--grep` once for the flag and once more for every pattern that was ever `--grep`: the splice never catches up |
| `Flags.ItemsOfDedupe` | scripts/runners/base-parallel-runner.js:115-133 | the rewritten flags are read as exactly the intended options |
| `ScriptCommand.ParseHardhatScript` | scripts/runners/base-parallel-runner.js:46-75 | the whole parser: tokenise, find `test`, split file patterns from flags, or reject |
| `ScriptCommand.SplitLoop` | scripts/runners/base-parallel-runner.js:61-74 | the splitting loop, with `--grep` taking the next argument and an undefined argument crashing |
| `ScriptCommand.AcceptedExactly` | scripts/runners/base-parallel-runner.js:54-59 | a script is accepted iff `test` follows the first `hardhat`, or there is no `hardhat` and the last token is `test` |
| `ScriptCommand.OtherToolAccepted` | scripts/runners/base-parallel-runner.js:54-59 | `mocha test` is accepted and yields nothing to run |
| `ScriptCommand.ArgumentsFollowTest` | scripts/runners/base-parallel-runner.js:54-61 | the arguments are what follows the first `test` after the first `hardhat` |
| `ScriptCommand.LoneTestRunsNothing` | scripts/runners/base-parallel-runner.js:54-61 | without `hardhat`, a script whose last word is `test` has no arguments, whatever stands before it |
| `ScriptCommand.SplitExactly` | scripts/runners/base-parallel-runner.js:61-74 | unless the parser crashes, file patterns are the arguments that neither start with a dash nor follow a `--grep`, flags are the others, each in order |
| `ScriptCommand.CrashesExactly` | scripts/runners/base-parallel-runner.js:61-74 | the parser crashes iff an undefined token stands after `test` and is not taken as a pattern |
| `ScriptCommand.EmptyArgumentCrashes` | scripts/runners/base-parallel-runner.js:66 | `hardhat test ''` crashes, `hardhat test --grep ''` does not |
| `ScriptCommand.SplitShape` | scripts/runners/base-parallel-runner.js:61-74 | file patterns never start with a dash; every flag does, or is the pattern of a `--grep` |
| `Shell.SplitReadsBack` | scripts/runners/base-parallel-runner.js:202 | `sh` splits an unquoted joined line into the same words iff none is empty or holds a blank, a quote, an operator or a line end |
| `Shell.SafePrefixSurvives` | scripts/runners/base-parallel-runner.js:202 | safe words at the head of a line are split off as they are, whatever follows |
| `Shell.WordPartsExactly` | scripts/runners/base-parallel-runner.js:202 | a quoted part belongs to the word it stands in, blanks and operators included; an unclosed quote is an error; a blank ends the word; an operator ends the command |
| `ScriptCommand.ChildCommandExact` | scripts/runners/base-parallel-runner.js:332 | for words that the shell does not expand, the child sees the intended words iff no file or flag is empty or holds a blank, a quote, an operator or a line end |
| `ScriptCommand.ApostropheBreaksChild` | scripts/runners/base-parallel-runner.js:202 | a pattern with an apostrophe survives the runner's tokeniser and is an error to `sh` |
| `ScriptCommand.ChildCommandParsesBack` | scripts/runners/base-parallel-runner.js:332 | rewriting keeps flags well formed; what `sh` hands to the child for words that it does not expand is read as its files and the rewritten flags, iff none of them is empty or holds a blank, a quote, an operator or a line end |
| `Errors.ReceiptTimeoutNotRetryable` | src/exceptions-and-errors/block-chain-exceptions.ts:1-6 | a receipt timeout for any hexadecimal hash is neither a nonce nor a transient error, whatever the patterns find in its message |
| `Text.LowerExactly` | src/exceptions-and-errors/block-chain-exceptions.ts:17 | lower case takes A to Z to a to z in order and leaves the rest, and the length, alone |
| `RetriedErrors.RetriedExactly` | src/exceptions-and-errors/block-chain-exceptions.ts:8-81 | an error is retried iff it has one of the two classes or the two codes, or one of ten fragments of text occurs in its lower-case message, or in its reason when it has no message |
| `RetriedErrors.FirstErrorByText` | src/utils/common.ts:65-83 | an ordinary error on the first call: with one of the ten fragments anywhere in its text, in any mix of case, both functions call again; without, and without a code, both stop with it after one call |
| `Submission.Retry` | src/utils/common.ts:16-40 | calls made, result and delays of the loop, also for no attempts at all |
| `Submission.CallsCharacterised` | src/utils/common.ts:28-39 | every call but the last failed retryably; the last succeeded, failed for good, or was the final attempt |
| `RetriedErrors.AnyRetryExactly` | src/utils/common.ts:28-39 | with any condition: a call is followed by another iff attempts are left, it did not return, and the condition holds of what it threw |
| `Submission.SendTx` | src/utils/common.ts:65-83 | `sendTx` is the retry over call-and-wait with 5 attempts |
| `Submission.SendStopsAtTimeout` | src/utils/common.ts:65-83 | after a receipt timeout `sendTx` makes no further call and throws that timeout |
| `Submission.Turn` | src/utils/common.ts:206-233 | one round: it continues iff its accepted response timed out or was replaced and a round is left |
| `Submission.SubmitTx` | src/utils/common.ts:198-241 | the loops compute the rounds made and the outcome of the last one |
| `Submission.SubmitBounds` | src/utils/common.ts:198-241 | at most 5 rounds, 25 calls and 85 s of sleeps and waits; rounds follow on from each other, all but the last abandoned a response for a timeout or replacement, and only a fifth may end so |
| `Submission.SubmitBoundsTight` | src/utils/common.ts:198-241 | some node makes it reach 25 calls and 85 s |
| `Submission.SubmitResult` | src/utils/common.ts:220-240 | a receipt is returned iff the last call's wait brings status 1 in time; "No receipt" iff it brings nothing in time; another status fails the assertion |
| `Submission.SendGoesOnExactly` | src/utils/common.ts:69-77 | for every call it makes, `sendTx` makes another iff it was not the fifth and threw a nonce or transient error |
| `RetriedErrors.SendCallsExactly` | src/utils/common.ts:69-77 | the same told from what the node does: the call threw, or its wait rejected within 15 s with, an error of those texts, codes or classes |
| `RetriedErrors.SendEndsExactly` | src/utils/common.ts:47-83 | `sendTx` ends as its last call ends: its error, its receipt, or the timeout error naming its hash |
| `RetriedErrors.RoundCallsExactly` | src/utils/common.ts:206-219 | within a round `submitTx` calls again iff the call was not the fifth and threw such an error; rounds follow on from each other |
| `RetriedErrors.RoundsExactly` | src/utils/common.ts:219-233 | another round iff this was not the fifth and its response was late, silent, or rejected as replaced |
| `RetriedErrors.SubmitEndsExactly` | src/utils/common.ts:219-241 | `submitTx` ends as the last call of its last round ends; a receipt is good only with status 1 |
| `Submission.SubmitGoesOnExactly` | src/utils/common.ts:219-233 | for every round, `submitTx` makes another iff it was not the fifth and its response timed out or was replaced |
| `Submission.SameFirstCall` | src/utils/common.ts:65-83 | up to the first response the two make the same calls; without one they fail alike |
| `Submission.TheyPartExactly` | src/utils/common.ts:65-83 | what each does with the first response for every node: one gives up where the other goes on iff the timer fires, or the wait rejects with an error only one of them retries |
| `Submission.ReplacedTransaction` | src/utils/common.ts:228-231 | a replaced first transaction is sent again by `submitTx`, and by `sendTx` unless it took all its calls to get there |
| `Submission.DisplacedTransaction` | src/utils/common.ts:222-227 | a first transaction whose receipt does not come in time is made good by the next in `submitTx`, and ends `sendTx` with that timeout |
| `Submission.NonceErrorWhileWaiting` | src/utils/common.ts:69-77 | a nonce error raised by the first wait, after any delay, makes `sendTx` send again if it may, and `submitTx` fail |
| `Polling.Poll` | src/utils/common.ts:110-124 | how it ends, checks made, and one sleep fewer than checks |
| `Polling.PollCharacterised` | src/utils/common.ts:110-124 | polling stops at the first attempt that matches or throws untolerated, and is exhausted iff there is none |
| `Polling.Eventually` | src/utils/common.ts:134-164 | value, untolerated error or exhaustion with its diagnosis; the checks made are those up to its end, with one sleep fewer |
| `Polling.Never` | src/utils/common.ts:174-192 | holds, or reports the attempt and value that matched, or the untolerated error; it makes `attempts` checks or those up to that attempt, with one sleep fewer |
| `Polling.Duality` | src/utils/common.ts:126-192 | one returns v at attempt k iff the other reports v at k; one gives up iff the other holds; untolerated errors surface at the same attempt |
| `Polling.ValueShownExactly` | src/utils/common.ts:129-160 | the exhaustion message shows the last observed value iff no check threw |
| `Polling.ShownExactly` | src/utils/common.ts:134-160 | on exhaustion the last error thrown is shown, whatever came after it; else the value of the last check; nothing after no check |
| `HolderScan.FindHolder` | src/entities/tokens/ERC1155Wrapper.ts:121-142 | the descending scan with its seen set and the balance loop compute the first funded candidate |
| `HolderScan.CandidateMembers` | src/entities/tokens/ERC1155Wrapper.ts:121-133 | candidates are exactly the receivers of the id other than zero and the vault |
| `HolderScan.CandidateOrder` | src/entities/tokens/ERC1155Wrapper.ts:112-133 | candidates stand in order of latest receipt, each once |
| `HolderScan.ScanExact` | src/entities/tokens/ERC1155Wrapper.ts:106-146 | against a replayed ledger the scan succeeds iff some address qualifies, and returns the qualifying address with the most recent receipt |
| `HolderScan.HolderExactly` | src/entities/tokens/ERC1155Wrapper.ts:112-146 | for any log and balances: the address returned is written as in the log, belongs to the last entry of its owner, in any case of letters neither zero nor vault, has enough, and every such later entry has less; none iff all have less |
| `HolderScan.ScanCompleteForHolders` | src/entities/tokens/ERC1155Wrapper.ts:107-116 | with all history in the window and a positive amount it succeeds iff someone other than zero and the vault holds enough |
| `HolderScan.OldReceiptMissed` | src/entities/tokens/ERC1155Wrapper.ts:99-102 | a holder whose receipt lies before the window is not found |
| `BatchCombine.CombineBatchTxWithSameDest` | test/performance/AtomicMesh.ts:116-126 | the mutating reduction computes the combination into new objects and leaves its input objects unchanged |
| `BatchCombine.Absorb` | test/performance/AtomicMesh.ts:118-124 | one turn adds to the entry with the key or pushes a copy |
| `BatchCombine.CombineIsGrouped` | test/performance/AtomicMesh.ts:116-126 | one entry per source, destination and recipient, in order of first occurrence, with the first transfer's fields and the key's total |
| `BatchCombine.GroupedKeys` | test/performance/AtomicMesh.ts:118 | the entries' keys are the batch's keys in first-occurrence order, all distinct |
| `BatchCombine.ValueConserved` | test/performance/AtomicMesh.ts:116-126 | for every key the combined values add up to the raw values |
| `BatchCombine.CombineIdempotent` | test/performance/AtomicMesh.ts:116-126 | combining twice is combining once |
| `BatchCombine.TotalPermutes` | test/performance/AtomicMesh.ts:547-583 | what an account is credited does not depend on the order of delivery |
| `BatchCombine.WaitedBalancesReached` | test/performance/AtomicMesh.ts:547-583 | crediting the raw batch in any order brings every combined entry exactly the balance it waits for, if each source sends its own token |
| `BatchCombine.WaitsMetExactly` | test/performance/AtomicMesh.ts:137-146 | for all values of a batch every wait can be met, iff among transfers to one recipient source and token determine each other |
| `BatchCombine.MixedTokensFail` | test/performance/AtomicMesh.ts:547-583 | otherwise there are values for which an entry waits for a balance that never comes |
| `NonceLanes.SignBatch` | test/test-utils/transaction-builder.ts:47-62 | transactions with consecutive nonces from the start nonce |
| `NonceLanes.SendAttempt` | test/test-utils/batch-transactions-helpers.ts:59-64 | the chunk loop stops at the first reply that raises |
| `NonceLanes.SendBatchTransactions` | test/test-utils/batch-transactions-helpers.ts:34-74 | the retry fetches the nonce, signs afresh and sends, up to 5 times, on a nonce conflict only |
| `NonceLanes.SendChunksExact` | test/test-utils/batch-transactions-helpers.ts:59-64 | an attempt sent whole leading chunks; a clean one sent everything with no error reply; a failed one stopped at the first |
| `NonceLanes.LeadingIsPrefix` | test/test-utils/batch-transactions-helpers.ts:59-61 | chunks have 1 to size members and concatenate to a prefix of the signed list |
| `NonceLanes.AttemptsExact` | test/test-utils/batch-transactions-helpers.ts:50-73 | each attempt signs from its own pending nonce, sends whole leading chunks and stops at the first reply that raises; all but the last ended in a nonce conflict, and a conflict is final only when attempts are used up |
| `NonceLanes.LogBounds` | test/test-utils/batch-transactions-helpers.ts:43-73 | any such log has at most the attempts left, sends at most count transactions an attempt, and a clean last attempt sent the complete run |
| `NonceLanes.SendExact` | test/test-utils/batch-transactions-helpers.ts:34-74 | success means one complete run n..n+count-1 went out in order in the last attempt with no nonce error in its replies; at most 5*count transactions are sent in all |
| `NonceLanes.SendLogExactly` | test/test-utils/batch-transactions-helpers.ts:43-73 | for every attempt: its chunk j holds transactions 100j up to 100 of the run from its pending nonce, its replies end it as above, and another follows iff it was not the fifth and ended in a nonce conflict |
| `NonceLanes.ExactlyOnceExactly` | test/test-utils/batch-transactions-helpers.ts:50-73 | whatever the node says: a send that returns, with an entry per transaction in the last attempt's replies, had exactly count transactions accepted in all iff as many were accepted in its aborted attempts as were refused in the last |
| `NonceLanes.AllRefused` | test/test-utils/transaction-sender.ts:47-52 | the input that has too few: one transaction refused for lack of funds, and the send returns after one attempt with nothing accepted |
| `NonceLanes.AcceptedTwice` | test/test-utils/batch-transactions-helpers.ts:50-73 | the input that has too many: one of two accepted beside a nonce conflict, then a clean attempt, three accepted for a count of two |
| `NonceLanes.NoErrorMeansClean` | test/test-utils/transaction-sender.ts:47-52 | a chunk raises nothing iff the reply arrived and no message mentions a nonce or a replacement |
| `NonceLanes.ReplyErrorExactly` | test/test-utils/transaction-sender.ts:47-52 | a chunk raises the transport error, or the nonce conflict iff the text `nonce` or `replacement transaction` occurs in some lower-case message |
| `NonceLanes.SplitBatches` | test/performance/PrivacyNodePrivateToPublicPerformance.ts:121-152 | the loop with its running nonce produces batch b with its size and first nonce |
| `NonceLanes.BatchCovers` | test/performance/PrivacyNodePrivateToPublicPerformance.ts:35 | batch number b exists iff b*size < total |
| `NonceLanes.BatchesCoverRun` | test/performance/PrivacyNodePrivateToPublicPerformance.ts:121-152 | batches have 1 to size members and together are the run of `total` contiguous nonces, in order |
| `CrashObserver.ConfirmedDown` | test/test-utils/resilience-helpers.ts:61-67 | down iff every confirmation probe fails |
| `CrashObserver.ObserveRelayerCrashLoop` | test/test-utils/resilience-helpers.ts:36-104 | the loop computes the observation |
| `CrashObserver.ObservationExact` | test/test-utils/resilience-helpers.ts:69-103 | counters are the confirmed crashes and issued restarts of the iterations made, time stamps are null iff counter or flag is unset, and the exit was healthy, proven or out of time, for that reason |
| `CrashObserver.RunStops` | test/test-utils/resilience-helpers.ts:97-98 | why it stopped, and that it could not have stopped earlier in its last iteration |
| `CrashObserver.CrashCountCapped` | test/test-utils/resilience-helpers.ts:98 | with a threshold of at least 1 the crash count never exceeds it |
| `CrashObserver.CrashesConfirmedAndSeparated` | test/test-utils/resilience-helpers.ts:57-88 | each counted crash rests on confirmProbes failed probes, and between two the service was seen alive |
| `CrashObserver.CrashesMembers` | test/test-utils/resilience-helpers.ts:57-73 | told from probes: an iteration counts a crash iff all confirmProbes failed, and the one before had a probe answered or a restart that came up |
| `CrashObserver.RestartsMembers` | test/test-utils/resilience-helpers.ts:75-84 | an iteration counts a restart iff all its probes failed and the restart command succeeded |
| `CrashObserver.StampsExactly` | test/test-utils/resilience-helpers.ts:69-103 | the counts are those iterations, and the two times are those of the first crash counted and the first delivery seen |
| `CrashObserver.StopsAtFirst` | test/test-utils/resilience-helpers.ts:56-101 | it ends at the first moment that is past the deadline, has a delivery and no crash, or enough crashes |
| `ContractCache.ContractStore.Connect` | src/entities/ContractStore.ts:11-26 | returns a contract bound to the signer, files it, and touches no other entry |
| `ContractCache.ContractStore.Set` | src/entities/ContractStore.ts:54-66 | stores under the key as given |
| `ContractCache.ContractStore.Get` | src/entities/ContractStore.ts:58-62 | the entry, or an error for a missing key |
| `ContractCache.NodeGetContractAt` | src/entities/PrivacyNode.ts:358-375 | the key is scoped to an explicit signer's address; otherwise plain, with the user's wallet |
| `ContractCache.BoundToRequestedSigner` | src/entities/ContractStore.ts:17-25 | every request returns, and leaves cached, a contract bound to the signer asked for |
| `ContractCache.FormatExactly` | src/entities/ContractStore.ts:17 | a name loses one suffix `__factory`, and stays as it is without one |
| `ContractCache.RequestExactly` | src/entities/PrivacyNode.ts:358-375 | for any cache: a request for `base__factory` under `key__factory` finds or makes a contract named `base`, under `key_address` for an explicit signer and under `key` with the wallet for none; one of another signer is replaced |
| `ContractCache.AnsweredExactly` | src/entities/ContractStore.ts:11-26 | every run drawn from a set of operations answers each request at its address iff requests agree in address with all operations of their key and signer |
| `ContractCache.HitIgnoresAddress` | src/entities/ContractStore.ts:18-20 | a second request under the same key and signer gets the first address |
| `ContractCache.ScopedKeyInjective` | src/entities/PrivacyNode.ts:370-372 | a scoped key determines base key and signer address |
| `ContractCache.CollisionExactly` | src/entities/PrivacyNode.ts:370-372 | a default key collides with some scoped key iff it ends in an underscore and an address |
| `ContractCache.CoexistExactly` | src/entities/ContractStore.ts:11-66 | in every run drawn from a set of operations a repeated request gets the contract it got before and changes nothing, iff operations under a request's key have its signer object and store there only what it would file |
| `ContractCache.BindingsCoexist` | src/entities/PrivacyNode.ts:365-374 | scoping does that for any base keys: with one object per signer address, no default key ending in an underscore and an address, and nothing stored under a request's key, no binding is ever evicted |
| `Backends.LoadExact` | src/config/env-config.ts:125-130 | of B distinct backends, number b serves floor(W/B) workers, one more iff b < W mod B |
| `Backends.WarningIsTight` | src/config/env-config.ts:139-146 | no backend serves fewer than floor(W/B) or more than the warned ceil(W/B), and the first serves that many |
| `Backends.DefaultBackend` | src/config/env-config.ts:125-130 | without a worker id the first backend, as worker 0; with none configured node A |
| `Bridge.TokenBridge.constructor` | test/e2e/public-chain/ERC20_Public_Chain.ts:483-485 | a bridge starts empty on both sides, and conserving |
| `Bridge.TokenBridge.Drive` | test/e2e/public-chain/ERC20_Public_Chain.ts:483-494 | over any sequence of operations the object goes where the step system goes, stays conserving after each, and ends with every pending unlock covered |
| `Bridge.TokenBridge.MintTo` | test/e2e/public-chain/ERC20_Public_Chain.ts:125-128 | a mint adds to balance and minted amount only |
| `Bridge.TokenBridge.TeleportToPublicChain` | test/e2e/public-chain/ERC20_Public_Chain.ts:131-143 | a send locks the amount and queues a message, or reverts when frozen or over balance |
| `Bridge.TokenBridge.RelayMint` | test/e2e/public-chain/ERC20_Public_Chain.ts:144-153 | delivery mints on the public side, or gives the amount back when sent to the zero address |
| `Bridge.TokenBridge.TeleportToPrivacyNode` | test/e2e/public-chain/ERC20_Public_Chain.ts:642-670 | a burn reduces the public supply and queues a message, or reverts over balance or when refused |
| `Bridge.TokenBridge.RelayUnlock` | test/e2e/public-chain/ERC20_Public_Chain.ts:181-196 | delivery unlocks for an approved address, refunds a burn to zero, and refunds nothing to an unapproved one |
| `Bridge.TokenBridge.FreezeOnPublicChain` | test/test-utils/freeze-helpers.ts:177-205 | freezes a deployed token once, remembering its status |
| `Bridge.TokenBridge.UnfreezeOnPublicChain` | test/test-utils/freeze-helpers.ts:207-218 | restores the status, and reverts when not frozen |
| `Bridge.StepConserves` | test/e2e/public-chain/ERC20_Public_Chain.ts:178-192 | each step keeps locked = supply + in flight + stranded and balance + locked = minted |
| `BridgeLedger.AnswersExactly` | test/e2e/public-chain/ERC20_Public_Chain.ts:309-327 | when each request is accepted, and that one refused leaves the bridge as it was: a send is accepted iff the token is deployed and the amount is there |
| `BridgeLedger.MessagesExact` | test/e2e/public-chain/ERC20_Public_Chain.ts:131-153 | on every run, messages in flight and taken by the relayer are together those of the accepted requests, recipient and amount as requested |
| `BridgeLedger.LedgerExact` | test/e2e/public-chain/ERC20_Public_Chain.ts:158-196 | on every run: locked = amounts asked in accepted sends less bounces and unlocks; supply = landed and refunded less amounts asked in accepted burns; the rest is stranded |
| `BridgeLedger.SendAcceptedExactly` | test/e2e/public-chain/ERC20_Public_Chain.ts:309-327 | after every run: a send is accepted iff no freeze is in force and it and the accepted sends fit in what was minted and given back |
| `Bridge.BridgeConservation` | test/e2e/public-chain/ERC20_Public_Chain.ts:483-494 | in every reachable state conservation holds, nothing is negative, and no unlock or refund still to come can underflow |
| `Bridge.QuietBridge` | test/e2e/public-chain/ERC20_Public_Chain.ts:483-494 | with nothing in flight locked = supply + stranded, and locked is 0 iff both are |
| `Bridge.DeliveryOrderIrrelevant` | test/e2e/public-chain/ERC20_Public_Chain.ts:550-569 | every order of deliveries that empties both directions ends in one state, determined by what was in flight |
| `Bridge.SendAndReturn` | test/e2e/public-chain/ERC20_Public_Chain.ts:158-196 | sending a and burning back b nets to a - b on both chains whatever else is in flight; with b = a the bridge is as before |
| `Bridge.SendToZeroReverts` | test/e2e/public-chain/ERC20_Public_Chain.ts:201-230 | a send to the zero address, once relayed, leaves both chains as they were |
| `Bridge.BurnToZeroPreserves` | test/e2e/public-chain/ERC20_Public_Chain.ts:235-306 | a burn for the zero address leaves both chains as they were, whether chain or relayer refuses it |
| `Bridge.BurnToUnapprovedStrands` | test/e2e/public-chain/ERC20_Public_Chain.ts:672-721 | a burn for an unapproved address is refused on chain, or the tokens leave the public side, unlock nothing and stay locked |
| `Bridge.NoDoubleSpend` | test/e2e/public-chain/ERC20_Public_Chain.ts:499-578 | on every run accepted burns add up to at most what landed on the public chain, and once they reach it every further burn reverts |
| `Bridge.FreezeErasesSends` | test/e2e/public-chain/ERC20_Public_Chain.ts:776-819 | a freeze, any run and an unfreeze end where that run without its sends ends: sends in between fail for good, everything else goes on |
| `BridgeLedger.StatusExact` | test/test-utils/freeze-helpers.ts:177-218 | after every run a token created deployed is frozen iff the last freeze or unfreeze asked for was a freeze, and any other status never changes |
| `Bridge.FrozenStays` | test/e2e/public-chain/ERC20_Public_Chain.ts:788-802 | until an unfreeze, no run locks anything or adds an outbound message |
| `Bridge.AvailableExactly` | test/e2e/public-chain/ERC20_Public_Chain.ts:340-347 | on conserving states the suite's `available` is positive iff minted > 2*locked, and denies a send that would succeed iff 0 < balance <= locked |
| `Bridge.AvailableTooStrict` | test/e2e/public-chain/ERC20_Public_Chain.ts:340-347 | after minting 3 and sending 2 it is -1, and one more can be sent |
| `Bridge.Registry.CleanupPublicFrozenTokens` | test/test-utils/freeze-helpers.ts:220-233 | exactly the listed frozen tokens are unfrozen; an error on one leaves the others unaffected |
| `Bridge.Registry.FreezeToken` | test/test-utils/freeze-helpers.ts:195-205 | only a deployed token can be frozen |
| `Bridge.Registry.UnfreezeToken` | test/test-utils/freeze-helpers.ts:208-218 | only a frozen token can be unfrozen, and it becomes deployed again |
| `Replica.Registry.Submit` | test/e2e/TemplateRegistryBroadcast.ts:53-70 | a proposal changes nothing visible; approval, seed and revocation stamp the key with their block and broadcast it |
| `Replica.Registry.SubmitRun` | test/e2e/TemplateRegistryBroadcast.ts:53-86 | a whole run of changes leaves each key as its last change that is no proposal made it |
| `Replica.RegistryExactly` | test/e2e/TemplateRegistryBroadcast.ts:68-70 | told from the changes alone: a key is held iff some change of it was no proposal, and is then approved iff the last of these approved or seeded it, in the block of that change |
| `Replica.BroadcastExact` | test/e2e/TemplateRegistryBroadcast.ts:53-86 | what is broadcast for a key is what its changes made of it, each with its own block |
| `Replica.TemplateReplica.OnMessage` | test/e2e/TemplateRegistryBroadcast.ts:172-176 | the staleness guard, for one key; other keys are untouched |
| `Replica.TemplateReplica.Deliver` | test/e2e/TemplateRegistryBroadcast.ts:72-86 | a stream of messages for mixed keys acts on each key as its own messages in order |
| `Replica.StampNeverDecreases` | test/e2e/TemplateRegistryBroadcast.ts:172-176 | whatever arrives, the last-update stamp never goes back |
| `Replica.ShowsNewest` | test/e2e/TemplateRegistryBroadcast.ts:172-176 | whatever stream it hears, a replica shows the message of the highest block, the first of several |
| `Replica.ConvergesExactly` | test/e2e/TemplateRegistryBroadcast.ts:152-169 | every complete delivery in any order with any duplication mirrors the registry iff the last change's stamp beats that of every different change |
| `Replica.SameBlockDiverges` | test/e2e/TemplateRegistryBroadcast.ts:152-153 | a seed and a revocation in one block can leave a replica approving |
| `Replica.RegistryHoldsLast` | test/e2e/TemplateRegistryBroadcast.ts:68-70 | the registry holds, for each key, the last change it broadcast |
| `Replica.ReplicasConverge` | test/e2e/TemplateRegistryBroadcast.ts:72-86 | after any run of changes with increasing blocks per key and any delivery that brings every message, a replica and the registry both show approved iff the last change approved or seeded the key, with its block as stamp |
| `Replica.ProposalsSettleNothing` | test/e2e/TemplateRegistryBroadcast.ts:53-56 | a key only ever proposed is not in the registry and unknown to every replica |

## Left out

- RPC, HTTP, Docker, Postgres and file access, logging, report merging and the child process itself: replaced by arbitrary outcomes.
- Solidity contracts, relayer and proofs services: only the effects the suite asserts are modelled, and no contract state is invented.
- The fault-injection server, `awaitRelayerRecovery` and the reading of `docker ps`: their behaviour is fixed by text outside the repository.
- Access-control suites and wallet cryptography: opaque here.
- Utilisation percentages of the runner's summary: elapsed time is rounded first, so "at most 100%" does not hold.
- The bootstrap and serial phases of the runner beyond their command line.
- `Scheduler`: slots may be resumed in any order, which includes the start without a timer of slot 0 and of all slots when the stagger is 0.
- `QueueSort`: hints are natural numbers; a file without one is a top element and the sort is stable, which is what a NaN comparison result of 0 comes to.
- `QueueSort.Basename` handles forward slashes only.
- `Shell`: expansions (`$`, backquotes, globs, braces, a leading `~`), backslashes and comments are not modelled, and statements about the child are for words without them; a line with an unquoted operator or line end is not followed further.
- `ScriptCommand.ChildReads`: the child's own argument parser is not part of the repository; its words are read the way the runner reads a script.
- `Text.Lower` lowers ASCII letters only.
- `Submission`: a receipt due at the same instant as the timer counts as late; an abandoned transaction that is mined later is not followed.
- `Polling`: `attempts` is a natural number, while `DEFAULT_TIMEOUT / SECOND` may be fractional; a check that throws `undefined` is not distinguished from one that throws nothing in the exhaustion message.
- `CrashObserver`: time passes between iterations (`pollMs` is at least 1), and a probe, restart or delivery check takes whatever time the clock says.
- `NonceLanes.SplitBatches`: the batch size is at least 1; the code would not end with 0.
- `ContractCache`: the retry inside `deploy` is the loop of `Submission`; its result is a stored contract.
- `HolderScan`: TransferBatch events and block pagination; the window is the last part of the ledger, whatever its length.
- `Bridge`: a token that starts out frozen, which user a lock belongs to, loss of messages, and any effect of a freeze on burns and deliveries in flight: the suite does not decide them, and the model leaves burns and deliveries unaffected.
- `depositNftToDvp` balance deltas, the freeze on the node and hub layers and the participant synchronisation: straight-line code over the same effects.
- Scenario tables, enums, type files and colours.
