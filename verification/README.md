# Verified models of the bot's stateful core

A Dafny project that models the parts of the Discord economy bot whose correctness is not
visible from one function body, and proves what the code promises about them.
`dafny verify dfyconfig.toml` checks the whole project.

| module | models | main results |
|---|---|---|
| `PoolProtocol` | the asyncpg pool per event loop: any number of `init_pool` and `close_pool` tasks on any number of loops, interleaved at their awaits | mutual exclusion, no pool lost or taken twice, what `get_pool` may hand out, no deadlock, bounded runs |
| `StatementSplit` | the patched `execute` that splits multi-statement queries | exactly when joined statements reach the driver as written |
| `IncrementalBuild` | the hash-keyed incremental Cython builder over any history of edits, failed builds and partial selections | exactly when an incremental run equals a full rebuild |
| `SyntaxAnalysis` | the breadth-first and the recursive analysis of one syntax tree, and the priority score | the two agree; where they differ, exactly when |
| `HelpRegistry` | JSON help entries: validation, tree building, path lookup | lookups see exactly the hereditarily valid part of the file |
| `HelpSearch` | collecting a command tree and the recursive, several-rule search | the shape is kept; the search is one flat scan; exactly when a full name finds its entry |
| `HelpFormat` | text and field truncation under Discord's limits | the exact conditions under which limits hold |
| `HistoryPaging` | cursor paging over the SQL history functions | exactly when following cursors lists the whole history |
| `TransferChecks` | the mutable transfer check tracker | the store equals the latest results of its trace |
| `ErrorContext` | redaction of error contexts | what is kept, what is hidden, idempotence |
| `ResultLayer` | decorators, error counters, unwrapping, `collect` | a stack behaves as its innermost decorator; what counters tell; when unwrapping is right |
| `Scheduler` | the two broadcast schedulers, stepping between their awaits among votes, cancellations and other actors | each result is broadcast at most once, and exactly which are missed |
| `SuspectsPanel` | paging and selection state of the suspects panel, its handlers cut at their awaits | the page is always in range; what is selected in any interleaving; pages tile the list |
| `CsvExport` | collecting and grouping export records | grouping is a stable permutation; exactly when order survives |
| `Allowlist` | the guild allowlist parser | printed lists are read back, however padded |

`Wrappers`, `Sums`, `Selections` and `Text` hold what several modules share: optional and failing
results, sums over maps, choosing from lists in order, and Python's string methods on ASCII text. `Text` states the laws of `strip`,
`split` and `join` that the parsers rely on.

How the source is rendered. Code that updates state is a class or a method with a loop, tied by
its `ensures` to a function on values; the theorems are about those functions. A coroutine is
cut at its awaits: each stretch between two awaits is one atomic method of `PoolModule`, which
is how asyncio runs it. Python exceptions are values. A dict whose order matters is a sequence
of items. What the database, the compiler, Discord or the clock answers is a parameter, so the
theorems hold for every answer.

Where a plausible claim is false of the code, the code is modelled as it is, a lemma gives a
concrete input, and the exact condition is proved:

| claim | fails at | holds exactly under |
|---|---|---|
| `get_pool` never hands out a pool whose `close_pool` has ended | `RaisingCloseLeavesThePoolInUse` | `ClosedPoolIsHandedOutExactly` |
| split statements reach the driver as written | `LiteralIsCut` | `JoinedStatementsRunInOrder` |
| an incremental build equals a rebuild | `ChangedFlagsAreSkipped`, `FailedCopyLosesTheArtifact`, `RaisingRunLeavesStaleArtifact` | `UnforcedEqualsForced` on any disk, `IncrementalEqualsRebuild` over histories |
| a command's full name finds its help | `TwoLevelsShadow`, `ThreeLevelsShadow` | `OwnNameFindsTheEntry` |
| the help a command's module returns is shown for it | `TransferHelpIsIgnored`, `SingleHelpIsIgnored` | `ModuleHelpIsShownExactly` |
| following cursors lists the whole history, the query ordering ties | `TieIsDropped` | `WalkIsCompleteExactly` |
| the list field keeps its limit | `LongNameOverflows` | `ListFieldFitsExactly`; names within Discord's limits never reach the failure (`ShortFirstNameFits`) |
| every ended proposal listed as due has its result broadcast | `FailedRemindersLoseAResult`, for good by `MissedStaysMissed` | `BroadcastInItsTickExactly` |
| a release takes from the selection only what it released | `LateChoiceIsDropped` | `SelectedExactly` |

`_truncate_text` is only ever called with 1024 and 4096 (`src/bot/commands/help_formatter.py:96-150`);
`TruncationFitsExactly` holds at every limit and says in passing that the limit matters below three only.
Both calling modes of `get_history` share one definition of a page, so that they agree
(`ModesAgree`) is true by construction.

The comment at `src/bot/commands/council.py:62-64` promises unwrapping for the listed nestings
only, and `UnwrapIsRightExactly` shows that these are all for which it is right.

## Model

The main results come first, then the rest by module.

| member | source | states |
|---|---|---|
| PoolProtocol.RunKeepsInv | src/db/pool.py:69-166 | every run of any events keeps seven invariants together: one holder per held lock, queues of exactly the waiting tasks, no second pool beside a running creation, pools registered for their own loop, no taken pool registered or taken twice, no created pool lost, and no fallback that a returned close took |
| PoolProtocol.MutualExclusion | src/db/pool.py:80-138 | in every reachable state two tasks of one loop are never both in the locked region |
| PoolProtocol.PoolsAreConserved | src/db/pool.py:93-166 | in every reachable state a created pool is registered if and only if no close took it, and at most one did |
| PoolProtocol.OnePoolPerLoop | src/db/pool.py:73-101 | in every reachable state a loop has at most one created pool that no close has taken |
| PoolProtocol.InitReturnsTheRegisteredPool | src/db/pool.py:73-147 | whichever way `init_pool` returns, it returns the pool registered for its loop at that moment, which no close has taken and which `get_pool` on that loop then hands out |
| PoolProtocol.InitRaisesExactly | src/db/pool.py:69-101 | over every run an `init_pool` has raised if and only if it got the lock with no pool for its loop and a bad configuration, or its `create_pool` raised |
| PoolProtocol.GetPoolIsNeverClosed | src/db/pool.py:141-166 | in every reachable state `get_pool` yields a registered pool, one still closing, or one whose close raised; never one whose close returned. When the third happens is the next row |
| PoolProtocol.ClosedPoolIsHandedOutExactly | src/db/pool.py:93-166 | after a close has ended and any further events, `get_pool` yields its pool if and only if the close raised while the pool was the fallback, no later event created a pool or found one registered on entering `init_pool`, and the caller's loop has none |
| PoolProtocol.EveryTaskCanFinish | src/db/pool.py:69-166 | from every state that keeps the invariants, hence every reachable one, all started tasks can finish without another being started |
| PoolProtocol.RunsAreShort | src/db/pool.py:69-166 | a run has at most five events per task it starts plus what the tasks already there have left |
| IncrementalBuild.IncrementalEqualsRebuild | scripts/compile_modules.py:175-330 | after any orderly history an unforced run equals a forced rebuild if and only if the compile flags are the history's or nothing is skipped |
| IncrementalBuild.UnforcedEqualsForced | scripts/compile_modules.py:188-196 | on any disk, an unforced and a forced run leave the same disk if and only if every skipped target's artifact is what a build would produce |
| IncrementalBuild.EachTargetIsTreated | scripts/compile_modules.py:188-321 | in any run each target is left alone unless the selection is empty or names it or its module; it is cached exactly if unforced with an entry of the same text, language level, annotate, profile and module; otherwise its entry and artifact hold exactly these and the flags if the build succeeds, and stay, or lose the artifact to a failing copy, if it does not |
| IncrementalBuild.CachedExactly | scripts/compile_modules.py:175-196 | after a target was built, a later unforced run reports a target of that name as cached if and only if source text, language level, annotate, profile and module are all the same |
| SyntaxAnalysis.CountsAgree | scripts/migrate_to_result.py:103-108 | for every tree both analyses count the same try and raise statements and name the same raised classes |
| SyntaxAnalysis.FunctionsAgreeExactly | src/infra/migration_tools.py:225-237 | the walk's functions are among the visitor's, and are all of them if and only if every coroutine with a try shares its name with a plain function with one |
| HelpRegistry.LookUpFindsTheValidPart | src/bot/commands/help_collector.py:234-374 | looking up a space-joined path succeeds if and only if every raw entry on it is an object whose fields are of the required shapes, and the node says, field by field, what the last raw entry says |
| HelpRegistry.ValidateExactly | src/bot/commands/help_collector.py:285-374 | which raw entries are valid; of a valid one description and category are the stripped strings under those keys, the name its own or the path, the lists its non-blank strings in order, and the parameters carry each element's fields |
| HelpSearch.EntryComesFromTheFile | src/bot/commands/help_collector.py:22-108 | at every path of every command tree that is collected at all, the entry shows the file's validated fields if every raw entry on that path is valid, and otherwise what its module gives for it or, if that is nothing, its metadata, under its full name |
| HelpSearch.FileFieldsAreShown | src/bot/commands/help_collector.py:63-108 | at every path of valid raw entries the collected entry shows each raw field, stripped, under its own name |
| HelpSearch.ModuleHelpIsShownExactly | src/bot/commands/help_collector.py:70-100 | where the file has no valid entry, a dictionary returned by the module is shown if and only if it holds something true under the command's own name or anything at all under its full name; otherwise the metadata is |
| HelpSearch.FindIsScan | src/bot/commands/help.py:51-77 | the nested two-pass recursion returns the first hit of one flat list of tests |
| HelpSearch.FindFailsExactlyWithoutMatch | src/bot/commands/help.py:51-77 | without blank keys a search fails if and only if no entry at any depth matches by one of the rules, and otherwise returns a matching one |
| HelpSearch.OwnNameFindsTheEntry | src/bot/commands/help.py:51-79 | in the collected help of any tree of slash commands, of any depth, a full name always finds something; it finds its own entry if and only if, for two or more words, no group with commands precedes the way down on a level below the top, and for one word, no earlier top-level group has a command of that name below it |
| HistoryPaging.WalkIsCompleteExactly | src/bot/services/balance_service.py:119-239 | the walk lists the whole history in order if and only if no group of equal timestamps straddles a page end |
| HistoryPaging.WalkListsInOrder | src/bot/services/balance_service.py:119-239 | a walk never lists a record twice, out of order, or one that is not the member's |
| HistoryPaging.PageIsGivenExactly | src/bot/services/balance_service.py:136-239 | in either mode a page comes back if and only if the limit is 1 to 50, the requester asks about himself or may view others, and the gateway did not fail; which error comes back for every other request |
| HistoryPaging.PageIsOfTheMember | src/bot/services/balance_service.py:139-164 | every item of a page is a row of the guild before the cursor in which the member asked for took part, marked with that member |
| StatementSplit.JoinedStatementsRunInOrder | src/db/pool.py:33-57 | statements joined with semicolons and padded in any way, with a semicolon and a dollar sign among them so that they are split, reach the driver as they are if and only if none has a semicolon in it and none but the last raises, whatever the driver answers to each in its turn |
| TransferChecks.StoreHoldsTheLatest | src/cython_ext/transfer_pool_core.py:18-40 | after any trace a transfer's state is exactly the last result per check since its last removal, and no transfer is kept without one |
| ErrorContext.OutputHidesExactlySecrets | src/infra/result.py:58-87 | two contexts become equal if and only if they differ in nothing but values under sensitive keys |
| ErrorContext.SensitiveExactly | src/infra/result.py:44-53 | a key is redacted if and only if one of seven words stands in it in any case, the eighth of the list being one of them lengthened |
| ResultLayer.StackIsInnermost | src/infra/result.py:450-489 | any non-empty stack of decorators gives the result and the counts of the innermost alone |
| ResultLayer.CountersTellTheRun | src/infra/result.py:90-104 | after any calls through any stacks and any resets each counter is the number of calls that raised an Exception of its kind since the last reset, and the total the number of all |
| ResultLayer.UnwrapIsRightExactly | src/bot/commands/council.py:59-78 | it recovers what a result of any nesting stands for if and only if at most two layers surround a value and at most one an error |
| Scheduler.EachResultIsBroadcastOnce | src/bot/commands/council.py:745-830 | over any number of ticks nothing is broadcast twice, the set equals the completed broadcasts, and an id is in it if and only if some reached tick listed it due, read it as ended and could broadcast it |
| Scheduler.BroadcastInItsTickExactly | src/bot/commands/council.py:745-830 | with statuses, deadlines and other actors in the state: between ticks a result has been broadcast if and only if the proposal has ended and the very tick during which it ended had listed it due, reached its broadcasts, and read and sent it without a failure |
| Scheduler.MissedStaysMissed | src/bot/commands/council.py:752-827 | once a tick is over nothing that had ended by then is broadcast any more, whatever events follow |
| Scheduler.ExpiryEndsAllDue | src/bot/services/council_service.py:542-567 | an expiry that goes through has ended every proposal the tick had listed, whatever other actors did meanwhile |
| Scheduler.RunKeepsInv | src/db/functions/governance/fn_council.sql:281-285 | every run keeps: a proposal is listed due only up to the tick in which it ends and read as ended only in that tick, and the runner has broadcast exactly what its ticks amount to |
| CsvExport.GroupingIsStable | src/bot/commands/state_council.py:5541-5592 | one non-empty section per type present, holding exactly its records in their order; all rows together are a permutation of the records |
| CsvExport.OrderSurvivesExactly | src/bot/commands/state_council.py:5541-5592 | the rows keep the order of the records if and only if records of one type stand together |
| CsvExport.CollectedExactly | src/bot/commands/state_council.py:5358-5518 | the collected records are, type after type in a fixed order, the wanted ones in the date range, in fetched order |
| SuspectsPanel.PagesTileTheList | src/bot/commands/state_council.py:5806-5815 | the pages one after the other are the whole list, and none is empty when the list is not |
| SuspectsPanel.PageStaysInRange | src/bot/commands/state_council.py:5799-5810 | in every interleaving of the handlers' stretches the page is one of the pages |
| SuspectsPanel.SelectedExactly | src/bot/commands/state_council.py:6017-6194 | in every interleaving a member is selected if and only if the author's last choice named it and since then no release of the selection has returned and no listing lacked it |
| SuspectsPanel.EveryPageIsReached | src/bot/commands/state_council.py:6035-6051 | the author reaches every page with exactly as many turns as it is away, and nothing else changes |
| Allowlist.PrintedListIsReadBack | src/config/settings.py:26-39 | any list of integers printed with commas, with any padding and blank items, bracketed or not, is read back |
| PoolProtocol.PoolModule.EnterInit | src/db/pool.py:69-91 | from the call to the first await: the registered pool becomes the fallback and is returned, or the free lock is taken, or the task queues behind the others |
| PoolProtocol.PoolModule.WakeInit | src/db/pool.py:80-91 | the first waiter takes the released lock and checks the registry a second time |
| PoolProtocol.PoolModule.ResumeCreated | src/db/pool.py:93-101 | a created pool becomes the loop's registered pool and the fallback |
| PoolProtocol.PoolModule.EnterClose | src/db/pool.py:153-160 | from the call to the first await: takes the free lock and removes the loop's pool, or queues |
| PoolProtocol.PoolModule.WakeClose | src/db/pool.py:159-163 | the first waiter takes the released lock and removes the loop's pool |
| PoolProtocol.PoolModule.ResumeClosed | src/db/pool.py:162-166 | the fallback is cleared only if it is the closed pool |
| PoolProtocol.PoolModule.LookUpPool | src/db/pool.py:141-150 | the running loop's pool, else the fallback, else the error |
| PoolProtocol.CloseKeepsNewerPools | src/db/pool.py:162-165 | a close that returns changes the fallback if and only if that is its own pool, which is no fallback afterwards; a registered fallback survives |
| PoolProtocol.InitGoesOn | src/db/pool.py:71-93 | an init that enters or is woken hands out its loop's pool, or waits for the lock, or with the lock creates a pool exactly if its configuration is valid, holding the lock exactly then, whatever other loops and the fallback hold |
| PoolProtocol.CloseGoesOn | src/db/pool.py:156-163 | a close that enters or is woken waits for the lock, or takes its loop's pool out and releases the lock, or returns at once if there is none |
| PoolProtocol.AwaitsGoOn | src/db/pool.py:93-165 | what each end of `create_pool`, the schema check and `pool.close()` does to the task, the registry, the fallback and the lock |
| PoolProtocol.RaisingCloseLeavesThePoolInUse | src/db/pool.py:163-165 | a reachable state in which `get_pool` returns an unregistered pool whose close raised |
| PoolProtocol.NoDeadlock | src/db/pool.py:80-160 | while a task has not finished, some event of a started task can happen |
| StatementSplit.Execute | src/db/pool.py:41-61 | a query whose stripped text lacks a semicolon or a dollar sign is sent once, as it came, and its status returned; of any other the stripped non-blank parts are sent in order up to the first that raises |
| StatementSplit.ExecuteEach | src/db/pool.py:50-57 | sends the statements until one raises and returns the last status |
| StatementSplit.RunStopsAtFailure | src/db/pool.py:50-57 | what was sent is the statements up to and including the first that raises; if none does, the last one's status is returned |
| StatementSplit.LiteralIsCut | src/db/pool.py:48-50 | a query whose literal is sent in two halves |
| IncrementalBuild.CompileTargets | scripts/compile_modules.py:268-330 | the disk and the exit code after a run, raising runs included, over selection, skipping, building and failing |
| IncrementalBuild.SecondRunBuildsNothing | scripts/compile_modules.py:188-330 | after a run whose builds succeed, an unforced run of the same selection builds nothing and leaves the disk as it is |
| IncrementalBuild.RaisesExactly | scripts/compile_modules.py:188-194 | a run raises if and only if it is unforced and some selected target with an entry has lost its source |
| IncrementalBuild.SummaryIsReport | scripts/compile_modules.py:279-321 | a run reports each selected target in order, judged by what the state file and sources held before the run, and its two counters are those of the report |
| IncrementalBuild.ExitsCleanExactly | scripts/compile_modules.py:268-330 | a run that does not raise ends without failures if and only if each selected target is skipped or has a source that builds |
| IncrementalBuild.CleaningForgets | scripts/compile_modules.py:360-369 | after cleaning nothing is cached and no artifact of the extension package is left |
| IncrementalBuild.HistoryKeepsCoherent | scripts/compile_modules.py:155-369 | after every orderly history of runs, edits, cleanings and lost state files each entry of the state file describes the artifact of its target |
| IncrementalBuild.FailedCopyLosesTheArtifact | scripts/compile_modules.py:205-218 | a history with a copy that fails after the unlink, after which the target is skipped without an artifact |
| IncrementalBuild.ChangedFlagsAreSkipped | scripts/compile_modules.py:175-185 | a history after which changed flags do not rebuild and the two runs differ |
| IncrementalBuild.RaisingRunLeavesStaleArtifact | scripts/compile_modules.py:194-323 | a raising run after which a target is skipped with an artifact of other contents |
| SyntaxAnalysis.AstWalk | src/infra/migration_tools.py:219-219 | yields the breadth-first listing by a queue |
| SyntaxAnalysis.WalkIsPermutation | src/infra/migration_tools.py:219-226 | the breadth-first listing of any forest holds the nodes of the depth-first one, each as often |
| SyntaxAnalysis.AnalyzeExceptionUsage | src/infra/migration_tools.py:198-239 | the counts, functions and classes that the whole breadth-first pass amounts to |
| SyntaxAnalysis.ResultMigrationAnalyzer.Visit | scripts/migrate_to_result.py:30-94 | visiting a tree adds, in depth-first order, what every node of it contributes |
| SyntaxAnalysis.WalkFindsPlainFunctions | src/infra/migration_tools.py:223-229 | the functions the walk reports are exactly the plain functions that contain a try statement |
| SyntaxAnalysis.HandlersAreAllCounted | src/infra/migration_tools.py:219-222 | the handlers counted try by try are all handlers of the program |
| SyntaxAnalysis.BlockByHandlers | scripts/migrate_to_result.py:33-51 | a block is complex from its third handler on and names the types of all its handlers |
| SyntaxAnalysis.RaisedClassByShape | scripts/migrate_to_result.py:61-64 | a raised call of a plain name gives its class; a bare raise, a raised object and a call through an attribute give none |
| SyntaxAnalysis.ImportsByShape | scripts/migrate_to_result.py:83-94 | modules by their names, imported names behind their module's, nothing for a relative import without one |
| SyntaxAnalysis.CalculatePriority | scripts/migrate_to_result.py:127-149 | the score is two per block, three more for each complex one, two more for each with above two types, one per raise; the thresholds are 20 and 10 |
| SyntaxAnalysis.ScoreIsMonotone | scripts/migrate_to_result.py:127-142 | no part of a tree scores above the tree |
| HelpRegistry.EnsureStrList | src/bot/commands/help_collector.py:338-349 | absent reads as empty, other values than lists raise, and of a list the non-blank strings stay, stripped and in order |
| HelpRegistry.ValidateParameters | src/bot/commands/help_collector.py:352-374 | succeeds exactly when every element is an object with three non-blank strings, and keeps all of them in order |
| HelpRegistry.BuildRegistryNode | src/bot/commands/help_collector.py:285-321 | the node of a valid entry with the nodes of its valid subcommands, or none |
| HelpRegistry.BuildEntries | src/bot/commands/help_collector.py:271-319 | exactly the valid entries of an object get a node, in whatever order the keys come |
| HelpRegistry.HelpCollector.LoadRegistry | src/bot/commands/help_collector.py:247-282 | the first load decides: later calls return the cached registry whatever the file then holds |
| HelpRegistry.HelpCollector.GetRegistryNode | src/bot/commands/help_collector.py:234-244 | follows the words of the name through the subcommands; a name of white space only is an index error |
| HelpRegistry.BlankNames | src/bot/commands/help_collector.py:236-239 | an empty name finds nothing, one of white space only is an index error |
| HelpSearch.CollectCommandHelp | src/bot/commands/help_collector.py:55-108 | stores a command's entry under its full name with its collected subcommands, the sources of help tried in their order; raises exactly when some command of the tree has a blank name or help that is no dictionary |
| HelpSearch.CollectHelpData | src/bot/commands/help_collector.py:22-52 | collects the commands one after the other into one dictionary, or raises with the first that does |
| HelpSearch.CollectingKeepsTheShape | src/bot/commands/help_collector.py:55-108 | the collected tree has the command tree's shape and order; each entry is keyed and named by its full path and shows what the sources of help have for it, the registry first |
| HelpSearch.SingleHelpIsIgnored | src/bot/commands/help_collector.py:82-96 | a module that returns one help dictionary, as its annotation allows, is not heard unless the command is named like a field |
| HelpSearch.TransferHelpIsIgnored | src/bot/commands/transfer.py:39-75 | whatever single help dictionary its module returns, the transfer command without an entry in the file shows its metadata |
| HelpSearch.MetadataIsShown | src/bot/commands/help_collector.py:377-400 | without other help: the command's description or a stand-in, the general category, and empty lists |
| HelpSearch.SilentModules | src/bot/commands/help_collector.py:72-96 | a module without the function, one that raises and one that returns None leave the metadata |
| HelpSearch.UnreadableHelpRaises | src/bot/commands/help_collector.py:86-100 | any other value that is no dictionary ends the collection, but for an empty string or list |
| HelpSearch.SubcommandNameFindsItsEntry | src/bot/commands/help.py:51-79 | in a collected two-level tree the full name of a subcommand always finds exactly its entry |
| HelpSearch.BlankKeyFails | src/bot/commands/help.py:66-76 | a blank key makes a search of more words an index error |
| HelpSearch.ThreeLevelsShadow | src/bot/commands/help.py:59-76 | a collected three-level tree in which an exact name finds another, deeper entry |
| HelpSearch.TwoLevelsShadow | src/bot/commands/help.py:65-73 | a collected two-level tree in which the name of a command finds a subcommand ending in it |
| HelpFormat.TruncationFitsExactly | src/bot/commands/help_formatter.py:177-192 | the limit is kept if and only if nothing is cut or the limit is at least three |
| HelpFormat.TruncationBreaksLate | src/bot/commands/help_formatter.py:182-192 | a cut text ends at its last newline if more than four fifths of the limit remain, else at its last space under the same condition, else three below the limit |
| HelpFormat.ListFieldFitsExactly | src/bot/commands/help_formatter.py:66-74 | a field stays within 1024 characters if and only if nothing is cut or a newline stands strictly between positions 0 and 1021 |
| HelpFormat.CutFieldIsWholeLines | src/bot/commands/help_formatter.py:66-74 | a field cut at a newline is as many whole shown lines as leave room for the ellipsis, followed by it, descriptions with newlines included |
| HelpFormat.FieldWithoutCutPoint | src/bot/commands/help_formatter.py:67-74 | what fits is shown whole; what has no newline to cut at is cut at the limit |
| HelpFormat.LineNamesAndPreviews | src/bot/commands/help_formatter.py:60-64 | a line names the command and previews at most sixty characters of its description |
| HelpFormat.ShortFirstNameFits | src/bot/commands/help_formatter.py:57-74 | the list field keeps its limit whenever the first name has at most 951 characters, as every name Discord allows has |
| HelpFormat.LongNameOverflows | src/bot/commands/help_formatter.py:66-74 | a name of 1020 characters alone in its category gives a field of 1025 |
| HistoryPaging.PageFacts | src/bot/services/balance_service.py:164-182 | a page shows the next rows up to the limit, and has a cursor if and only if it is full and a strictly older row exists |
| HistoryPaging.CursorMovesOn | src/bot/services/balance_service.py:166-180 | following a cursor leaves exactly the rows older than it, strictly fewer than before, so the walk ends |
| HistoryPaging.DistinctTimesWalkEverything | src/bot/services/balance_service.py:119-239 | with distinct timestamps the walk from the start is the whole history for every limit |
| HistoryPaging.TieIsDropped | src/bot/services/balance_service.py:167-180 | a ledger of two rows of one moment of which pages of one row list only the first |
| TransferChecks.TransferCheckStateStore.RecordCheck | src/cython_ext/transfer_pool_core.py:18-21 | stores one result and tells whether all required checks are present |
| TransferChecks.TransferCheckStateStore.AllPassed | src/cython_ext/transfer_pool_core.py:26-30 | true exactly when every required check stands at 1 |
| TransferChecks.RecordCompletesExactly | src/cython_ext/transfer_pool_core.py:18-21 | after any trace `record` answers true if and only if each required check has a result since the last removal |
| TransferChecks.PassesExactly | src/cython_ext/transfer_pool_core.py:26-30 | after any trace `all_passed` holds if and only if the latest result of each required check is 1 |
| TransferChecks.RecordsCommuteExactly | src/cython_ext/transfer_pool_core.py:18-21 | two records commute if and only if they differ in transfer or check or carry the same result |
| ErrorContext.SanitizeValue | src/infra/result.py:68-78 | the loop builds the recursive redaction, in whatever order the keys come |
| ErrorContext.SanitizeContext | src/infra/result.py:58-87 | a context is sanitized like a nested dictionary, a missing one reads as empty |
| ErrorContext.CleanPathIsKept | src/infra/result.py:58-87 | a path of harmless keys leads where it led, to the sanitized value, and nowhere new |
| ErrorContext.SecretPathIsRedacted | src/infra/result.py:72-86 | at any depth the first sensitive key of a path holds the marker if it held anything, and nothing lies below it |
| ErrorContext.SanitizeIsIdempotent | src/infra/result.py:58-87 | sanitizing twice is sanitizing once |
| ResultLayer.ErrorMetrics.Wrapper | src/infra/result.py:467-485 | plain values are wrapped, results pass through, Exceptions become counted errors, and what is no Exception passes through uncounted |
| ResultLayer.ErrorMetrics.SelectErrorType | src/infra/result.py:379-389 | the type of the first entry the exception is an instance of, the default exactly if there is none |
| ResultLayer.UnwrapResult | src/bot/commands/council.py:59-78 | the loop takes off at most two layers |
| ResultLayer.TwoLayersComeOff | src/bot/commands/council.py:69-78 | whatever lies below two layers of Ok comes back; an error ends the unwrapping at either |
| ResultLayer.CallThenUnwrap | src/infra/result.py:464-485 | a decorated call returns unless something that is no Exception passes through; a plain value comes back in one Ok and a result as it is; it unwraps to what the function meant exactly under that nesting condition, and a raised Exception to its mapped error |
| ResultLayer.OnlyExceptionsAreCaught | src/infra/result.py:468-485 | what is raised becomes an error if and only if it is an Exception, and otherwise passes uncounted |
| ResultLayer.Collect | src/infra/result.py:321-329 | all values in order exactly when every result is good, else the first error |
| Scheduler.Runner.RunTick | src/bot/commands/council.py:746-829 | one tick, with any of its steps failing, completes the broadcasts of the specification and remembers exactly them |
| Scheduler.FailedRemindersLoseAResult | src/bot/commands/council.py:766-829 | a reachable state in which a tick has expired a proposal, failed in the reminders and not broadcast the result |
| SuspectsPanel.Panel.Reloaded | src/bot/commands/state_council.py:5782-5804 | after its await a listing or a failure moves the page only as far as needed and cuts the selection down to the loaded suspects |
| SuspectsPanel.Panel.Select | src/bot/commands/state_council.py:6017-6033 | the author's choice replaces the selection, anyone else's is ignored |
| SuspectsPanel.Panel.PreviousPage | src/bot/commands/state_council.py:6035-6042 | one page back for the author unless on the first |
| SuspectsPanel.Panel.NextPage | src/bot/commands/state_council.py:6044-6051 | one page on for the author unless on the last |
| SuspectsPanel.Panel.StartSearch | src/bot/commands/state_council.py:6196-6199 | a search or a reset starts on the first page; an empty keyword is none |
| SuspectsPanel.LateChoiceIsDropped | src/bot/commands/state_council.py:6137-6156 | a choice made while a release is under way is dropped with it |
| SuspectsPanel.OthersAndSearches | src/bot/commands/state_council.py:6011-6051 | nobody else turns pages or selects; a search or a reset starts on the first page, an empty keyword being none |
| CsvExport.GroupByType | src/bot/commands/state_council.py:5541-5547 | the loop groups the records by first occurrence of their type |
| CsvExport.ExportWritesTheCollectedOrder | src/bot/commands/state_council.py:5358-5592 | whatever is fetched and whatever the date range, the export writes every collected record once, in collected order |
| Allowlist.BracketFailureIsFinal | src/config/settings.py:31-39 | bracketed text is read as its inside or not at all: the comma fallback never rescues it |
| Allowlist.AllowlistFailsExactly | src/config/settings.py:26-39 | reading fails if and only if some non-blank item is no integer, and otherwise gives one integer per item in order |
| Allowlist.ParsedIsNumber | src/config/settings.py:34-39 | what is read as an integer is a sign, digits, and underscores between them, with white space around |

## Left out

- Threads and cancellation: a loop's stretch between two awaits is atomic also against other loops' stretches; tasks are not cancelled, and loops are not garbage-collected out of the weak maps.
- asyncpg, Alembic, logging and pool sizes: creating a pool returns or raises, the schema check always ends, closing returns or raises.
- Cython compilation, JSON and TOML formats, timings, the summary file's layout and the baseline run; a build's outcome is a parameter and does not depend on earlier builds.
- IncrementalBuild.IncrementalEqualsRebuild: assumes targets with distinct names and modules, sources unchanged while a run is under way, and collision-free hashes.
- Duplicate target names, and directories shared by artifacts of different modules.
- `try*` statements and context nodes shared between trees; SyntaxAnalysis identifies nodes by an identity that no two different nodes share.
- File-level reports and rewriting suggestions of the migration scripts.
- The older help loaders `_load_help_json` and `_dig_help_payload`, and the embeds.
- HelpSearch.OwnNameFindsTheEntry: is about trees that keep Discord's rules for slash commands (lower-case words, distinct among siblings) and about names typed as they are shown.
- HelpSearch.CollectingKeepsTheShape: assumes Discord's rules for command names (not empty, without spaces, distinct among siblings).
- HelpSearch.CollectCommandHelp: a non-empty list of pairs, which `dict` would accept as help, counts as raising; values are those JSON knows. Commands made by discord.py's decorators have discord.py's own module, which has no help function, so that module help reaches only commands of other classes.
- State files that cannot be read or decoded: `load_state` catches only JSON errors, so such a file makes the run raise before it starts; here a state file is absent, no JSON, or saved by a run.
- Text beyond ASCII: `lower`, `strip`, `split` and `int` act on ASCII letters, digits and white space.
- HelpFormat.TruncationFitsExactly: `max_length * 0.8` is taken as an exact number, without floating-point rounding.
- Failing cursor queries, failing connection acquisition, and the fields of a history entry besides those that paging looks at.
- ResultLayer.ExceptionsCountOnce: assumes no error class is called `__total__`.
- TransferChecks.TransferCheckStateStore.GetState: returns a value, where the source hands out the live inner dictionary; `snapshot` is a copy of all of them.
- Errors carry their kind, message and cause; context, logging and the chaining methods of `Ok`, `Err` and `AsyncResult` are case splits.
- Scheduler.BroadcastInItsTickExactly: no event brings an ended proposal back into progress or moves a deadline, as no statement of the services does; a reading sees the status that stands at that moment.
- Reminders, direct messages, the contents of a broadcast and a scheduler's restart, after which its set starts empty again.
- Embeds, buttons, modals, the justice panel, whose page is clamped without being fetched again, and `handle_charge`.
- Single-type exports and cell formatting; the interdepartmental transfer panel, whose checks are one conjunction.
- Council voting, ledger rules, retry coordination and the gateways, except for the two history queries.
