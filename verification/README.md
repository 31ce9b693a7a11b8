# GITA: a verified model of the write gate and the incremental index

GITA does two things that must not go wrong quietly: it writes to GitHub through a
confidence-gated, deduplicated gate, and it keeps a code index up to date by re-reading
only what changed. This project models both, with the text and arithmetic code they rest
on, and proves what they keep over whole runs.

* **The index** (`Walker`, `IndexFilter`, `Imports`, `ImportText`, `PackagedImports`,
  `RelativeImports`, `ImportCandidates`, `NameStatus`, `GitDiff`, `Index`, `RepoIndex`,
  `IndexHistory`, `IndexEdges`, `EdgeDiffs`, `IndexWitnesses`). A working tree is a map
  from path to content, the Tree-sitter parser is any function, `code_index` is a map and
  `import_edges` a list counted as a multiset. `RepoIndex.Repository` is the pipeline as
  it runs on the tables; `Index` says what each run computes; `IndexFilter`,
  `IndexHistory`, `IndexEdges` and `EdgeDiffs` prove which files have rows and how any
  history of full, forced, incremental, no-op and fallback runs relates to a full rebuild.
* **The gate** (`Decisions`, `Signature`, `Ambiguity`, `Gate`, `ActionSession`, `Chain`,
  `Drift`, `Races`, `Ledger`, `Interleave`, `GateSteps`, `Progress`, `Schedules`,
  `PrReview`, `Onboarding`, `TestGen`, `TestBranch`). `ActionSession.Session` has committed
  and pending rows and a log of client calls; `Gate` is its meaning as functions; the other
  modules prove safety over re-runs, chains, changing settings, client failures, races,
  crashes and every interleaving of concurrent sessions.
* **Text and arithmetic** (`Text`, `Names`, `Hunks`, `Trigger`, `Webhook`, `Concept`,
  `Guardrails`).

`Common` holds `Option` and `Result`. `dafny verify dfyconfig.toml` checks everything.

## Where the code is not what its documentation says

The model follows the code. These are proved, each with the exact condition or a witness:

* "Exactly one side-effect" (`src/gita/agents/dedupe.py:3-4`) holds when sessions run one
  after the other and each reaches its commit (`Ledger.RowsAreEffects`). It fails under a
  race, and it fails without one when a worker dies, or cannot commit, after its client
  call (`Interleave.RaceRepeatsTheEffect`, `Schedules.CrashRepeatsTheEffect`): the unique
  key bounds rows, not effects. `Schedules.LandsOnceExactlyWhen` is the exact condition on
  a schedule, whatever the client replies. In a chain, losing an insert also rolls back the
  rows of steps whose effects already landed (`Races.EffectRepeatsExactlyWhen`), and so
  does a death before the final commit (`Races.CutOffRepeatsExactlyWhen`).
* The steps of a chain are meant to take effect in order. A decision that was turned into
  a comment leaves a row too, so a later run in another mode or with another confidence
  steps over it: a COMMENT run and then a FULL run write a test file onto a branch that was
  never created (`Drift.CommentThenFull`, `Drift.LowThenHighConfidence`).
  `Drift.PlanStaysInOrderExactlyWhen`, `Drift.MenuStaysInOrderExactlyWhen` and
  `TestBranch.FilesHaveTheirBranchExactlyWhen` say exactly when the order holds. A SHADOW run that
  clears every threshold is harmless here: it records the whole rest of the chain.
* The pre-gate treats a missing signature as best effort, but recording needs one: the
  call then raises after its effect has landed (`Gate.RaisesExactlyWhen`,
  `Gate.LabelLandsThenRaises`; `label` has a threshold and no signature shape).
* Incremental indexing does not apply `MAX_FILE_SIZE`
  (`IndexHistory.AgreesWithFullRebuildExactlyWhen`, `IndexWitnesses.GrownFileKeepsItsRow`)
  and does not re-resolve the imports of files it does not re-read
  (`EdgeDiffs.EdgesAgreeExactlyWhen`, `IndexWitnesses.AddedFileLeavesAStaleEdge`).
* Joined signature fields are ambiguous when they hold their separator, and two or more
  labels or citations always share their signature with the single one that spells them
  all (`Ambiguity`).
* A hunk that only deletes still accepts its anchor line as changed
  (`Hunks.RangesAreNewLines`). A pick limit of zero or less still looks at the first pick
  (`Guardrails.ValidatePicks`).

## Model

| member | source | states |
|---|---|---|
| IndexHistory.EveryHistory | src/gita/indexer/ingest.py:410-510 | Over every history of runs in any mode on faithful diffs: the unique constraint never refuses an insert, the rows are those of the head tree, every non-null `indexed_at_sha` names a commit with exactly that content, and every edge is the one its file had when last read |
| IndexHistory.AgreesWithFullRebuildExactlyWhen | src/gita/indexer/ingest.py:301-404 | After any such history `code_index` equals a full rebuild of the head tree if and only if no file re-read since the last full index exceeds the size limit |
| IndexHistory.FullIndexRows | src/gita/indexer/ingest.py:230-284 | A full rebuild has a row for exactly the files the walk takes (indexable, within the size limit, readable), each with that file's content and the head SHA |
| IndexFilter.FullIndexHoldsExactly | src/gita/indexer/walker.py:82-126 | A full rebuild has a row for exactly the readable files of at most 200,000 bytes whose name is a non-empty stem and `.py`, `.ts`, `.js`, `.mjs`, `.cjs` or `.jsx`, without a skipped suffix, with no component in SKIP_DIRS and, tests off, none in TEST_DIRS; the row tells that language, the content, its structure and the commit |
| IndexFilter.TestsAreAdded | src/gita/indexer/walker.py:82-92 | Switching `include_tests` on adds exactly the files with a component in TEST_DIRS and leaves every other row as it is |
| IndexFilter.HistoryHoldsExactly | src/gita/indexer/ingest.py:410-510 | The same of the rows after any history of runs, the size limit waived for files re-read since the last full index |
| IndexHistory.IncrementalRows | src/gita/indexer/ingest.py:317-377 | One incremental run on a faithful diff: inserts never collide, re-read files carry the new content and SHA, other rows are kept as they were, and together they are the rows of the new tree |
| IndexHistory.UpdatedEdges | src/gita/indexer/ingest.py:317-404 | After an incremental run the edge multiset is, file by file, what the imports of its row resolved to in the run that last read it |
| IndexHistory.IncrementalKeepsInv | src/gita/indexer/ingest.py:301-404 | An incremental run keeps the whole invariant of the tables |
| IndexEdges.EveryEdgeIsGrounded | src/gita/indexer/ingest.py:178-224 | After any history each edge starts at an indexed file and a resolved one ends at a repository file that existed in the run that built it |
| IndexEdges.UntouchedEdgesStay | src/gita/indexer/ingest.py:317-377 | An incremental run leaves the outgoing edges of every file the diff does not mention |
| EdgeDiffs.EdgesAgreeExactlyWhen | src/gita/indexer/ingest.py:301-404 | One incremental run from agreeing tables, re-read files within the size limit: it agrees with a full rebuild if and only if, for every import of every file the diff does not mention, the first candidate under the new package roots that the diff leaves or brings is its present target |
| EdgeDiffs.EdgesAgreeOnStableRoots | src/gita/indexer/ingest.py:301-404 | With the package roots unchanged: if and only if the diff neither deletes the present target of such an import nor adds an earlier candidate |
| EdgeDiffs.RootsStay | src/gita/indexer/imports.py:55-96 | A diff that mentions no `__init__.py` leaves the package roots as they are |
| EdgeDiffs.AgreementLastsExactlyWhen | src/gita/indexer/ingest.py:410-510 | Over any history of runs in any mode, diffs in use within the size limit: the tables agree with a full rebuild after every run if and only if, in every run that does not start over, each import of each file its diff does not mention keeps its target under the package roots of that run |
| EdgeDiffs.AgreementLastsOnStableRoots | src/gita/indexer/ingest.py:410-510 | With the package roots unchanged throughout: if and only if no incremental diff deletes the present target, or adds an earlier candidate, of such an import |
| EdgeDiffs.RowStaysExactlyWhen | src/gita/indexer/ingest.py:178-224 | The edge multiset of one row is the same before and after a diff if and only if each of its imports keeps its target |
| ImportCandidates.ResolveIsTheFirst | src/gita/indexer/imports.py:99-277 | Every import has a list of candidates that depends on its text, its file and the package roots only, and resolves to the first that exists |
| EdgeDiffs.ModifyingKeepsAgreement | src/gita/indexer/ingest.py:301-404 | A diff that only modifies files turns tables that agree with a full rebuild, rows and edges, into tables that agree again |
| IndexWitnesses.AddedFileLeavesAStaleEdge | src/gita/indexer/ingest.py:301-404 | A concrete two-file repository in which adding a file leaves an unresolved edge that a full rebuild would resolve |
| IndexWitnesses.AddedFileIsACandidate | src/gita/indexer/ingest.py:379-404 | The same repository as an instance of the exact condition |
| IndexWitnesses.GrownFileKeepsItsRow | src/gita/indexer/ingest.py:347-377 | A two-run history in which a file grows past the size limit, keeps a row with the new content, and would have none after a full rebuild |
| RepoIndex.WalkRowsDistinct | src/gita/indexer/ingest.py:230-284 | The walk yields no path twice, so the bulk insert of a full index meets no conflict |
| RepoIndex.Repository.Run | src/gita/indexer/ingest.py:410-510 | The whole call on the tables equals `IndexRepository` of the old tables; a refused insert leaves them as they were |
| RepoIndex.Repository.IndexFully | src/gita/indexer/ingest.py:230-284 | Wipe, read and link leave exactly `FullIndex` of what the run sees |
| RepoIndex.Repository.IndexChanges | src/gita/indexer/ingest.py:301-404 | The loop over the changes leaves exactly `IncrementalIndex` of the old tables, and reports the deleted and added files |
| RepoIndex.Repository.LinkRows | src/gita/indexer/ingest.py:178-224 | The nested loops build the edges of all rows in order, and count the resolved ones |
| RepoIndex.Repository.DeleteFile | src/gita/indexer/ingest.py:317-345 | Removes one file's row and outgoing edges and nothing else |
| GitDiff.PrintedDiffIsFaithful | src/gita/indexer/diff.py:41-100 | Printing the entries of a diff between two trees and parsing the text gives changes that lead faithfully from the one tree to the other |
| GitDiff.PathsRoundTrip | src/gita/indexer/diff.py:66-98 | The forward-slash path of a change is read as the components it was printed from |
| NameStatus.ParseNameStatus | src/gita/indexer/diff.py:41-100 | The line loop, with its four ways to skip a line, computes `Parse` |
| NameStatus.ParseInvertsPrint | src/gita/indexer/diff.py:41-100 | Any list of entries with plain paths survives printing and parsing, in order: a rename becomes delete then add with its previous path, a copy an add, a type change a modification |
| NameStatus.LineRoundTrip | src/gita/indexer/diff.py:31-38 | One printed entry parses to its changes, whatever the similarity score |
| NameStatus.LineTells | src/gita/indexer/diff.py:56-100 | Any line of tab-separated fields: nothing without a tab or with an unknown status letter, two changes for a rename with two paths, otherwise one, about the second path of a copy and the first path of anything else; paths lose outer white space and get forward slashes |
| Imports.Climb | src/gita/indexer/imports.py:55-96 | Climbing the `__init__.py` chain ends, at a directory whose parent holds no `__init__.py` |
| Imports.DiscoverPackageRoots | src/gita/indexer/imports.py:55-96 | The roots are distinct, end with the repository, hold no `__init__.py` before that, and are exactly those some counted `__init__.py` gives |
| Imports.RootsAreExactly | src/gita/indexer/imports.py:55-96 | Besides the repository, exactly the directories without `__init__.py` that a package hangs on: an `__init__.py` with no component in SKIP_DIRS or TEST_DIRS below the repository, and one in every directory between |
| Imports.ResolveFromImport | src/gita/indexer/imports.py:132-156 | The relative form climbs one directory per extra dot; both forms find an existing file or nothing |
| Imports.Resolve | src/gita/indexer/imports.py:264-277 | In every language, whatever is resolved is an existing file |
| ImportText.OutsideIsIgnored | src/gita/indexer/imports.py:99-130 | White space around a Python import and semicolons behind it change nothing |
| ImportText.BeforeIsFirst | src/gita/indexer/imports.py:132-169 | A statement is cut at the first occurrence of its keyword, or has none |
| ImportText.DottedTells | src/gita/indexer/imports.py:183-205 | Any dotted name under a directory: blank parts are skipped on the way, and the last part names the plain file, else the package, else nothing |
| ImportText.FirstLiteralIsLeftmost | src/gita/indexer/imports.py:211-230 | The specifier of any statement is the leftmost non-empty run of other characters between two quotes; without one there is none |
| ImportText.StepsCancel | src/gita/indexer/imports.py:232-238 | Anywhere in a path, blank steps and single dots stay in place, and a name followed by two dots leads back |
| ImportText.AbsoluteSpecifierResolves | src/gita/indexer/imports.py:211-258 | A specifier with a leading slash starts at the file-system root and counts only inside the repository |
| RelativeImports.BareSpecifierFindsNothing | src/gita/indexer/imports.py:211-258 | A specifier that starts with neither a dot nor a slash, in any statement, resolves to nothing |
| PackagedImports.PackagedModuleResolves | src/gita/indexer/imports.py:99-205 | `from a.b.c import x` of a packaged module resolves to that very file if and only if no earlier root offers the name and, for a package, no plain file shadows it |
| PackagedImports.PlainImportLooksUp | src/gita/indexer/imports.py:159-180 | `import a.b`, `import a.b as c`, `import a.b, d` and `import a.b as c, d` look `a.b` up in the package roots |
| PackagedImports.PackageRootIsDiscovered | src/gita/indexer/imports.py:55-96 | The root such a package needs is among the discovered ones |
| PackagedImports.FirstHitWins | src/gita/indexer/imports.py:172-180 | The first root that offers a dotted module decides the import |
| PackagedImports.FindUnderDotted | src/gita/indexer/imports.py:183-205 | Under one root a dotted name means the plain file first, then the package |
| RelativeImports.RelativeModuleResolves | src/gita/indexer/imports.py:132-156 | `from ..a.b import x` finds what the directory so many levels above the importing file offers for `a.b`, and without a name that directory's `__init__.py` |
| RelativeImports.RelativePathRoundTrip | src/gita/indexer/imports.py:211-258 | From any file of a repository to any other: the printed relative path, in either kind of quotes and any surrounding statement, resolves to that very file |
| RelativeImports.RelativeSpecifierResolves | src/gita/indexer/imports.py:211-258 | A relative specifier leads up and down as written; outside the repository nothing is found, inside the file itself, then the extensions, then the index files |
| RelativeImports.CandidatesOffer | src/gita/indexer/imports.py:240-258 | A path means itself, else the first extension that makes it a file, else its first index file, else nothing |
| Index.LinesAreCounted | src/gita/indexer/ingest.py:101-133 | The stored line count of any text is the number of its lines, a last line feed not starting another |
| Interleave.InterleavingSafety | src/gita/agents/decisions.py:331-459 | In every interleaving of any number of sessions: one row per key, at most one session per key returns executed, and a session that loses the insert returns DEDUPED because of another session's row |
| Interleave.EveryInterleavingKeepsInv | src/gita/agents/decisions.py:331-459 | Every step of every interleaving keeps the invariant that ties phases, results and rows together |
| Schedules.LandsOnceExactlyWhen | src/gita/agents/decisions.py:331-459 | For a key without shadow sessions and any schedule, deaths included: under all replies its effect happens at most once if and only if no session of the key that calls looks up while another one that calls is between its lookup and its commit, or died there |
| Schedules.NoClashLandsOnce | src/gita/agents/decisions.py:331-459 | Without such a clash every effect happens at most once, shadow sessions included |
| Schedules.OneAtATimeLandsOnce | src/gita/agents/decisions.py:331-459 | If windows of one key never overlap and nobody dies inside one, its effect happens at most once |
| Schedules.CrashRepeatsTheEffect | src/gita/agents/decisions.py:396-459 | For any decision: a worker that dies between its call and its commit, and a second one that runs alone later, both land, with one row and no lost insert |
| Interleave.EffectOnceExactlyWhenNoInsertWasLost | src/gita/agents/decisions.py:434-459 | Looking back, when every session has finished and none is in shadow mode: no key took effect twice if and only if no session that landed its call lost its insert |
| Interleave.RaceRepeatsTheEffect | src/gita/agents/dedupe.py:148-214 | For any decision there is an interleaving of two sessions in which it takes effect twice and leaves one row |
| GateSteps.StepsAreTheGate | src/gita/agents/decisions.py:498-576 | A session's atomic steps add up to `execute_decision` with the rows committed meanwhile as rivals |
| Progress.EndsUnlessItWaits | src/gita/agents/decisions.py:396-459 | A session whose client has answered ends with its result, unless it waits for the commit of another session that holds its key |
| Progress.EveryInterleavingCanFinish | src/gita/agents/decisions.py:331-459 | Whatever has happened and whatever the clients will reply, every interleaving goes on, without another death, to one in which all sessions are over |
| Ledger.RowsAreEffects | src/gita/agents/decisions.py:396-576 | Conservation over any sequential history with mixed modes, agents, confidences and failures: at most one successful call per key, and as many rows as successful plus shadow-recorded calls, on exactly those keys |
| Ledger.RowSilencesItsKey | src/gita/agents/decisions.py:331-393 | Once a key has a row, no later call about it changes anything |
| Chain.ChainPrefix | src/gita/jobs/runners.py:903-939 | In FULL mode with clearing decisions and arbitrary client failures, among rivals that hold no key of the chain, the successful calls of any number of runs are a prefix of the chain, each once; a failure-free run completes it and no later run calls the client |
| Chain.AnyHistorySettlesAPrefix | src/gita/jobs/runners.py:903-939 | With any mixture of modes and failures, what settled is a prefix of the chain and exactly that prefix has rows |
| Chain.RestOfRun | src/gita/jobs/runners.py:922-939 | One run settles the decisions from the first one without a row up to some later one, in order, and progresses unless the client fails |
| Drift.PlanStaysInOrderExactlyWhen | src/gita/jobs/runners.py:903-939 | Runs that each have their own mode and confidences over the same keys: under all replies the declared effects stay a prefix of the chain if and only if no run that can end in a comment for one decision is followed, with no SHADOW run between, by one that declares the next decision |
| Drift.MenuStaysInOrderExactlyWhen | src/gita/jobs/runners.py:654-658 | Over all histories drawn from a set of settings: in order if and only if no setting comments a decision whose successor some setting declares |
| Drift.FullRunsStayInOrderExactlyWhen | src/gita/agents/decisions.py:506-530 | FULL runs of one fixed chain: in order if and only if no clearing decision follows one below its threshold |
| Drift.CommentThenFull | src/gita/jobs/runners.py:924-934 | A COMMENT run, then a FULL run, all calls succeeding: everything but the first decision takes effect as declared |
| Drift.LowThenHighConfidence | src/gita/agents/decisions.py:506-530 | The same for two FULL runs, the first with its first confidence below the threshold |
| Chain.ModeBounds | src/gita/jobs/runners.py:924-934 | SHADOW calls nobody; COMMENT sends comments only and, without comment decisions in the chain, makes one call per run plus one per lost insert; any non-comment call is the declared decision at or above its threshold |
| Races.EffectRepeatsExactlyWhen | src/gita/agents/decisions.py:434-459 | A live chain of any length, any replies, any rivals that leave one key alone: that key's effect can repeat in a later run if and only if it landed and the same run then lost the insert of another decision, whose key a rival committed while its call was awaited |
| Races.CutOffRepeatsExactlyWhen | src/gita/jobs/runners.py:903-939 | The same chain cut off before its commit, by a death or an escaping exception, between two decisions or after a client call: an effect can repeat in a later run if and only if it landed before the cut |
| Races.RaceForgetsEarlierRows | src/gita/agents/decisions.py:434-459 | The shortest such run: a lost insert in the second step rolls back the first step's row, and the next run repeats the first effect |
| TestGen.StepsComeInOrderExactlyWhen | src/gita/agents/test_generator/bridge.py:102-203 | Over all histories of runs for one test, drawn from a set of modes and confidences: branch, file and pull request take effect in that order if and only if the set does not hold both a run that only comments (COMMENT mode or below 0.9) and a FULL run at or above 0.9 |
| TestBranch.FilesHaveTheirBranchExactlyWhen | src/gita/agents/test_generator/bridge.py:102-203 | Over the same histories, read off the effect log: every test file that lands names a branch whose creation took effect before, and every pull request a branch that holds its file, if and only if the set does not hold both such runs |
| TestBranch.OnlyItsBranchIsWritten | src/gita/agents/test_generator/bridge.py:102-203 | In any history, whatever the settings and replies, no branch but the test's own is created or committed to |
| TestGen.ChainProposesTheTest | src/gita/agents/test_generator/bridge.py:102-203 | The branch created is the one the file is written to and the pull request proposes; it starts at the base SHA, the pull request aims at the base branch, path and content are the artifact's, and no step writes to another branch |
| TestGen.ChainIsRunnable | src/gita/agents/test_generator/bridge.py:102-203 | Its three decisions have thresholds and three different keys |
| Gate.RaisesExactlyWhen | src/gita/agents/decisions.py:465-576 | When the gate raises, exactly |
| Gate.SignableExactlyWhen | src/gita/agents/dedupe.py:44-142 | Which decisions have a key: those that name a repository and whose action has a default threshold, but `label`, or is about adding or removing labels; which error the others meet |
| Gate.LabelLandsThenRaises | src/gita/agents/decisions.py:69-81 | A live `label` decision lands, is not recorded, and raises |
| Gate.OneCall | src/gita/agents/decisions.py:465-576 | Everything one call does to the rows and the log: nothing for a known key, else one attempt, recorded if it landed or was shadow-logged |
| Gate.LoggedExactly | src/gita/agents/decisions.py:245-298 | When a call hands something over, and what: a decision below its threshold, or other than a comment in COMMENT mode, goes as a comment on its issue or else its fallback issue, in the same repository, whose body is the rendering of the decision and of the reason that applies, with its evidence; any other decision goes as it is |
| Gate.RowTellsTheCall | src/gita/agents/decisions.py:312-459 | The recorded row carries the outcome of the result, the confidence and evidence of the original decision, and the first identifier the client returned |
| Gate.ReplayTellsTheFirstResult | src/gita/agents/decisions.py:312-393 | After a landed, committed call every later call with its key, in any mode, changes nothing and answers DEDUPED with the first call's id and outcome |
| Decisions.Make | src/gita/agents/decisions.py:103-109 | Building a decision succeeds exactly for a non-empty action and a confidence in [0, 1] |
| ActionSession.Session.Execute | src/gita/agents/decisions.py:465-576 | The call on the session's rows equals `ExecuteDecision` of its old state |
| ActionSession.Session.RecordAndFinalize | src/gita/agents/decisions.py:396-459 | Insert under the unique key; a violation rolls back every pending row |
| ActionSession.Session.RecordAction | src/gita/agents/dedupe.py:175-214 | Add and flush one row: pending afterwards, or refused because the key exists, or no signature |
| ActionSession.Session.ExecuteSideEffect | src/gita/agents/decisions.py:270-298 | The three-part result and the logged call, with rival rows committed during the await |
| ActionSession.Session.DedupePregate | src/gita/agents/decisions.py:331-393 | The lookup returns DEDUPED for a visible row and reads only |
| ActionSession.Session.ExecuteChain | src/gita/jobs/runners.py:903-939 | The loop with its break, commit and rollback equals `RunChain` of the old state |
| Signature.SignatureIsIdentity | src/gita/agents/dedupe.py:44-125 | Equal signatures if and only if the decisions agree in repository (up to letter case and outer white space), action and the action's own fields as given: citation multiset, title up to case, first 200 characters of the stripped body, label multiset without the empty label, branch, path, content, ..., for a collision-free hash and line-feed-free inner fields |
| Names.LowerDecides | src/gita/agents/dedupe.py:128-142 | `lower` changes letter case only, leaves no capital, and makes two texts equal if and only if they agree position by position up to ASCII case |
| Names.StripIsTrimmed | src/gita/agents/dedupe.py:128-142 | `strip` removes the white space at both ends, all of it and nothing else |
| Names.SameNameIsDecided | src/gita/agents/dedupe.py:128-142 | Two repository names are normalised alike if and only if they differ in outer white space and letter case only |
| Text.NumeralTells | src/gita/agents/dedupe.py:60-100 | A number is spelled by its sign and the digits of its magnitude, without a leading zero |
| Signature.MixedIssueCollision | src/gita/agents/dedupe.py:60-75 | A citation-based and a title-based create_issue collide if and only if the title spells the sorted citations |
| Signature.NewlineIsTheAmbiguity | src/gita/agents/dedupe.py:44-125 | A branch or pull request is identified by its signature if and only if neither of its fields holds a line feed |
| Ambiguity.FileIsIdentifiedExactlyWhen | src/gita/agents/dedupe.py:44-125 | With a hex digest, the same for the branch and path of update_file |
| Ambiguity.EditIsIdentifiedExactlyWhen | src/gita/agents/dedupe.py:44-125 | An edit_issue is identified if and only if its title and capped body, joined, can be cut at one line feed only into a stripped title and a body |
| Ambiguity.LabelsAreIdentifiedExactlyWhen | src/gita/agents/dedupe.py:44-125 | An add_label is identified if and only if it has no label, or one that no comma cuts into two labels in order |
| Ambiguity.CitesAloneExactlyWhen | src/gita/agents/dedupe.py:60-75 | A citation-based issue is alone with its signature among such issues if and only if it has one citation that no line feed cuts into two in order |
| Signature.MaterialDecides | src/gita/agents/dedupe.py:44-142 | The hashed text splits back into repository, action and tail in one way only |
| Onboarding.BuildIssueDecisions | src/gita/agents/onboarding/bridge.py:272-336 | The milestone loop, with the index filter and citation keys, builds `DecisionsUpTo` or fails where it does |
| Onboarding.IssuesFollowMilestones | src/gita/agents/onboarding/bridge.py:272-336 | Exactly the milestones with an index in [0, number of findings) get an issue, in order: title, body, labels, landing issue and confidence are theirs, and its signature keys are the sorted multiset of `file:line` of the findings at those indices; the call fails if and only if one of them has a confidence outside [0, 1] |
| Onboarding.ValidIndicesAre | src/gita/agents/onboarding/bridge.py:284-286 | The index filter keeps every index in range, as often and in the order given, and nothing else |
| Onboarding.SameKeyExactlyWhenSameCitations | src/gita/agents/onboarding/bridge.py:284-334 | Two milestones get one key if and only if their given indices cite every file:line equally often and their repositories are one up to case and outer white space, whatever their titles, numbering and texts |
| Onboarding.CitationKeyInjective | src/gita/agents/onboarding/bridge.py:284-334 | `file:line` keys are injective, even when the file name holds colons |
| Onboarding.RerunDedupesWhatSettled | src/gita/cli/commands.py:687-706 | Onboarding twice, with any client failures in the first run: a milestone of the second run that cites the file:line multiset of one that settled in the first is DEDUPED and nothing is sent for it, whatever became of the others |
| Onboarding.RerunOnlyDedupes | src/gita/cli/commands.py:687-706 | When all its citations are recorded, a re-run with reworded, permuted and re-indexed milestones is DEDUPED throughout and changes neither rows nor effects |
| Onboarding.FlowsCommitAllOrNothing | src/gita/cli/commands.py:687-706 | A create-issues flow that an exception cuts short commits none of its rows |
| PrReview.OneReviewPerSha | src/gita/jobs/runners.py:96-236 | Over any sequence of jobs at most one review is posted per repository, up to letter case and outer white space, and head SHA, however the text drifts |
| PrReview.ReviewGoesToItsRequest | src/gita/jobs/runners.py:96-236 | A job hands over one comment at most, to its own pull request in its own repository, in the words of the review unless its confidence is below the threshold, with the head SHA as last evidence |
| PrReview.PostsExactlyWhen | src/gita/jobs/runners.py:62-236 | A job posts if and only if it is live, its client accepts, nothing equal was recorded and no row of the reviewer for that repository names its head SHA; rows of other agents, repositories and commits do not matter |
| PrReview.FailedPostStaysReviewable | src/gita/jobs/runners.py:62-90 | A failed post leaves the SHA as reviewable as before |
| PrReview.JobStep | src/gita/jobs/runners.py:153-172 | A job keeps every row, posts only for an unmarked SHA and marks it |
| Hunks.ExtractChangedRanges | src/gita/agents/pr_reviewer/diff_parser.py:61-75 | The loop over the lines computes `Extract`; no patch, no ranges |
| Hunks.ExtractInvertsPrint | src/gita/agents/pr_reviewer/diff_parser.py:54-75 | For every list of printed hunks, exactly their new-side ranges in order, an omitted count read as 1 |
| Hunks.BodyGivesNothing | src/gita/agents/pr_reviewer/diff_parser.py:54-75 | No body line, whatever it says, is taken for a header |
| Hunks.HeaderMatches | src/gita/agents/pr_reviewer/diff_parser.py:54-58 | Every printed header, with any heading behind it, reads back its new-side range |
| Hunks.HeaderExactlyWhen | src/gita/agents/pr_reviewer/diff_parser.py:54-75 | Any line is taken for a header with this range if and only if it is `@@ -a[,b] +c[,d] @@` and whatever follows, c and d being the range and a missing d a 1 |
| Hunks.RangesAreNewLines | src/gita/agents/guardrails.py:123-141 | A line lies in the ranges of a well-counted patch if and only if the patch shows it on the new side, or it is the anchor of a pure deletion |
| Hunks.FindLine | src/gita/agents/guardrails.py:123-141 | The nested search with its early return finds a line if and only if a range of that file holds it |
| Trigger.MaybeEnqueue | src/gita/jobs/runners.py:513-648 | When the trigger skips and for which reason; otherwise the stage lists, one enqueue attempt per selected file in order, the listed jobs, and selected plus dropped equals the survivors |
| Trigger.EnqueuedIsComplete | src/gita/jobs/runners.py:614-645 | Exactly the selected files whose enqueue call does not raise are listed |
| Trigger.MarkedWhenLive | src/gita/jobs/runners.py:614-645 | A listed job is marked as deduplicated if and only if the queue held its id already |
| Trigger.SelectionIgnoresOrder | src/gita/jobs/runners.py:562-648 | Every permutation of the added files gives the same selection and the same job ids in the same order |
| Trigger.SelectedAreTheSmallest | src/gita/jobs/runners.py:562-612 | min(cap, n) survivors in order, and no dropped file sorts before a selected one |
| Trigger.JobIdsDiffer | src/gita/jobs/runners.py:600-648 | Job ids of one push are injective in the file |
| Trigger.JobIdsNameTheirJob | src/gita/jobs/runners.py:600-648 | Two jobs of any pushes have one id if and only if they agree in repository (up to case and outer white space), file and the first seven characters of the commit, for colon-free repositories and commits |
| Webhook.Receiver.Receive | src/gita/web/webhooks.py:92-260 | The gates in order: the answer, or the exception of a body that is no JSON or of the wrong shape, and the cooldown table after it |
| Webhook.DispatchesAreSpaced | src/gita/web/cooldown.py:31-60 | Dispatches of one repository n apart in the list are n windows apart in time |
| Webhook.RateLimit | src/gita/web/cooldown.py:31-60 | A span of length L holds at most floor(L / window) + 1 dispatches of one repository, in whatever letter case its name is spelled |
| Webhook.TableIsLatestDispatch | src/gita/web/cooldown.py:56-60 | The cooldown table remembers the latest dispatch of each repository and nothing else |
| Concept.ConceptView | src/gita/views/concept.py:284-364 | The merge, score, sort and cut on the two candidate lists compute `View` and the total |
| Concept.ViewIsTheTop | src/gita/views/concept.py:327-364 | The result is the best `limit` of all matches: nothing lost or doubled, ties in insertion order, no omitted file outranks a returned one |
| Concept.MergeIsTheUnion | src/gita/views/concept.py:284-326 | One entry per path, and an entry for exactly the paths either half found |
| Concept.MergeKeepsBothHalves | src/gita/views/concept.py:284-326 | A merged file carries the rank, rescaled rank and symbols of its text hit and the similarity of its semantic hit, and zero where a half missed it |
| Concept.SortIsStable | src/gita/views/concept.py:327-364 | The sort is a descending permutation that keeps the order of equal ranks |
| Concept.HybridRanksAreBounded | src/gita/views/concept.py:221-235 | Hybrid ranks lie in [0, 2] |
| Concept.RanksTell | src/gita/views/concept.py:327-347 | Both halves of a hybrid rank weigh the same, a text-only rank ignores the semantic half, three symbols add 0.3 each and more than four nothing, ranks never fall when a score rises and are right to half a ten-thousandth |
| Concept.NormalizedKeepsProportions | src/gita/views/concept.py:221-235 | Rescaled text ranks keep their proportions, and the best is 1 |
| Concept.SimilarityIsLinear | src/gita/views/concept.py:296-298 | Similarity falls evenly from 1 at distance 0 to 0 at distance 2 |
| Guardrails.VerifyFindings | src/gita/agents/guardrails.py:144-262 | The loop fills the two lists with what `Verdict` says |
| Guardrails.GuardrailsPartition | src/gita/agents/guardrails.py:183-262 | Verified and dropped findings split the input, order kept; the verified pass all four guardrails, each dropped one carries the first it fails |
| Guardrails.VerdictIsTheFirstFailure | src/gita/agents/guardrails.py:183-262 | A finding survives if and only if it passes all four guardrails, and is dropped for one if and only if it fails that one and passes the earlier ones |
| Guardrails.StructuralMonotone | src/gita/agents/guardrails.py:268-290 | More verified findings never lower the confidence |
| Guardrails.StructuralIsPassRate | src/gita/agents/guardrails.py:268-290 | The confidence is the model's times the pass rate, but at least 0.1; without findings it is the model's |
| Guardrails.OverallIsTheMean | src/gita/agents/onboarding/recipe.py:230-236 | Changing one milestone's confidence moves the overall confidence by its share; equal confidences give that confidence |
| Guardrails.WithoutMilestones | src/gita/agents/onboarding/recipe.py:371-376 | The final confidence of a result without milestones: 0.3 without findings, 0.1 when none is verified, half the pass rate otherwise, never below 0.1 |
| Guardrails.StructuralBounds | src/gita/agents/guardrails.py:268-290 | The confidence lies in [0, 1], whatever the counts |
| Guardrails.ConvertMilestones | src/gita/agents/onboarding/recipe.py:192-214 | The loop over the proposals computes `Converted` |
| Guardrails.MilestonesFollowProposals | src/gita/agents/onboarding/recipe.py:192-214 | Exactly the proposals with an index in range become milestones, in order, with title and summary as proposed, the valid indices as often and in the order given, and a confidence in [0, 1] unchanged, otherwise 0 below and 1 above |
| Guardrails.ConvertedIsSafe | src/gita/agents/onboarding/recipe.py:192-214 | Kept milestones have confidences in [0, 1] and a non-empty list of valid indices |
| Guardrails.DecisionsNeverRaise | src/gita/agents/onboarding/recipe.py:369-376 | Whatever reals and indices the model supplies, the decisions built from them are valid |
| Guardrails.ValidatePicks | src/gita/agents/onboarding/recipe.py:295-310 | The first `limit` distinct valid picks, or the first three files when none is valid |
| Guardrails.PicksAreDistinct | src/gita/agents/onboarding/recipe.py:295-310 | Those picks are pairwise different, and exactly the valid ones that were proposed |

## Left out

* SHA-256 is a parameter, assumed collision-free where a result needs it.
* Lower-casing and `\d` are modelled on ASCII only.
* Row ids, timestamps, logging, and the rendering of bodies, previews and evidence: the texts are parameters.
* Tree-sitter parsing, `ast.parse`, the banned-phrase patterns, `has_existing_tests`, `is_feasible` and `compute_branch_name`: arbitrary functions of their inputs.
* SQL (full-text search, vectors, load-bearing ranking), LLM calls, HTTP, JWT, HMAC and git processes: their results are inputs.
* Redis and ARQ: a set of live job ids and a set of calls that fail. An exception inside `dispatch_event` is not modelled.
* Paths are lists of components; there are no symbolic links, and no slash inside a component or a dotted module part.
* The working tree of a run is its head commit, and `include_tests` stays fixed; untracked files are not modelled.
* `resolve_ts_js_import` asks whether a directory exists before it tries its index files; without the question the result is the same, so the model does not ask.
* Embeddings, `default_branch`, and the function and class counters of `IngestResult`.
* `run_reindex_job`, `_git_sync`, the CLI, and the Markdown, view and skeleton rendering: no property of their own.
* Floating point: confidences, ranks and clocks are reals.
* Concept.MergeKeepsBothHalves: each half lists a file once, as the unique key of `code_index` ensures.
* Cooldowns are those of one worker process; each worker has its own table.
* The symbol filter of `concept_view`: the number of matching symbols of a file is an input.
* `concept_view` when the embedding call fails: the `hybrid` flag is off, which is the text-only half.
* Paths that git quotes, and name-status entries with an unpaired `R`, are parsed as the code does but are not part of a faithful diff.
* Interleave.InterleavingSafety: sessions hold one decision each; several decisions in one session are `Chain`, with rivals.
* Trigger.JobIdsNameTheirJob: a colon in a repository name or commit would make the cut between the parts ambiguous; neither holds one.
* Signature.SignatureIsIdentity: inner fields hold no separator; `Signature.NewlineIsTheAmbiguity` and `Ambiguity` say exactly what happens otherwise.
* Chain.ChainPrefix: decisions with distinct keys that all have a threshold and a signature, all clearing, in FULL mode; `Drift` covers other modes and confidences, `Races` rivals on the chain's own keys.
* Drift.PlanStaysInOrderExactlyWhen: runs about the same keys; new test content is a new key and starts a new chain.
* Schedules.LandsOnceExactlyWhen: a shadow session of the key may commit a row, or hold up an insert, and so hide or cause a clash; for such keys `Schedules.NoClashLandsOnce` is the one direction. The table starts empty: rows of the past are sessions that ran first.
* Races.CutOffRepeatsExactlyWhen: chains; the onboarding flow commits at its end in the same way and has no theorem of its own.
* EdgeDiffs.EdgesAgreeExactlyWhen: the machine's files outside the repository stay between two runs.
* PrReview.OneReviewPerSha: jobs run one at a time; the queue does not prevent two for one SHA, and then `Interleave` applies.
* Hunks.ExtractInvertsPrint: file header lines are not part of a patch field and are not printed.
