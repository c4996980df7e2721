# DocBuilder: a verified model of its core

DocBuilder turns Markdown repositories into a Hugo site and runs as a daemon. This project models the
parts of it whose correctness is hardest to see from the code, and proves what they promise:

- **The build debouncer** (`BuildDebouncer`, `DebouncerRuns`, `DebouncerTimers`, `DebouncerAccounting`). An
  abstract machine whose only data is the batch of requests accepted since the last build, and a class
  with the fields of the source that refines it. Over every run: no request is lost or counted twice, jobs
  keep their identity, every tick comes one window, delay or interval after what started its timer, and a
  batch waits no longer than the maximum delay.
- **The document edit stack** (`Edits`, `Frontmatter`, `DocModel`, `Lines`, `LineSearch`). Byte-range edits
  applied from the back are a left-to-right splice; front matter survives body edits; body lines map to
  file lines.
- **Link fixing** (`FileSystem`, `LinkRewriting`, `LinkPlaces`, `LinkRepeats`, `LinkUpdates`, `LinkRollback`,
  `Paths`, `LinkTargets`, `LinkResolution`, `LinksFollow`). Rewriting many files is a transaction over a
  file system in which any operation may fail; a link is rewritten where it stands, and leads to the moved
  file afterwards, under exact conditions.
- **Git updates** (`CommitGraph`, `RemoteHeadCache`, `FetchProtocol`, `FetchRuns`). The ancestor search is
  sound, complete and terminating; the cache of remote heads never skips a fetch that is needed,
  as long as no two clones share a branch.
- **The build history** (`Projection`, `ProjectionLaws`, `BuildSummaries`, `EventLog`, `Restarts`). A map and a
  bounded list that share objects are a fold over the event log, every field of a summary is decided by one
  event, and a restart, which rebuilds them from what was stored, is compared with live updates.
- **Canonical forms** (`Filenames`, `CleanNames`, `ConfigLists`, `ConfigSnapshot`). Suggested filenames are a
  closure with laws that leave no choice, and the configuration fingerprint ignores order and noise and
  nothing else.
- **The live-reload hub** (`LiveReload`, `LiveReloadRuns`, `LiveReloadDelivery`, `LiveReloadConnections`). Any
  interleaving of its concurrent methods closes each client at most once, loses no hash for a client that
  stays, and leaves no ended connection behind.

`Common`, `Bytes` and `Separated` hold the vocabulary: permutations, searching, and the theory of cutting a
sequence at a separator. `dafny verify dfyconfig.toml` checks everything.

## How the model is built

Code that changes things step by step is a class or a method with a loop, proved against a function on
values; the laws are lemmas about those functions and about runs of a step function. The debouncer, the
fetch protocol and the live-reload hub are state machines whose events are one loop iteration, one
operation, and one critical section or channel operation. Nondeterminism of the environment is in the
events: whether a build is running, whether a publication, a fetch, a listing or a sync succeeds, when a
timer tick is served, in which order a map is walked through. File operations draw their outcome from a
list of faults, which includes writes that stop half way.

## What the proofs found

Unless a point says otherwise, the lemma that is named first shows the failure at a concrete input or in a
concrete run; the exact condition for it follows, where there is one.

- A poll timer that an earlier emission left armed ticks while a new batch is pending, and clears the
  timers of that batch (`StrandedBatch`). Such a stale tick is the only thing that strands a batch
  (`LiveIffNoStaleTick`); the next request wakes it up. The daemon's documented maximum delay holds on
  runs without it.
- Two insertions at one position are applied in whatever order an unstable sort leaves them
  (`SharedPointAmbiguous`). The order of edits is irrelevant exactly if such insertions commute
  (`OrderIrrelevantIff`).
- A rollback removes each backup even if writing the original back failed, so a fault during the rollback
  can lose the only copy of a file (`OriginalLost`, `NoneLostIff`).
- Two links on a line can be rewritten wrongly, if the new text of one contains the text of the other
  (`SecondLinkMisses`) or one stands inside the other (`OneInsideAnother`). Exactly when each link is
  rewritten where it stands is `InPlaceIff`, and `HitsLastIff` for links with one text.
- Links are looked for after the file was renamed. A link that leaves the extension out is then not found
  and keeps pointing to the old name (`RenameLosesStemLink`, `StemNotFound`), unless only the letter case
  of the name has changed.
- A rewritten link misses the moved file if the relative path to it contains `#` (`HashMissesFile`); and,
  when the extension is dropped, if the bare name exists (`BareNameMissesFile`), if a `.markdown` file has
  a `.md` sibling (`MdSiblingMissesFile`), or if the stem is empty, `.` or `..` (`DotStemMissesFile`, for
  the file `..md`). In all other cases it resolves (`RoundTrip`). Dropping `.MD` resolves up to
  letter case only, which is how the fixer compares paths.
- Two clones of one URL and branch share a cache entry, so one of them skips a fetch it needs
  (`SharedSourceSkipsStale`, from any state with two idle clones). A colon in a branch name would make
  two sources share a key (`ColonCollides`); Git forbids it.
- The store keeps whole seconds at which events were appended. A restart therefore changes start, completion
  and duration of builds (`RestartRoundsTimes`), by no more than `RestartMovesTimes` says, and nothing else
  in their summaries (`RestartKeepsContents`).
- Overlapping builds are ordered by completion live, and by the second in which they started after a
  restart; the source's comments call both "newest first". A restart can so reorder the history, and later
  even drop another build (`RestartLosesBuild`); exactly when is `RestartIff`.
- A suggested filename can still have an issue if the extension has characters that are not allowed
  (`BadExtensionStays`), or if nothing is left of the name (`NothingLeft`, `SuggestionHasNoIssueIff`);
  never for documents and images.
- An entry with a comma has the fingerprint of two entries (`CommaCollides`), a value with a zero byte that
  of other values (`ZeroByteCollides`), and a missing filtering section that of an empty one
  (`EmptyFilteringUnseen`). As long as no value has a zero byte and no list entry a comma, no other change
  goes unnoticed (`FingerprintIffSettings`).
- Two broadcasts at once can leave a client with the older hash (`ConcurrentBroadcastsReorder`); exactly
  when that threatens is `OrderIff`.
- A connection that cannot greet its client ends without removing it. That takes a hash of more than 4064
  bytes (`OversizedGreetingStays`, `EndedIsOut`), and the ones in use are much shorter.
- A client that registers after a shutdown is neither closed by it nor sent anything. This one is a
  statement over all runs (`ShutdownClosesEveryone`).

## Model

| member | source | states |
|---|---|---|
| `Debouncer.MergeSnapshot` | internal/daemon/build_debouncer.go:257-267 | Whatever order the entries are visited in: a key named with a non-empty value gets that value, and every other key keeps what it had, or stays absent. |
| `Debouncer.CheckConfig` | internal/daemon/build_debouncer.go:85-103 | Accepted exactly if quiet window and maximum delay are positive, and the error names the first one that is not; an accepted configuration keeps both, and a poll interval that is not positive becomes 250 ms. |
| `Debouncer.BuildDebouncer.constructor` | internal/daemon/build_debouncer.go:102 | A new debouncer is the initial state of the machine: no batch, no timer. |
| `Debouncer.BuildDebouncer.PlannedJobID` | internal/daemon/build_debouncer.go:67-83 | An ID is planned exactly if a batch is pending and its last request carries one, and it is that one. |
| `Debouncer.BuildDebouncer.AcceptRequest` | internal/daemon/build_debouncer.go:225-267 | The batch grows by exactly this request, with its own time or else the clock's, unless it redelivers the job emitted last while nothing is pending; the kept counter, times, "last" fields and merged snapshot again summarise the batch. |
| `Debouncer.BuildDebouncer.Emit` | internal/daemon/build_debouncer.go:296-392 | Refines one emission attempt: nothing pending, build running, publication refused, or the whole batch emitted and reported; a refused attempt loses no request. |
| `Debouncer.BuildDebouncer.EmitAfterRunning` | internal/daemon/build_debouncer.go:394-409 | Refines the follow-up attempt of a poll tick. |
| `Debouncer.BuildDebouncer.StartPolling` | internal/daemon/build_debouncer.go:217-221 | The poll timer is started only when a follow-up is owed, is not polled for yet, and the channel is nil. |
| `Debouncer.BuildDebouncer.HandleRequest` | internal/daemon/build_debouncer.go:163-191 | Refines one loop iteration that receives a request. |
| `Debouncer.BuildDebouncer.HandleQuiet` | internal/daemon/build_debouncer.go:193-198 | Refines the quiet tick. |
| `Debouncer.BuildDebouncer.HandleMax` | internal/daemon/build_debouncer.go:200-204 | Refines the max-delay tick. |
| `Debouncer.BuildDebouncer.HandlePoll` | internal/daemon/build_debouncer.go:206-221 | Refines the poll tick, the stale one included. |
| `Debouncer.BuildDebouncer.Run` | internal/daemon/build_debouncer.go:159-223 | For every sequence of events: the final state is the machine's, and every published event describes exactly one emitted batch (size, job, origin, first and last time, cause, merged snapshot). |
| `DebouncerRuns.StepKeepsInvariant` | internal/daemon/build_debouncer.go:159-222 | Each iteration keeps: polling after a run implies that a follow-up is owed, which implies a pending batch with an armed poll timer. |
| `DebouncerRuns.RunKeepsInvariant` | internal/daemon/build_debouncer.go:159-222 | That invariant holds at every loop head of every run. |
| `DebouncerRuns.StepKeepsLive` | internal/daemon/build_debouncer.go:206-215 | From a state in which the pending batch has a live timer, an iteration leaves it one if and only if it is not a stale poll tick; any request wakes a stranded batch up. |
| `DebouncerRuns.LiveIffNoStaleTick` | internal/daemon/build_debouncer.go:159-222 | A run keeps every pending batch on a live timer at every loop head if and only if no stale poll tick occurs in it. |
| `DebouncerAccounting.StrandedBatch` | internal/daemon/build_debouncer.go:169-211 | A concrete run in which a left-over poll tick silences the timers of a new batch and strands it. |
| `DebouncerRuns.DelayBound` | internal/daemon/build_debouncer.go:163-204 | A batch opened by a non-immediate request is attempted no later than the maximum delay after that request (plus the loop's serving latency), however many requests follow, unless a stale poll tick intervenes. |
| `DebouncerRuns.AttemptSettlesOrDefers` | internal/daemon/build_debouncer.go:312-392 | An attempt emits exactly the batch and empties it, or, when a build runs or the publication fails, keeps the batch whole and owes a follow-up with an armed poll timer. |
| `DebouncerRuns.FollowUpBound` | internal/daemon/build_debouncer.go:206-221 | While a follow-up is owed, a poll tick arrives within one poll interval. |
| `DebouncerTimers.QuietTickTime` | internal/daemon/build_debouncer.go:163-198 | A quiet tick comes one quiet window after the last non-immediate request before it, and no later than the loop takes to serve it; nothing was emitted and no other quiet tick came in between. |
| `DebouncerTimers.QuietWindowHolds` | internal/daemon/build_debouncer.go:185-186 | Every non-immediate request, however many came before, puts the next quiet tick off by a whole window. |
| `DebouncerTimers.QuietBound` | internal/daemon/build_debouncer.go:163-198 | A pending batch is attempted within one quiet window (plus serving latency) of its last non-immediate request, unless a stale poll tick intervenes. |
| `DebouncerTimers.MaxTickTime` | internal/daemon/build_debouncer.go:188-204 | A max-delay tick comes one maximum delay after the request that opened the pending batch, and no later than it takes to serve. |
| `DebouncerTimers.PollTickTime` | internal/daemon/build_debouncer.go:206-221 | A poll tick comes one poll interval after the attempt that failed or the poll tick before it. |
| `DebouncerTimers.EmitsIff` | internal/daemon/build_debouncer.go:296-409 | An event emits if and only if it makes the loop try (an immediate request or a tick with a pending batch, a poll tick with an owed follow-up and no build running), no build runs and the publication succeeds; the emission carries the time of the event and its cause. |
| `DebouncerTimers.OwedIff` | internal/daemon/build_debouncer.go:317-360 | A follow-up is owed exactly if an attempt has been made since the last emission. |
| `DebouncerAccounting.Conservation` | internal/daemon/build_debouncer.go:225-375 | Over any run, the emitted batches in order followed by the pending one are exactly the accepted requests in order. |
| `DebouncerAccounting.RequestCountsAddUp` | internal/daemon/build_debouncer.go:255-256 | The request counts of the published events plus the pending requests equal the accepted requests. |
| `DebouncerAccounting.RequestEnters` | internal/daemon/build_debouncer.go:225-256 | Every request is accepted as it is, with its own time or else the clock's, unless it redelivers the job of the last emission while nothing is pending. |
| `DebouncerAccounting.WinnerIsLast` | internal/daemon/build_debouncer.go:257-267 | A key's reported value is that of the last request of the batch that names it with a non-empty value. |
| `DebouncerAccounting.NoWinner` | internal/daemon/build_debouncer.go:261-264 | A key is absent exactly if no request of the batch names it. |
| `DebouncerAccounting.JobIdentity` | internal/daemon/build_debouncer.go:228-256 | In every run, the remembered job is that of the latest build, and every batch was opened by a request with another (or no) job than the build before it. |
| `DebouncerAccounting.RepeatedJobNeedsAnother` | internal/daemon/build_debouncer.go:228-256 | Two consecutive builds with the same non-empty job ID have an accepted request with another (or no) ID between them. |
| `DebouncerAccounting.RedeliveryIsDropped` | internal/daemon/build_debouncer.go:228-236 | Redelivering the job emitted last with nothing pending neither emits nor opens a batch. |
| `DebouncerAccounting.PlannedBatchIsEmitted` | internal/daemon/build_debouncer.go:62-83 | While no further request is accepted, the pending batch stays as it is until it is emitted, as planned and once. |
| `Edits.SpliceLength` | internal/markdown/edits.go:60-71 | The length changes by the exact sum of the edits. |
| `Edits.ByteSurvives` | internal/markdown/edits.go:60-71 | Every byte outside all ranges survives, at its offset plus the growth of the ranges before it. |
| `Edits.ReplacementPlaced` | internal/markdown/edits.go:60-71 | Every replacement stands whole where its range was moved to. |
| `Edits.SortSlice` | internal/markdown/edits.go:33-38 | A permutation of the edits, by start and then end, both descending; the order of equal ranges is left open. |
| `Edits.Validate` | internal/markdown/edits.go:40-58 | Accepts exactly if no position has a defect, and otherwise reports the first one, with an error that says what is wrong with the edit there. |
| `Edits.NeighboursSuffice` | internal/markdown/edits.go:50-57 | On sorted edits the check of adjacent pairs is equivalent to all ranges being in bounds and pairwise disjoint. |
| `Edits.ReplaceFromBack` | internal/markdown/edits.go:60-69 | The rebuilding loop computes the back-to-front application. |
| `Edits.BackToFrontIsSplice` | internal/markdown/edits.go:60-71 | Applying edits from the back equals the left-to-right splice of gaps and replacements. |
| `Edits.ApplyEdits` | internal/markdown/edits.go:26-72 | Accepts exactly the sets of edits that are in bounds and pairwise disjoint, and returns their left-to-right splice; a refusal names the first defect of the sorted edits. |
| `Edits.OrderIrrelevantIff` | internal/markdown/edits.go:33-38 | Every order in which the unstable sort may leave acceptable edits gives the same bytes if and only if any two insertions at one position commute, that is, their texts can be swapped. |
| `Edits.OneOrderIff` | internal/markdown/edits.go:33-38 | The sort leaves acceptable edits in one order only if and only if insertions at one position are equal. |
| `Edits.SharedPointAmbiguous` | internal/markdown/edits.go:33-38 | Two insertions at one position are both accepted orders of the sort and give different results. |
| `Frontmatter.DetectStyle` | internal/frontmatter/frontmatter.go:96-115 | The scan finds CRLF exactly if the first line feed follows a carriage return, and a trailing newline exactly if the last byte is a line feed. |
| `Frontmatter.SplitIff` | internal/frontmatter/frontmatter.go:23-61 | Exactly which documents are accepted: without an opening delimiter line of its own newline the document is all body; with one, it is refused exactly if no such line follows at the start of the rest or behind a newline, and otherwise the front matter ends before the first of them. |
| `Frontmatter.DefaultNewline` | internal/frontmatter/frontmatter.go:63-90 | Front matter without a newline style is joined with line feeds. |
| `Frontmatter.SplitRestIsInverse` | internal/frontmatter/frontmatter.go:33-47 | What is split is front matter, one closing line and body; the front matter is empty or ends in a newline and is closed by the first delimiter line. |
| `Frontmatter.JoinRestIsInverse` | internal/frontmatter/frontmatter.go:33-47 | Front matter of that shape, closed by a delimiter line, is found again whatever body follows. |
| `Frontmatter.JoinSplit` | internal/frontmatter/frontmatter.go:23-74 | Joining what was split is the identity on every accepted document. |
| `Frontmatter.SplitJoin` | internal/frontmatter/frontmatter.go:23-74 | Splitting a joined document gives back the same front matter, body and newline style, for both styles. |
| `Frontmatter.OpeningLineDecides` | internal/frontmatter/frontmatter.go:96-107 | The newline of the opening delimiter line is the style of the whole document. |
| `DocModel.ParseKeepsBytes` | internal/docmodel/docmodel.go:149-159 | The bytes of a parsed document are its original bytes. |
| `DocModel.ParsesWhatSplits` | internal/docmodel/docmodel.go:100-148 | Every document that can be split is parsed, into the same parts, and no other. |
| `DocModel.ApplyBodyEdits` | internal/docmodel/edits.go:13-21 | Edits are refused exactly if they are not acceptable; otherwise parsing the result of a document with front matter gives the same raw front matter, newline style and line offset, and exactly the spliced body. |
| `DocModel.HeaderLines` | internal/docmodel/line_mapping.go:14-22 | The bytes before the body are whole lines, exactly as many as the line offset. |
| `DocModel.LineMapping` | internal/docmodel/line_mapping.go:14-22 | File line offset + n exists exactly if body line n does, holds the same bytes, and starts where the body line does, shifted by the header, for both newline styles and with or without a final newline. |
| `Lines.FindLineByteRange` | internal/lint/fixer_link_updates.go:127-148 | Finds a line exactly if its number is one of the content's; the range holds exactly that newline-separated line. |
| `Lines.SplitIffHasLines` | internal/lint/fixer_link_updates.go:127-148 | The lines of a content are the only newline-free pieces that join to it. |
| `LineSearch.ComputeSkippableLines` | internal/docmodel/line_mapping.go:70-105 | A line is marked exactly if it is a fence line, stands inside an open fence, or is indented. |
| `LineSearch.CodeIff` | internal/docmodel/line_mapping.go:70-105 | A line is code exactly if three backticks or tildes stand on it with nothing but white space before them, a fence is open before it, or it starts with four spaces or a tab. |
| `LineSearch.BackticksAreCounted` | internal/docmodel/line_mapping.go:107-115 | The count of backticks is the number of bytes 96. |
| `LineSearch.ActiveIffOpened` | internal/docmodel/line_mapping.go:97-105 | A fence is open before a line exactly if an earlier line opened it outside of any block and no line since carries the same fence. |
| `LineSearch.IsInsideInlineCode` | internal/docmodel/line_mapping.go:107-115 | Inside exactly if an odd number of backticks precedes the position; every position is accepted, also outside of the line. |
| `LineSearch.FindMention` | internal/docmodel/line_mapping.go:50-64 | The loop over occurrences finds a mention exactly if one stands outside of inline code. |
| `LineSearch.FindNextLineContaining` | internal/docmodel/line_mapping.go:29-68 | The first line from the clamped start on that is not code and mentions the target outside of inline code; line 1 if there is none. |
| `LinkRewriting.SortDescending` | internal/lint/fixer_link_updates.go:39-49 | The exchange sort returns a permutation with descending line numbers. |
| `LinkRewriting.RewriteOne` | internal/lint/fixer_link_updates.go:52-87 | One link changes the last occurrence of its text on its own line, exactly if that line exists, has an occurrence, and the new text differs; otherwise nothing changes. |
| `LinkRewriting.RewriteLinks` | internal/lint/fixer_link_updates.go:36-95 | The file becomes its lines edited by the sorted links, and one update is reported for each link that changes its line, provided no new text contains a line feed; without an update it keeps its bytes. |
| `LinkRewriting.LinesAreIndependent` | internal/lint/fixer_link_updates.go:39-87 | The result on each line is that of the links naming it, in their order, whatever the other links do. |
| `LinkRewriting.UnnamedLineKept` | internal/lint/fixer_link_updates.go:39-87 | A line that no link names is byte-identical. |
| `LinkUpdates.OtherLinesKept` | internal/lint/fixer_link_updates.go:51-95 | In a rewritten file, every line that none of its links names holds the same bytes as before. |
| `LinkRepeats.SameLinksRepeat` | internal/lint/fixer_link_updates.go:51-87 | Links with one old and one new text on a line repeat one replacement of the last occurrence. |
| `LinkRepeats.HitsLastIff` | internal/lint/fixer_link_updates.go:51-87 | n such links rewrite the last n occurrences if and only if, for every j below n, the old text is nowhere at or behind the j-th last occurrence once the last j are replaced; the line is then the original one with exactly those occurrences replaced. |
| `LinkRepeats.SecondLinkMisses` | internal/lint/fixer_link_updates.go:51-87 | Two links "a" that are to become "ba" turn "a a" into "a bba": the second link changes what the first one wrote. |
| `LinkPlaces.InPlaceIff` | internal/lint/fixer_link_updates.go:51-87 | For links of any texts on one line, in the order of application: each is rewritten where it stands if and only if, on the line with the links before it rewritten where they stand, its text does not occur behind it; the line is then the intended one. |
| `LinkPlaces.InPlaceIsIntended` | internal/lint/fixer_link_updates.go:39-87 | In whatever order the sort leaves them: if each link is rewritten where it stands, the line is the left-to-right splice of all of them, which does not depend on the order. |
| `LinkPlaces.NewTextStands` | internal/lint/fixer_link_updates.go:74-78 | On the intended line, the new text of every link stands whole where its place was moved to. |
| `LinkPlaces.OneInsideAnother` | internal/lint/fixer_link_updates.go:69-78 | Links "c" and "/c" on the line "c /c": if "c" goes first, it rewrites the inside of the other one, which is then not found. |
| `LinkUpdates.UpdateFile` | internal/lint/fixer_link_updates.go:26-117 | With any read, backup or write failing: once the backup is made it holds the original bytes, and before that the file is untouched. It succeeds exactly if the file exists and none of its operations fails, and then the file is rewritten and its updates, each with the old and new text of its link, are reported; a backup is made exactly if there are updates. |
| `LinkUpdates.UpdateAll` | internal/lint/fixer_link_updates.go:26-118 | The loop succeeds exactly if every source exists and no operation so far has failed; whenever it stops, every touched file has its original in its backup and no other source has changed. |
| `LinkRollback.Rollback` | internal/lint/fixer_link_updates.go:177-188 | The disk afterwards, for every outcome of every read, write and removal: restored from the backup one file after the other. |
| `LinkRollback.RestoresIff` | internal/lint/fixer_link_updates.go:177-188 | Every touched file has its original bytes again if and only if for each of them the backup is read and written back, or the file holds its original in spite of the failure. |
| `LinkRollback.NoneLostIff` | internal/lint/fixer_link_updates.go:177-188 | No original is lost, from both the file and its backup, if and only if each file comes back or the removal of its backup fails as well. |
| `LinkRollback.SuccessRestores` | internal/lint/fixer_link_updates.go:177-188 | If the restoring reads and writes succeed, every original comes back, whatever the removals do. |
| `LinkRollback.OriginalLost` | internal/lint/fixer_link_updates.go:177-188 | One restoring write that stops half way loses the original, because the backup is removed nevertheless. |
| `LinkUpdates.ApplyLinkUpdates` | internal/lint/fixer_link_updates.go:15-125 | All or nothing over every list of faults, partial writes included. Success comes exactly if every source exists and no operation before the clean-up fails; then every file with links is rewritten and exactly their updates are reported. After an error the rollback has run on the state that the loop left, untouched sources are as before, and all sources are as before if the restoring reads and writes succeed: always if nothing fails, and, if all sources exist, also with one fault anywhere. On success a file was touched exactly if an update tells of it, its backup is gone if the removal succeeded and else holds the original, and without faults no backup is left. No file changes but the sources and their backups. |
| `LinkUpdates.RemoveBackups` | internal/lint/fixer_link_updates.go:118-122 | Every backup is removed whose removal succeeds, and is left as it is otherwise; nothing else changes. |
| `LinkUpdates.LinksOfCount` | internal/lint/fixer_link_updates.go:17-20 | Grouping by source file loses no link and repeats none. |
| `LinkUpdates.SourcesAre` | internal/lint/fixer_link_updates.go:17-20 | The files that are processed are exactly those that some link stands in. |
| `LinkUpdates.DocumentsNeverCollide` | internal/lint/types.go:125-129 | No Markdown document sits at the backup path of another, so the transaction's precondition holds for the files that links come from. |
| `Paths.WalkRel` | internal/lint/link_target_rewrite.go:57-69 | A relative path leads from its base to its target. |
| `LinkTargets.ContentRoot` | internal/lint/fixer_utils.go:98-113 | The nearest directory named "content" among the ancestors, if there is one. |
| `LinkTargets.FindContentRoot` | internal/lint/fixer_utils.go:100-113 | The upward loop finds that directory. |
| `LinkTargets.RewrittenForm` | internal/lint/link_target_rewrite.go:16-74 | The new text is a style prefix, the relative path with or without its extension, and the old fragment. |
| `LinkTargets.NewLanding` | internal/lint/link_target_rewrite.go:16-74 | Where the rewritten link lands, before extensions are tried: the new path joined to the same base. |
| `LinkTargets.ProbeStem` | internal/lint/fixer_utils.go:75-87 | A link without its extension finds the moved file exactly if the stem is a proper name, nothing is at the bare path, and the extension tried first does not exist there. |
| `LinkTargets.HashMisses` | internal/lint/fixer_utils.go:48-50 | A '#' in the new path always makes the rewritten link miss the file. |
| `LinkTargets.RoundTrip` | internal/lint/link_target_rewrite.go:16-74 | For every link that is rewritten, of any style: it resolves to the moved file, compared as the fixer compares paths, if and only if the relative path has no '#' and, when the extension is dropped, the bare name denotes the file. |
| `LinkTargets.RewrittenIff` | internal/lint/link_target_rewrite.go:16-60 | Which links are rewritten, read off their text: not those without a path or with one of the four schemes; every other one, except a site-absolute one whose source is not under a directory named "content"; and the result leads to the moved file under the conditions of the round trip. |
| `LinkTargets.SiteAbsoluteLink` | internal/lint/link_target_rewrite.go:51-60 | From repo/content/a.md, "/docs/b.md" becomes "/guide/c.md" when the file moves to repo/content/guide/c.md. |
| `LinkTargets.DotSlashLink` | internal/lint/link_target_rewrite.go:62-74 | From docs/a.md, "./b.md#x" becomes "./c.md#x" when the file moves to docs/c.md. |
| `LinkTargets.SiblingLink` | internal/lint/link_target_rewrite.go:16-74 | A link "x" or "x.md" to a file in the same directory misses it exactly under the conditions of the round trip on that file's name. |
| `LinkTargets.HashMissesFile` | internal/lint/fixer_utils.go:48-50 | A moved file "c#.md" is missed. |
| `LinkTargets.BareNameMissesFile` | internal/lint/fixer_utils.go:75-87 | A moved file "c.md" is missed beside an entry "c". |
| `LinkTargets.MdSiblingMissesFile` | internal/lint/fixer_utils.go:75-87 | A moved file "c.markdown" is missed beside a file "c.md". |
| `LinkTargets.DotStemMissesFile` | internal/lint/fixer_utils.go:75-87 | A moved file "..md" is missed. |
| `LinkTargets.StyleKept` | internal/lint/link_target_rewrite.go:9-49 | Unless the relative path has a '#': site-absolute links stay so, "./" stays unless "../" takes its place, and the fragment is kept. |
| `LinkTargets.ExtensionStyleKept` | internal/lint/link_target_rewrite.go:34-45 | A link to a document has an extension exactly if it had one, unless it had none and the name ends in two Markdown extensions. |
| `LinkResolution.FullNameFound` | internal/lint/fixer_link_detection.go:108-114 | A link that names a file in full is found, whether or not the file is still there, unless nothing but a file with one more extension exists. |
| `LinkResolution.StemNotFound` | internal/lint/fixer_link_detection.go:108-114 | A link without the extension is not found if no entry has the file's name up to letter case, as after a rename. |
| `LinkResolution.RenameLosesStemLink` | internal/lint/fixer_utils.go:75-87 | A link "x" leads to "x.md"; once that is renamed to "y.md", the link is not found any more. |
| `LinkResolution.RetargetedLeadsIff` | internal/lint/fixer_link_updates.go:155-164 | A link that leads to the old path and is retargeted leads to the new one exactly under the conditions of the round trip. |
| `LinkResolution.UnchangedLeadsIff` | internal/lint/fixer_link_updates.go:166-174 | A link that cannot be retargeted and does not name the old file is left as it is, and leads to the new path only if that is the old one up to letter case. |
| `LinkResolution.FallbackLeadsIff` | internal/lint/fixer_link_updates.go:166-174 | A link that cannot be retargeted and ends in the name of the old file keeps its directory and gets the new name: it leads to the new path exactly if that is its directory, unless nothing but a file with one more extension exists there. |
| `LinkResolution.UpdatedLeadsIff` | internal/lint/fixer_link_updates.go:150-175 | For every link that was found, whichever way it is updated: exactly when it leads to the new path. |
| `LinkResolution.ReplaceFirstIs` | internal/lint/fixer_link_updates.go:170 | The first occurrence of the name is replaced, and a text without one stays as it is. |
| `LinksFollow.AloneInPlaceIff` | internal/lint/fixer_link_updates.go:69-78 | A link that is alone on its line is rewritten where it stands exactly if its text does not occur behind it. |
| `LinksFollow.LinkFollowsIff` | internal/lint/fixer_link_updates.go:15-125 | After a successful transaction, on every line whose links can be rewritten where they stand: the text that now stands at the place of a found link leads to the new path exactly under those conditions. |
| `CommitGraph.IsAncestor` | internal/git/update.go:220-243 | Terminates on every finite graph, with the unseen commits and then the queue decreasing; answers true exactly if the commit is reachable through parents; an error names a reachable commit that is missing. |
| `CommitGraph.SyncWithRemote` | internal/git/update.go:159-192 | Success leaves the worktree at the tracking ref; without hard reset only by fast-forward; it fails neither with hard reset nor when a fast-forward exists and no commit is missing. |
| `CommitGraph.LaterReachesEarlier` | internal/git/update.go:160-178 | On a branch that only moves forward, every later head reaches every earlier one. |
| `RemoteHeads.CacheKeyInjective` | internal/git/remote_cache.go:252-254 | For branch names without a colon, a cache key determines URL and branch. |
| `RemoteHeads.ColonCollides` | internal/git/remote_cache.go:252-254 | With a colon in a branch name, two different sources share a key. |
| `RemoteHeads.RemoteHeadCache.Get` | internal/git/remote_cache.go:148-155 | Returns the entry under the key, if there is one. |
| `RemoteHeads.RemoteHeadCache.Set` | internal/git/remote_cache.go:157-169 | Changes the entry of this source and no other. |
| `RemoteHeads.RemoteHeadCache.Delete` | internal/git/remote_cache.go:171-179 | Removes the entry of this source and no other. |
| `RemoteHeads.RemoteHeadCache.DeleteByURL` | internal/git/remote_cache.go:181-193 | Removes exactly the entries of the URL, on all branches; an empty URL removes nothing. |
| `RemoteHeads.CheckRemoteChanged` | internal/git/remote_cache.go:111-146 | The fetch is skipped exactly if there is a cache, the head could be listed, and it is the cached one. |
| `FetchProtocol.StepInvariant` | internal/git/update.go:34-75 | Every push, clone, check, fetch, record, sync, abort, eviction, save and restart from an older cache keeps: whatever a cache says about a branch was its head no later than the clone's tracking ref. |
| `FetchProtocol.SkippedFetchIsSafe` | internal/git/update.go:37-55 | From a state with the invariant, a fetch is skipped only if the tracking ref equals the remote head just listed. |
| `FetchProtocol.UnknownMustFetch` | internal/git/remote_cache.go:113-146 | Without a cache entry for its branch, or if the remote cannot be listed, the check leads to a fetch. |
| `FetchProtocol.EvictionsForget` | internal/git/remote_cache.go:171-193 | An eviction removes the entries that it names and no others; a restart without a saved cache removes all and stops all updates. |
| `FetchProtocol.OthersAreLeftAlone` | internal/git/update.go:34-75 | The update of one clone leaves all others as they are; only a restart stops them. |
| `FetchProtocol.StartsOver` | internal/git/update.go:34-75 | An update that is given up or whose sync fails leaves the clone as it was and can start over. |
| `FetchProtocol.SavedComesBack` | internal/git/remote_cache.go:195-250 | A saved cache comes back with a restart from it. |
| `FetchProtocol.CheckInvariant` | internal/git/remote_cache.go:113-146 | The check keeps the invariant, whatever it decides. |
| `FetchProtocol.RecordInvariant` | internal/git/update.go:253-256 | Recording the head that the check listed, after the fetch, keeps the invariant, even if the branch moved in between. |
| `FetchProtocol.RestartInvariant` | internal/git/remote_cache.go:195-250 | Going back to any cache written earlier, or to none, keeps the invariant. |
| `FetchRuns.RunKeepsInvariant` | internal/git/update.go:34-75 | The invariant holds throughout every run. |
| `FetchRuns.SkipsAreSafe` | internal/git/update.go:37-55 | In every run, a skipped fetch means that the tracking ref is the remote head. |
| `FetchRuns.UpdateIsFresh` | internal/git/update.go:34-75 | A successful update leaves the worktree at a commit at least as new as the remote head at its check, whether it fetched, skipped, or could not list the head. |
| `FetchRuns.NeverDiverges` | internal/git/update.go:159-178 | While the branch only moves forward, the worktree is always an ancestor of the tracking ref. |
| `FetchRuns.SyncNeverDiverges` | internal/git/update.go:159-192 | So the sync that ends an update is a fast-forward and succeeds, with or without hard reset, if no commit that the tracking ref reaches is missing; the worktree is then at the tracking ref. |
| `FetchRuns.SharedSourceSkipsStale` | internal/git/update.go:37-55 | If two clones share URL and branch, a push followed by an update of the one makes the other skip its fetch with a stale tracking ref. |
| `Projection.BuildHistoryProjection.constructor` | internal/eventstore/projection.go:46-57 | An empty projection; a bound that is not positive becomes 100. |
| `Projection.BuildHistoryProjection.UpdateSummary` | internal/eventstore/projection.go:119-182 | The summary object is updated in place as the event says, payloads that cannot be decoded included. |
| `Projection.BuildHistoryProjection.AddToHistory` | internal/eventstore/projection.go:185-201 | A build that is in the history stays where it is; another one comes first, and the oldest entry beyond the bound falls off. |
| `Projection.BuildHistoryProjection.Apply` | internal/eventstore/projection.go:94-183 | The shared objects change as one step of the fold, and map and history keep sharing them. |
| `Projection.BuildHistoryProjection.SortHistory` | internal/eventstore/projection.go:203-211 | The in-place sort by swaps of neighbours is the stable insertion sort by start time. |
| `Projection.BuildHistoryProjection.Rebuild` | internal/eventstore/projection.go:59-92 | Whatever was there before, the result is the fold over the log with its history sorted and trimmed. |
| `ProjectionLaws.Locality` | internal/eventstore/projection.go:109-182 | A build's summary is that of its own events alone: interleaving events of other builds changes nothing. |
| `ProjectionLaws.SameOwnEvents` | internal/eventstore/projection.go:109-182 | Two event sequences with the same events of every build, interleaved in any way, give the same summaries. |
| `ProjectionLaws.CountsAreSums` | internal/eventstore/projection.go:132-141 | Repository and file counts are exact sums over the build's events. |
| `BuildSummaries.StatusIsLast` | internal/eventstore/projection.go:119-166 | The status is decided by the last start, completion or failure: "running", the status of the payload or "completed", or "failed". |
| `BuildSummaries.StartIsLast` | internal/eventstore/projection.go:109-121 | The build started at its last start event, or else at its first event. |
| `BuildSummaries.EndIsLast` | internal/eventstore/projection.go:143-165 | The build ended at its last completion or failure, and its duration runs from the start that was then in force. |
| `BuildSummaries.NoEnd` | internal/eventstore/projection.go:143-165 | Without such an event it has neither an end nor a duration. |
| `BuildSummaries.FailureIsLast` | internal/eventstore/projection.go:166-174 | Stage and message are those of the last failure that can be decoded. |
| `BuildSummaries.PayloadsAreLast` | internal/eventstore/projection.go:123-182 | The artifacts are those of the last completion that can be decoded, the tenant that of the last such start, and the report the last one. |
| `ProjectionLaws.HistoryShape` | internal/eventstore/projection.go:185-201 | History always has distinct IDs, at most the bound, and completed builds only. |
| `ProjectionLaws.HistoryIsRecent` | internal/eventstore/projection.go:185-201 | History is exactly the newest completions that entered it: a build is missing only if newer completions pushed it out. |
| `ProjectionLaws.EnteredAreCompletions` | internal/eventstore/projection.go:185-201 | If no build terminates twice, those are the newest terminal events. |
| `ProjectionLaws.SortSorts` | internal/eventstore/projection.go:203-211 | The sort returns a permutation, newest start first. |
| `ProjectionLaws.SortedStays` | internal/eventstore/projection.go:203-211 | The sort is stable: a list in order is left as it is. |
| `ProjectionLaws.RebuildAgrees` | internal/eventstore/projection.go:59-100 | Rebuilding from the same events gives the same summaries and a sorted permutation of the live history; the histories are identical if and only if the live one is in start order. |
| `ProjectionLaws.SequentialInOrder` | internal/eventstore/projection.go:94-201 | If timestamps never go backwards, no build starts or terminates twice, and builds do not overlap, the live history is in start order. |
| `ProjectionLaws.SequentialRebuildIdentical` | internal/eventstore/projection.go:59-100 | For such a log, rebuilding from the same events gives exactly the live projection. |
| `ProjectionLaws.OverlapReorders` | internal/eventstore/projection.go:59-100 | Two overlapping builds for which the histories from the same events differ, for every bound of two or more. |
| `EventLog.EventEmitter.EmitEvent` | internal/daemon/event_emitter.go:28-46 | An event that is stored is applied with its own time and appended with the time of the append in whole seconds; one that is not stored is not applied. |
| `EventLog.EventEmitter.Restart` | internal/daemon/daemon.go:191-199 | A restart rebuilds the projection from the stored rows that are not more than an hour ahead. |
| `EventLog.AllReadIff` | internal/eventstore/projection.go:59-62 | A rebuild reads every row if and only if none was appended more than an hour later. |
| `Restarts.RestartKeepsContents` | internal/eventstore/sqlite.go:60-169 | After a restart in the middle of a log and all later events, the builds are the same as without it, and their summaries differ in start, completion and duration at most. |
| `Restarts.InterleavingKeepsContents` | internal/daemon/event_emitter.go:28-46 | The same if the events of different builds were applied in another order than they were stored. |
| `Restarts.RestartMovesTimes` | internal/eventstore/sqlite.go:78 | If every append is done within some latency, a restart moves starts and completions back by less than a second or forth by no more than the latency, and changes durations by less than both together. |
| `Restarts.RestartRoundsTimes` | internal/eventstore/sqlite.go:149 | A build that starts half a second past the full second has started on the full second after a restart. |
| `Restarts.RestartIff` | internal/daemon/daemon.go:191-199 | If no build terminates twice, the history after the restart and later events is the one without the restart if and only if, of the entries that are still shown, none was stored to have started in an earlier second than a later entry. |
| `Restarts.SequentialRestart` | internal/daemon/daemon.go:191-199 | If the stored builds do not overlap, a restart does not change the history, and a later rebuild gives it again. |
| `Restarts.StoredSequential` | internal/eventstore/sqlite.go:60-92 | Builds that do not overlap when they are emitted do not overlap in the store, if appends do not go back in time. |
| `Restarts.RestartLosesBuild` | internal/daemon/daemon.go:191-199 | With overlapping builds that start in different seconds and a bound of two, a restart changes which builds are shown. |
| `Restarts.SameSecondKeepsOrder` | internal/eventstore/sqlite.go:78 | Overlapping builds that start in the same second keep the order in which they completed, although a rebuild from the exact times would swap them. |
| `Filenames.HasUppercase` | internal/lint/rules.go:198-206 | Finds an upper-case letter exactly if there is one. |
| `Filenames.FindSpecialChars` | internal/lint/rules.go:215-232 | Lists exactly the characters that are not allowed, each once. |
| `Filenames.Check` | internal/lint/rules.go:24-161 | An error is reported exactly for the names with an issue; each issue is reported exactly if it is there, special characters only without upper-case letters; the characters listed are exactly those not allowed. |
| `CleanNames.DoubleExtensionIff` | internal/lint/rules.go:163-196 | A double extension is invalid exactly if the text between the last two dots is a common extension, in any letter case, and the name is not that of a diagram. |
| `CleanNames.IndexFiles` | internal/lint/rules.go:28-32 | The two index files have no issue, in contrast to other names with an underscore in front. |
| `CleanNames.AllowedCharacters` | internal/lint/rules.go:208-213 | The allowed characters are the 26 small letters, the digits, hyphen, underscore and dot. |
| `Filenames.CleanNameIsTidy` | internal/lint/rules.go:252-268 | A cleaned name has only name characters, no two hyphens in a row, and no separator at an end. |
| `CleanNames.CleanObeys` | internal/lint/rules.go:252-268 | Cleaning ignores letter case and separators at the ends, takes a space for a hyphen and two hyphens for one, drops every other character that is not allowed, and keeps tidy names. |
| `CleanNames.CleaningIsUnique` | internal/lint/rules.go:252-268 | Whatever obeys these laws gives every name the same clean form. |
| `CleanNames.SuggestionIs` | internal/lint/rules.go:234-271 | A diagram keeps its name; of any other name the part before the last dot is cleaned and the rest is put in lower case. |
| `Filenames.SuggestIdempotent` | internal/lint/rules.go:234-271 | Suggesting a name for a suggestion changes nothing. |
| `Filenames.ExtIsLastPart` | internal/lint/rules.go:236-250 | The two ways of finding the extension agree on every base name. |
| `Filenames.CleanedAway` | internal/lint/rules.go:252-268 | Nothing is left of a name exactly if it has no letter and no digit. |
| `Filenames.SuggestionHasNoIssueIff` | internal/lint/rules.go:234-316 | A suggestion has no issue if and only if the name is whitelisted, or its extension consists of allowed characters and there is an extension, or a letter or digit in front of it. |
| `Filenames.BadExtensionStays` | internal/lint/rules.go:236-250 | The suggestion for "notes.c#" still has an issue. |
| `Filenames.NothingLeft` | internal/lint/rules.go:252-268 | The suggestion for "___" is empty, which is an issue. |
| `Filenames.AcceptedFilesCanBeRenamed` | internal/lint/rules.go:234-316 | For every document or image: the suggestion has no issue and keeps the extension, and a name with an issue gets a different one. |
| `ConfigLists.TrimAndDedupe` | internal/config/normalize_helpers.go:16-37 | The loop keeps exactly the trimmed non-blank entries, each once, and notes a change exactly if an entry was padded, blank or repeated. |
| `ConfigLists.TrimSpaceIsMiddle` | internal/config/normalize_helpers.go:16-37 | What is left of an entry is the middle between white space, with none at its ends. |
| `ConfigLists.InsertionSort` | internal/config/normalize_helpers.go:45-52 | The in-place sort by swaps returns a sorted permutation. |
| `ConfigLists.LessIff` | internal/config/normalize_helpers.go:45-52 | One string comes before another if at the first difference it has the smaller character or has ended. |
| `ConfigLists.NormalizeStringSlice` | internal/config/normalize_helpers.go:8-55 | The result is strictly increasing and holds exactly the trimmed non-blank entries; a warning is due exactly if something was padded, blank or repeated. |
| `ConfigLists.NormalIsUnique` | internal/config/normalize_helpers.go:8-55 | There is only one such list, so lists with the same wanted entries normalize identically. |
| `ConfigLists.NormalizeFiltering` | internal/config/normalize_filtering.go:3-11 | Each of the four filtering lists is normalized, each into its own field. |
| `ConfigSnapshot.Hasher.Write` | internal/config/snapshot.go:21 | What a key contributes is appended: its name, its value and a zero byte. |
| `ConfigSnapshot.Hasher.WriteList` | internal/config/snapshot.go:36-45 | A list is written sorted and joined by commas, and not at all if it is empty. |
| `ConfigSnapshot.Snapshot` | internal/config/snapshot.go:16-80 | The writes in the order of the source feed exactly the entries of all 18 keys that have a value, each closed by a zero byte. |
| `ConfigSnapshot.PreimageIsText` | internal/config/snapshot.go:16-80 | The hashed text, key by key with its name and value, in the order of the source. |
| `ConfigSnapshot.SortedSorts` | internal/config/snapshot.go:36-45 | The sort of a copied list is its sorted permutation. |
| `ConfigSnapshot.EntryInjective` | internal/config/snapshot.go:21 | An entry determines its key and its value. |
| `ConfigSnapshot.BytesDetermineValues` | internal/config/snapshot.go:16-80 | The bytes are determined by what is written for every key; and if no value has a zero byte, they determine it for every key, absence included. |
| `ConfigSnapshot.ListTextDetermines` | internal/config/snapshot.go:36-73 | For lists whose entries have no comma, the texts are equal if and only if the lists are permutations of each other. |
| `ConfigSnapshot.FingerprintIffSettings` | internal/config/snapshot.go:9-15 | Configurations that differ only in the order of their lists feed identical bytes to the hash; any other difference changes the bytes, provided no value has a zero byte and no list entry a comma. |
| `ConfigSnapshot.FingerprintIgnoresNoise` | internal/config/snapshot.go:52-73 | After normalization, filtering lists that differ by order, repetition, padding or blanks feed identical bytes to the hash, and lists with other wanted entries feed other bytes. |
| `ConfigSnapshot.CommaCollides` | internal/config/snapshot.go:54-58 | Two configurations with different settings and identical bytes: a pattern with a comma against two patterns. |
| `ConfigSnapshot.ZeroByteCollides` | internal/config/snapshot.go:21 | Two configurations with different settings and identical bytes: a zero byte in the base URL lets text move from one value to the next. |
| `ConfigSnapshot.EmptyFilteringUnseen` | internal/config/snapshot.go:52-73 | A missing filtering section and an empty one feed identical bytes. |
| `LiveReload.LiveReloadHub.Admit` | internal/daemon/livereload.go:33-39 | A connection is let in exactly if the hub is open at that moment. |
| `LiveReload.LiveReloadHub.Register` | internal/daemon/livereload.go:49-56 | A new client under a fresh identifier, also after a shutdown, greeted with the last hash. |
| `LiveReload.LiveReloadHub.RemoveClient` | internal/daemon/livereload.go:119-132 | Takes the client out of the map and closes it in the same step; an unknown identifier changes nothing. |
| `LiveReload.LiveReloadHub.Announce` | internal/daemon/livereload.go:135-150 | Refused if closed, empty or unchanged; otherwise the hash is remembered and the snapshot is all clients of the map. |
| `LiveReload.LiveReloadHub.Offer` | internal/daemon/livereload.go:152-158 | Sends, or with a full channel marks the client to be dropped, without waiting. |
| `LiveReload.LiveReloadHub.Drop` | internal/daemon/livereload.go:156-157 | Removes by identifier the client that could not be sent to. |
| `LiveReload.LiveReloadHub.BeginShutdown` | internal/daemon/livereload.go:172-180 | Only the first shutdown takes over the clients, and leaves an empty map. |
| `LiveReload.LiveReloadHub.Close` | internal/daemon/livereload.go:181-183 | Closes one of the clients taken over. |
| `LiveReloadRuns.StepClosesOnce` | internal/daemon/livereload.go:119-183 | Every step keeps: identifiers are not reused, and a client has been closed exactly once if it is neither in the map nor waiting for the shutdown, and never otherwise. |
| `LiveReloadRuns.ClosedAtMostOnce` | internal/daemon/livereload.go:119-183 | Over every interleaving of connecting, leaving, broadcasting and shutting down, a client's `done` channel is closed at most once, and is open exactly while the client is in the map or waiting for the shutdown. |
| `LiveReloadRuns.TakenOutIsClosed` | internal/daemon/livereload.go:119-183 | The step that takes a client out of the map closes it, except that the shutdown takes it over and closes it later; no other step closes it. |
| `LiveReloadRuns.ShutdownClosesEveryone` | internal/daemon/livereload.go:172-184 | Once a shutdown has run to its end, everyone who was there is closed; a client that registers afterwards gets no hash and is closed only by its own leaving. |
| `LiveReloadRuns.NobodyIsLetIn` | internal/daemon/livereload.go:33-39 | Once the hub is closed, only those who had been let in before can still register. |
| `LiveReloadRuns.AnnouncesNewsOnly` | internal/daemon/livereload.go:137-146 | No empty hash is announced, and none twice in a row. |
| `LiveReloadRuns.OfferSendsIff` | internal/daemon/livereload.go:152-158 | An offer sends the hash exactly if fewer than eight are waiting in the channel, and otherwise marks the client to be dropped. |
| `LiveReloadDelivery.StepKeepsBooks` | internal/daemon/livereload.go:135-159 | Every step keeps the books: no client is sent an announcement twice or one from before it registered, and a connected one has been sent, or is still due, each announcement since. |
| `LiveReloadDelivery.ConnectedMissesNothing` | internal/daemon/livereload.go:135-159 | In every interleaving, a connected client for which nothing is due has been sent every announcement since it registered exactly once; one that reads nothing cannot stay connected past what its channel holds. |
| `LiveReloadDelivery.OrderIff` | internal/daemon/livereload.go:135-159 | From a state in which all clients got their hashes in order, some continuation without a new broadcast breaks the order if and only if a broadcast has still to offer its hash to a client that a later broadcast has reached or has still to reach. |
| `LiveReloadDelivery.AnnouncementRisks` | internal/daemon/livereload.go:135-150 | A new broadcast puts the order at risk, if it was not before, exactly if an earlier one has still to reach a connected client. |
| `LiveReloadDelivery.SerialClientsAreCurrent` | internal/daemon/livereload.go:135-159 | With one broadcast at a time, a connected client for which nothing is due has been sent exactly the announcements since it registered, in order, the current hash last. |
| `LiveReloadDelivery.ConcurrentBroadcastsReorder` | internal/daemon/livereload.go:135-159 | Two broadcasts at the same time can leave a connected client with the older hash for good. |
| `LiveReloadConnections.GreetingFailsIff` | internal/daemon/livereload.go:64-78 | A greeting fails exactly if it does not fit into the 4096 bytes of the buffer and the stream fails. |
| `LiveReloadConnections.ToldIsPassedOn` | internal/daemon/livereload.go:97-115 | While its stream is sound, everything that a connection is told is passed on; a failure is for good. |
| `LiveReloadConnections.HubRun` | internal/daemon/livereload.go:32-117 | Whatever the connections do, the hub goes through one of its own runs. |
| `LiveReloadConnections.EndedIsOut` | internal/daemon/livereload.go:64-117 | In every run, a connection that has ended is out of the map, unless the hash in its greeting is longer than 4064 bytes. |
| `LiveReloadConnections.ShortHashesLeaveNobody` | internal/daemon/livereload.go:64-117 | If no announced hash is longer than that, no ended connection is left in the map. |
| `LiveReloadConnections.OversizedGreetingStays` | internal/daemon/livereload.go:70-75 | A longer hash and a stream that fails leave the client of an ended connection in the map. |
| `LiveReloadConnections.TakenOutCanEnd` | internal/daemon/livereload.go:90-96 | A connection whose client was taken out and closed can always see that and end. |

## Left out

- Forge clients, webhooks, HTTP servers, Hugo generation, the formatter, configuration defaults and
  validators: input and output over libraries, or single-branch facts.
- go-git, goldmark and YAML are not part of this model: a fetch or a sync succeeds or fails, the list of
  links is given, and front matter is bytes. `FrontmatterFields` and its caching are left out.
- SHA-256: the fingerprint is the byte sequence that is hashed. The missing configuration, whose snapshot is
  the empty text, is left out.
- Metrics, logging, locks and contexts: the debouncer's loop is one goroutine, and one critical section of
  the live-reload hub is one step. Closing the request channel or the context ends a run.
- Timer channels: a timer is a channel that is set or nil and a clock that runs, is due, or has been served.
- Clocks: times are parameters. A due timer is served within a latency that the delay bounds name.
- Letter case and white space beyond ASCII, and Windows path separators.
- Links of local paths are resolved on clean absolute paths; symbolic links, and errors of `filepath.Abs`
  and `filepath.Rel`, which cannot occur on them, are left out.
- LinkResolution.UpdatedLeadsIff: says nothing about a link that is not retargeted although the name of the old
  file occurs in it elsewhere than at its end, or whose new file name contains a '#'.
- LinksFollow.LinkFollowsIff: the directory entries are those of one moment, after the rename; the backups that
  the transaction makes meanwhile are not among them.
- Restarts.RestartIff: an event is stored and applied in one step, so that both happen in one order. Only
  Restarts.InterleavingKeepsContents does without that.
- LinkUpdates.ApplyLinkUpdates: does not model file modes, nor protect an unrelated file that already sits at a
  backup path: as in the source, it is overwritten and removed.
- RemoteHeads.CheckRemoteChanged: the search for the branch among the listed references, and the update
  time of an entry.
- CommitGraph.SyncWithRemote: a failing reset is the failing sync of the fetch protocol.
- FetchProtocol.StepInvariant: the branch of a clone does not change between updates, and the remote
  never loses the commits of a branch.
- The JSON text of the saved cache: a restart takes any cache saved before, or none.
- Projection.BuildHistoryProjection.Rebuild: the failing read of the event store, after which nothing has
  changed, and the time of the last synchronisation.
- Copies handed out by the getters of the projection, and the search for active builds.
- ConfigLists.NormalizeStringSlice: the text of the warning. `trimStringSlice` keeps order and
  repetitions and has no canonical form.
- Filenames.Check: the texts of the issues.
- LiveReload.LiveReloadHub.Register: the event stream and its heartbeat; a connection may leave at any
  time, or never.
