# Redutok: a verified model of what a session may drop, remember and account for

Redutok sits beside a coding agent. It distils what the agent reads, keeps a *codex* of the
repository, graduates repeated observations into it, and meters what all of this saved. This project
models the parts of it whose correctness needs an argument over loops or whole runs, and proves that
argument. `dafny verify dfyconfig.toml` checks everything.

| part | files |
|---|---|
| Budgeted codex injection: drop, restore, learned sub-budget | `Injection`, `InjectionBuilder`, `InjectionRendering` |
| Graduation: confidence, merging, contradiction sweep, the pass, whole runs | `Confidence`, `Candidates`, `Graduation`, `GraduationEffects`, `Lifecycle`, `LifecycleProtection`, `LifecycleAgreement`, `LifecycleEvidence`, `LifecycleContradictions`, `ErrorFixMining` |
| Caches keyed by content hash: the skeleton mirror and the served-file registry | `Mirror`, `MirrorFreshness`, `MirrorAfterPass`, `ServedFiles` |
| Documents: PDF text streams, ZIP archives, section maps and references | `PdfText`, `PdfPen`, `PdfLines`, `PdfShows`, `ZipReader`, `ZipBytes`, `ZipFormat`, `Sections`, `SectionMaps`, `SectionRefs`, `SectionRanking` |
| Session posture and command wrapping | `Posture`, `PipeQuoting` |
| Accounting: transcripts, ledgers, costs, vault rollups and ask numbers | `Meter`, `MeterTotals`, `VaultRollup`, `VaultAsks`, `VaultNumbering` |
| Vocabulary | `Common`, `Sorting`, `Strings`, `Decimals`, `SetSums`, `Subsequences` |

Code that updates objects or runs loops is modelled by classes and methods (`Graduator`,
`CandidateList`, `MirrorStore`, `Store`, `TextInterpreter`, `Walker`, `DropLoop`, ...), each proved
against a specification function; the theorems are about those functions. A miner run, a mirror
refresh, a preparation, a serve and an ask are each one atomic step of a state machine, and the main
results quantify over every sequence of such steps. Beside them every main operation has an exact
statement, written on its inputs and not through the specification's own helpers: which records a pass
moves, where a line of a PDF ends, which sections an ask selects, what one more line does to a rollup.

## How outside things enter

- The content hash, the directive fingerprint, the skeleton builders, the diff library, the inflater,
  the heading classifier, the allow and deny expressions, the `cd` prefix expression, and the codex
  renderer are function parameters. Where a result needs a law of theirs (no collision among the
  contents in play, `apply(patch(a, b), a) == b`), the law is a named hypothesis.
- `0.5^(n/2)` is the n-th power of a positive `root` with `root * root == 0.5`; the recency factor is
  any antitone function of age into (0, 1] that is 1 at age zero. The quantization to four decimals is
  kept. Reals are exact.
- A candidate id is its (type, key) pair.
- PDF operators, transcript lines, audit events and directory trees arrive already tokenised or
  parsed; malformed numbers, lines and unreadable directories are values of those types.
- The clock is a number the steps advance.

## What turned out false as stated, with the exact condition

- *A miner run without a contradiction never withdraws anything.* False: an old contradiction plus
  enough silence is enough (`SilenceFinishesAContradictedEntry`). A graduated record survives a pass at
  every clock if and only if no contradiction of it was ever recorded
  (`SilenceIsHarmlessExactlyWithoutContradictions`).
- *Restoring a section never shrinks the rendering.* False: the drop note costs characters, so a
  section that saves less than its name costs in the note, or than the whole note when it is the first,
  grows the text when dropped (`RestoringShortensExactly`). No restore of a document shortens it if and
  only if every section saves at least a drop note naming it alone (`RestoringNeverShortensExactly`);
  the map of an empty codex does not (`RestoringAnEmptyMapShortens`). `KeepsTheMostProtected` uses a
  weaker hypothesis, and `RealInjectionKeepsTheMostProtected` discharges it for every document whose
  blocks are at least as long as their names in the note, as every YAML block is.
- *The two phases equal one greedy pass from all-dropped.* Exactly when the whole document is over
  budget or every cut of the degrade order is within it (`TwoPhasesAreOneGreedyPass`); a document that
  fits is kept whole (`NothingDroppedStays`), where the greedy pass can strand on a cut whose drop note
  makes it longer than the whole (`GreedyPassStrandsAnEmptyCodex`).
- *Mirror fingerprints stay in step with the directives.* A graduation pass keeps them so; on-demand
  preparation does exactly when the file is absent, has no builder, is already fresh or builds to
  nothing, or no directive matches its path (`PrepareKeepsFingerprintsExactly`).
- *PowerShell doubling is undone for every string.* Exactly for the strings without typographic single
  quotes, which PowerShell treats as apostrophes (`PowerShellUnquotesExactly`).
- *An unknown cache tier is never undercharged.* Exactly when the 1-hour rate is at least the 5-minute
  rate, or nothing was written (`UnknownTierNeverUndercharges`).
- *Ask ids never repeat.* Ask lines never share one, but an id can be given out twice: an ask that
  fails after it was numbered leaves no ask line (`FailedAskNumberIsReused`). Over every run from empty
  ledgers, a number is given to a session twice if and only if one of its asks failed, the session
  ended before another of its asks completed, closed by its client or with the server, and the same
  identity asked again (`NumbersRepeatExactlyAfterStranding`, `AskIdsRepeatExactlyAfterStranding`).
- *Per-tool rows count the calls and their shares sum to the output.* The rows live in a plain object,
  so a tool named like a property every object inherits has no number in its row, and `__proto__` no
  row. A row is numeric exactly when its name is not one of these (`ToolRowCountsItsCalls`). All rows
  are numeric and the sum holds if and only if no such tool was called and no turn that called
  `__proto__` had output tokens to share (`SharesSumToToolTurnOutput`).
- *PDF extraction loses nothing.* For every stream, clip regions included, the
  lines carry exactly the shown text if and only if no placed show loses text to the one before it: by
  repainting its ink, its last glyph, or a clipped first glyph still on the line (`LosslessExactly`).
- docs/GRADUATION.md says a withdrawn record may re-graduate. In the code it cannot: only records with
  status `candidate` are eligible and nothing restores that status (`WithdrawnIsTerminal`). The model
  follows the code.

## Model

| member | source | states |
|---|---|---|
| Injection.KeepsTheMostProtected | packages/sidecar/src/codex.ts:428-452 | of all selections within budget, the kept sections are the lexicographically greatest in protection order |
| Injection.TwoPhasesAreOneGreedyPass | packages/sidecar/src/codex.ts:428-452 | the two phases equal one greedy restore pass from all-dropped if and only if the whole document is over budget or every cut of the degrade order fits |
| Injection.NothingDroppedStays | packages/sidecar/src/codex.ts:429-430 | a document that fits loses nothing |
| Injection.InBudgetUnlessNothingHelps | packages/sidecar/src/codex.ts:428-452 | for any renderer: an in-budget drop phase ends in budget, and over budget means everything droppable is gone |
| InjectionBuilder.TrimLearned | packages/sidecar/src/codex.ts:383-399 | the learned entries kept are the longest confidence-sorted prefix within their budget, and none excluded is more confident |
| InjectionBuilder.DropAndRestore | packages/sidecar/src/codex.ts:410-452 | the loops over `slim`, `saved` and `dropped`, with splice and re-sort, leave exactly the document and degrade-ordered list of the specified selection |
| InjectionBuilder.BuildInjection | packages/sidecar/src/codex.ts:368-466 | the document and lists returned, for any renderer: `learned` holds the kept entries alone, every other key the codex's own body, dropped sections gone in degrade order, the map stripped; learned refs split by confidence; in budget unless nothing is left to drop |
| InjectionRendering.LengthAfterDrop | packages/sidecar/src/codex.ts:400-422 | dropping any section changes the length by its cost in the note, the note itself when it is the first, minus what it saves |
| InjectionRendering.WholeNote | packages/sidecar/src/codex.ts:405-406 | the drop note of a document that gave up everything, word for word |
| InjectionRendering.RestoringShortensExactly | packages/sidecar/src/codex.ts:400-426 | restoring a section shortens the text if and only if it saves less than it costs in the note |
| InjectionRendering.RestoringNeverShortensExactly | packages/sidecar/src/codex.ts:400-426 | no restore shortens the text if and only if every section saves at least a drop note naming it alone |
| InjectionRendering.RestoringAnEmptyMapShortens | packages/sidecar/src/codex.ts:412-426 | restoring the symbols of an empty map shortens the text, whatever else is dropped |
| InjectionRendering.RealInjectionKeepsTheMostProtected | packages/sidecar/src/codex.ts:400-452 | with the real drop note and token estimate, the injection fits and keeps the most protected selection in budget |
| InjectionRendering.GreedyPassStrandsAnEmptyCodex | packages/sidecar/src/codex.ts:400-452 | an empty codex in budget, with every section the schema defaults, is kept whole by the two phases and not by a greedy pass from all-dropped |
| Confidence.ConfidenceInRange | packages/shared/src/confidence.ts:14-25 | the persisted confidence lies between 0 and 1 |
| Confidence.OneObservationIsNotEnough | packages/shared/src/confidence.ts:14-33 | one observation never reaches the graduation threshold, at any age |
| Confidence.TwoFreshObservationsAreEnough | packages/shared/src/confidence.ts:14-33 | two fresh uncontradicted observations reach it |
| Confidence.ThreeContradictionsSink | packages/shared/src/confidence.ts:14-46 | three contradictions sink any entry below the withdrawal threshold, however often it was observed |
| Confidence.TwoSessionsDieOnFirstContradiction | packages/shared/src/confidence.ts:14-46 | a two-session entry dies on its first contradiction |
| Confidence.SevenSessionsSurviveTwoContradictions | packages/shared/src/confidence.ts:14-46 | a fresh entry of seven or more sessions survives two |
| Confidence.DecayFinishesAnOldContradiction | packages/shared/src/confidence.ts:14-46 | a seven-session entry contradicted once survives fresh and sinks once its recency factor has halved |
| Confidence.HalvedRecencySinksTheContradicted | packages/shared/src/confidence.ts:14-46 | once the recency factor has halved, one contradiction sinks any entry |
| Candidates.CandidateList.MergeCandidates | packages/sidecar/src/graduation.ts:285-339 | the merged list and the merged and skipped counts of one batch; every candidate is new, merged or skipped |
| Candidates.OneMoreCandidate | packages/sidecar/src/graduation.ts:285-339 | what one more mined candidate does: a record of its own, or its first record seen again, field by field |
| Candidates.OneMoreMerged | packages/sidecar/src/graduation.ts:296-336 | a candidate counts as merged exactly when it has a record that does not remember the session |
| Candidates.OccurrencesCountSessions | packages/sidecar/src/graduation.ts:285-339 | within the session cap, a candidate has one record and its occurrences are its distinct observing sessions |
| Candidates.OrderAndRerunsDoNotMatter | packages/sidecar/src/graduation.ts:277-284 | two histories with the same observations count the same |
| Candidates.SameBatchesSameCounts | packages/sidecar/src/graduation.ts:277-284 | shuffling or repeating batches changes no count |
| Candidates.RefreshRemembers | packages/sidecar/src/graduation.ts:311-336 | re-observation adds one occurrence for a new session and none for a remembered one, cap included |
| Graduation.Graduator.SweepSession | packages/sidecar/src/graduation.ts:611-624 | every graduated record the session contradicts gains one contradiction, once per session, and no other changes |
| Graduation.SweepCountsConflicts | packages/sidecar/src/graduation.ts:366-418 | a session adds a contradiction to a record if and only if it is graduated, has not counted that session, and a failure of its signature, or a zoom of its file up to a /-boundary suffix, is later than its graduation; recurrences never |
| Graduation.Graduator.Withdraw | packages/sidecar/src/graduation.ts:453-488 | the withdrawal loop's records, codex and reported ids |
| Graduation.Graduator.Graduate | packages/sidecar/src/graduation.ts:490-545 | the graduation loop's records, codex and reported ids |
| Graduation.Graduator.RunPass | packages/sidecar/src/graduation.ts:434-562 | one pass: confidences, then withdrawals, then graduations; without a codex only confidences |
| GraduationEffects.MiningExactly | packages/sidecar/src/graduation.ts:600-641 | a run merges and then sweeps each session in order, and drafted lessons fill gaps and nothing else |
| GraduationEffects.PassExactly | packages/sidecar/src/graduation.ts:434-545 | one pass in closed form: the sunk records and the entries they take with them, exactly the ripe unlisted records that graduate, one per candidate, the entry each appends, and nothing else |
| Lifecycle.ProtectedEntriesSurvive | packages/sidecar/src/graduation.ts:455-466 | human and locked pitfalls and conventions are identical after any runs, cut runs, regenerations and clock advances |
| Lifecycle.OneMoreStep | packages/sidecar/src/graduation.ts:585-655 | what each step of a lifecycle run does to records, codex and clock |
| LifecycleProtection.AuthoredRoleSurvives | packages/sidecar/src/codex.ts:152-155 | a role someone wrote or locked, its origin and its lock survive every run whose regenerations still list the path |
| GraduationEffects.RegenerationExactly | packages/sidecar/src/codex.ts:135-157 | what a regeneration carries over, section by section and role by role, and what it takes from the generated codex |
| Lifecycle.OneEntryPerCandidate | packages/sidecar/src/graduation.ts:490-545 | over every interleaving, runs cut between the two writes included, a candidate owns at most one codex entry, in the section of its type |
| LifecycleProtection.LockingKeepsProtected | packages/sidecar/src/graduation.ts:457-464 | a human locking entries loses nothing protected and protects what was locked |
| LifecycleProtection.ProtectedContentSurvives | packages/sidecar/src/codex.ts:135-157 | with humans locking and adding on the way, every human or locked entry keeps content and order over every interleaving |
| LifecycleAgreement.AgreementHolds | packages/sidecar/src/graduation.ts:434-562 | records and codex agree after every interleaving without cut runs |
| LifecycleAgreement.GraduatedExactlyWhenOwning | packages/sidecar/src/graduation.ts:434-562 | from a fresh repository, a record is graduated exactly when it owns its one entry, except withdrawn records whose entries a human locked |
| LifecycleEvidence.GraduatedWasObservedTwice | packages/sidecar/src/graduation.ts:285-339 | with no cap assumption, whatever ever graduated was observed in two distinct sessions |
| LifecycleEvidence.ContradictionsStayFew | packages/sidecar/src/graduation.ts:611-625 | with single-session runs: at most two contradictions while graduated, three ever, the cap never evicts, and the counter is the number of distinct sessions of completed runs that contradicted the candidate while it was graduated |
| LifecycleContradictions.ContradictionsCountSessions | packages/sidecar/src/graduation.ts:611-624 | over runs of any number of sessions, within the cap of twenty, the counter is the number of distinct sessions that contradicted the graduated candidate |
| LifecycleEvidence.DecayAloneNeverWithdraws | packages/shared/src/confidence.ts:35-46 | an uncontradicted graduated record stays graduated through a pass at any clock |
| LifecycleEvidence.SilenceFinishesAContradictedEntry | packages/sidecar/src/graduation.ts:453-470 | a pass that records no contradiction can still withdraw a record contradicted before |
| LifecycleEvidence.SilenceIsHarmlessExactlyWithoutContradictions | packages/shared/src/confidence.ts:35-46 | a graduated record survives a pass at every clock if and only if it has no recorded contradiction |
| LifecycleEvidence.WithdrawnIsTerminal | packages/shared/src/confidence.ts:27-33 | over every run a withdrawn record stays withdrawn |
| LifecycleEvidence.PassIsIdempotent | packages/sidecar/src/graduation.ts:425-433 | a second pass at the same clock changes neither records nor codex |
| ErrorFixMining.MineErrorFixPairs | packages/sidecar/src/graduation.ts:115-159 | the pending-fail loop over the time-ordered trace returns one fix per closed pair |
| ErrorFixMining.TimeOrderIsStable | packages/sidecar/src/graduation.ts:247-248 | the mined trace is the audit trace in time order, simultaneous events in the order they were written |
| ErrorFixMining.PairsAreConsecutiveVerdicts | packages/sidecar/src/graduation.ts:117-133 | the pairs are exactly the consecutive fail-then-pass verdicts of one profile |
| ErrorFixMining.PairsUseEachVerdictOnce | packages/sidecar/src/graduation.ts:131-133 | each fail and each pass is used at most once, in order of the pass |
| ErrorFixMining.MinedFixesAreThePairs | packages/sidecar/src/graduation.ts:115-159 | one candidate per consecutive fail-then-pass pair of the ordered trace, in order of the passes, each telling both events, the signature, the files changed between them and the latest command |
| ErrorFixMining.ChangedPathsInWindow | packages/sidecar/src/graduation.ts:134-141 | the changed files are exactly those touched between fail and fix |
| Mirror.EntryPathsClashExactly | packages/sidecar/src/mirror.ts:71-76 | two sources share an entry file exactly when one is a binary document and the other its .txt namesake |
| Mirror.EntryPathExactly | packages/sidecar/src/mirror.ts:71-76 | exactly the files named .pdf or .docx, in any letter case, have their entries named apart |
| Mirror.MirrorStore.RefreshMirror | packages/sidecar/src/mirror.ts:286-362 | index, entry files and written list after a refresh |
| Mirror.MirrorStore.WriteMirrorEntry | packages/sidecar/src/mirror.ts:121-158 | one entry file and one index row change |
| Mirror.MirrorStore.PrepareSkeletonEntry | packages/sidecar/src/prepare.ts:78-172 | on-demand preparation, and what it returns is what the hook would then serve |
| MirrorFreshness.HookServesOnlyCurrentBuilds | packages/hooks/src/handlers.ts:266-279 | in every state reachable by edits, deletions, refreshes, preparations and losses, what the hook serves was built from the file's current bytes, with symbols of the fingerprint it is indexed under |
| MirrorFreshness.RefreshBuildsWithTheFirstDirective | packages/sidecar/src/mirror.ts:255-349 | every entry a refresh writes is built from the file's bytes with the symbols of the first directive naming it, none without one, and indexed under both hashes |
| MirrorFreshness.OneMorePath | packages/sidecar/src/mirror.ts:304-356 | what one more path does to a refresh: a current entry is left alone, a file that builds is written, anything else is forgotten |
| MirrorFreshness.OneMoreStep | packages/sidecar/src/mirror.ts:286-362 | what each step of a mirror run does to files, index and entries |
| MirrorFreshness.SharedEntryServesTheOtherFile | packages/sidecar/src/mirror.ts:73-76 | beside its .txt namesake a document is served the other file's skeleton: entry paths must be distinct |
| MirrorFreshness.SecondRefreshWritesNothing | packages/sidecar/src/mirror.ts:279-285 | refreshing again on unchanged input writes nothing and changes nothing |
| MirrorFreshness.PassKeepsFingerprintsInStep | packages/sidecar/src/graduation.ts:550-559 | refreshing only paths matching an old or new directive brings every fingerprint in step with the new directives |
| MirrorFreshness.PrepareKeepsFingerprintsExactly | packages/sidecar/src/prepare.ts:162-170 | preparation keeps fingerprints in step if and only if there is no file, no builder, a fresh entry or nothing built, or no directive matches |
| MirrorFreshness.IndexStaysWellKeyed | packages/sidecar/src/mirror.ts:304-307 | both writers key the index by normalized paths that have a builder |
| MirrorAfterPass.CleanPassKeepsCodex | packages/sidecar/src/graduation.ts:450-451 | a pass that moves no record leaves the codex as it was |
| MirrorAfterPass.MirrorFollowsTheDirectives | packages/sidecar/src/graduation.ts:547-560 | fingerprints that agreed with the learned directives before a pass agree with the new ones after it |
| ServedFiles.Store.RecordServedFile | packages/sidecar/src/store.ts:142-155 | one row per session and path, overwritten |
| ServedFiles.Store.InsertArtifact | packages/sidecar/src/store.ts:76-97 | a duplicate id is refused and the table left alone |
| ServedFiles.Store.ServeFile | packages/sidecar/src/serve.ts:39-70 | full, unchanged or diff against the registry row, and the row afterwards |
| ServedFiles.EveryServeNamesItsContent | packages/sidecar/src/serve.ts:46-70 | in every mode the returned reference names the file and the content served; the mode and text by what was served before |
| ServedFiles.Store.ResolveFileRef | packages/sidecar/src/distill.ts:551-575 | the scan resolves a reference as specified, for any row order |
| ServedFiles.ResolvesExactly | packages/sidecar/src/distill.ts:551-575 | a reference resolves to what the first row that answers says: the latest stored artifact of that version, within eight, else its own copy, else nothing |
| ServedFiles.Store.HoldsRef | packages/sidecar/src/distill.ts:547-549 | a store holds a handle exactly when it is a stored artifact id or resolves |
| ServedFiles.ResolvedContentHasTheHash | packages/sidecar/src/distill.ts:551-575 | after any serves and inserts, whatever a reference resolves to has the hash it names, even when file ids or content hashes collide |
| ServedFiles.LatestReferenceResolves | packages/sidecar/src/distill.ts:538-543 | after any serves and inserts, the reference the last serve of a file returned resolves, in whatever mode, unless its content has the hash of the empty text |
| ServedFiles.LatestReferenceResolvesToTheContent | packages/sidecar/src/distill.ts:538-575 | and, hashes not colliding, it resolves to exactly the content that serve was given |
| ServedFiles.ReplayRebuildsTheLatest | packages/sidecar/src/serve.ts:52-70 | replaying full texts and diffs rebuilds the latest content after every serve |
| PdfText.TextInterpreter.ShowString | packages/sidecar/src/docs.ts:266-317 | one show string at the pen, the three repaint shapes included |
| PdfText.TextInterpreter.Execute | packages/sidecar/src/docs.ts:340-391 | one text or graphics-state operator of ISO 32000-1 section 9.4, on pen and text |
| PdfText.PdfStreamLines | packages/sidecar/src/docs.ts:225-394 | the interpreter's lines for a whole stream |
| PdfText.NothingInventedOrReordered | packages/sidecar/src/docs.ts:225-394 | for every stream the joined lines are a subsequence of the joined shown strings |
| PdfText.LosslessExactly | packages/sidecar/src/docs.ts:265-317 | for every stream the lines carry exactly the shown text if and only if no placed show meets one of the three repaint shapes against the one before it |
| PdfText.LosslessExactlyWithoutRepaints | packages/sidecar/src/docs.ts:265-317 | outside clip regions the lines carry exactly the shown text if and only if no placed show repaints the one before it |
| PdfShows.ShowExactly | packages/sidecar/src/docs.ts:265-317 | what one show leaves on the line, in each of the three repaint shapes and outside them |
| PdfShows.LosesTextExactly | packages/sidecar/src/docs.ts:265-317 | the three shapes that lose text, in terms of baseline, distance, ink and clip |
| PdfLines.LinesFollowTheSegments | packages/sidecar/src/docs.ts:318-394 | every line is what is kept of one segment of the shown text, cut exactly where an operator starts a line: T*, ', a Td of more than 0.6, a Tm whose baseline jumps more than 0.6 of the scale |
| PdfLines.LinesAreTheSegmentsExactly | packages/sidecar/src/docs.ts:318-394 | the lines are exactly the non-empty segments if and only if no placed show loses text |
| PdfPen.PenAfterMatrix | packages/sidecar/src/docs.ts:352-376 | after a text matrix the pen stands at its origin plus the scaled moves since, until T* forgets where on the line |
| PdfPen.PlacedByTheLastMove | packages/sidecar/src/docs.ts:266-272 | a show is placed when a text matrix or a move was the last to touch the pen |
| PdfPen.InClipExactly | packages/sidecar/src/docs.ts:377-386 | a show is clipped exactly when some clip was set in a saved state that is still open |
| ZipReader.ZipEntries | packages/sidecar/src/docs.ts:507-534 | central directory reading on any buffer, every header read within bounds |
| ZipReader.ZipRead | packages/sidecar/src/docs.ts:536-552 | entry data on any buffer, every header read within bounds |
| ZipBytes.EntriesExactly | packages/sidecar/src/docs.ts:507-534 | for every buffer, the entries are exactly those listed, field by field, by the headers the last end record within 65557 bytes points to; none without one or with a header missing |
| ZipBytes.DataExactly | packages/sidecar/src/docs.ts:536-552 | for every buffer and entry, the data behind its local header, stored or inflated, and nothing without one |
| ZipFormat.EntriesReadBack | packages/sidecar/src/docs.ts:507-534 | the entries of every well-formed archive (PKWARE APPNOTE.TXT sections 4.3.7, 4.3.12, 4.3.16) are read back in the order its directory lists them |
| ZipFormat.ArchiveReadsBack | packages/sidecar/src/docs.ts:507-552 | every entry has its member's name, and its stored data byte for byte, local sizes left to a data descriptor included |
| Sections.BestPerLine | packages/sidecar/src/html.ts:314-330 | one landmark per line, in line order, exactly on the lines that have one |
| Sections.HeldIsMostInformative | packages/sidecar/src/html.ts:316-327 | the landmark speaking for a line is the first of the most informative kind on it |
| Sections.HeldExactly | packages/sidecar/src/html.ts:314-330 | the last landmark to tell more than all before it on the line speaks for it, with the id of the last such landmark that has one |
| Sections.TilesRebuild | packages/sidecar/src/docs.ts:935-940 | joining the slices of consecutive ranges gives the covered lines back byte for byte |
| SectionMaps.HtmlSections | packages/sidecar/src/html.ts:389-394 | HTML sections tile the source, one per landmark after an optional preamble |
| SectionMaps.HtmlSectionsRebuildTheSource | packages/sidecar/src/html.ts:344-348 | joining a page's section texts with newlines gives the page back, CRLF included |
| SectionMaps.HtmlSkeleton | packages/sidecar/src/html.ts:349-401 | from collected landmarks to sections whose texts rebuild the page |
| SectionMaps.DocBounds | packages/sidecar/src/docs.ts:829-845 | document bounds are ordered, disjoint and cover every non-blank line |
| SectionMaps.DocSections | packages/sidecar/src/docs.ts:829-924 | so are the sections after trailing blank lines are cut, each starting at its heading |
| SectionMaps.DetectedHeadingsAreInOrder | packages/sidecar/src/docs.ts:684-753 | the headings are exactly the lines with ink that classify as one, in order |
| SectionMaps.DetectedDocSections | packages/sidecar/src/docs.ts:817-924 | with detected headings the sections are ordered, disjoint and covering for every text |
| SectionMaps.EveryLineInExactlyOneSection | packages/sidecar/src/docs.ts:817-924 | every non-blank line lies in exactly one section |
| SectionRefs.ResolveSectionRefs | packages/sidecar/src/docs.ts:1253-1287 | the resolutions of a list of references |
| SectionRefs.ResolvesToStrictBestElseFirst | packages/sidecar/src/docs.ts:1269-1284 | several candidates resolve to the unique strict positive best agreement, else to the first in document order |
| SectionRanking.ReferenceResolvesAsSpecified | packages/sidecar/src/docs.ts:1253-1287 | a reference resolves to the only section it may mean, the one the ask names, or the first, and says whether the ask told |
| SectionRanking.OneResolutionPerReference | packages/sidecar/src/docs.ts:1258-1286 | one resolution for every reference some section may answer, in the ask's order |
| SectionRanking.SelectedExactly | packages/sidecar/src/docs.ts:1302-1348 | a section is selected if and only if the ask speaks for it and fewer than the cap rank before it: reference, heading strength, resolution, body volume, document order |
| SectionRefs.NoOmittedSectionOutranks | packages/sidecar/src/docs.ts:1337-1345 | no section left out outranks a selected one |
| SectionRefs.EveryResolvedSectionIsSelected | packages/sidecar/src/docs.ts:1302-1348 | resolved sections numbering at most the cap are all selected, whatever the body keyword counts |
| SectionRefs.SelectionInDocumentOrder | packages/sidecar/src/docs.ts:1344-1347 | the selection is in document order, each section once, and as many as fit |
| Posture.Walker.Visit | packages/sidecar/src/posture.ts:57-86 | the recursive closure over `files`, `sourceBytes`, `dirs` and `capped` |
| Posture.AssessSessionPosture | packages/sidecar/src/posture.ts:91-129 | the decision equals that of a complete walk unless pinned, `full` past the directory ceiling, and at most 121 files are counted |
| Posture.EarlyStoppingDecidesTheSame | packages/sidecar/src/posture.ts:46-89 | for every directory tree the early-stopping walk decides what the complete walk decides |
| Posture.PostureExactly | packages/sidecar/src/posture.ts:46-89 | the posture of every tree and codex, from the files, bytes and directories a complete walk reaches |
| PipeQuoting.PosixUnquotesEveryString | packages/hooks/src/pipe-allowlist.ts:97-99 | POSIX unquoting (IEEE Std 1003.1 Shell Command Language, sections 2.2.1 and 2.2.2) of a quoted string is one word, the string |
| PipeQuoting.PowerShellUnquotesExactly | packages/hooks/src/pipe-allowlist.ts:102-104 | the doubling form is undone exactly for strings without typographic single quotes |
| PipeQuoting.RewriteWrapsOnce | packages/hooks/src/pipe-allowlist.ts:134-168 | a rewrite is the original prefix plus the wrapped remainder, and is never rewritten again |
| PipeQuoting.RewritesExactly | packages/hooks/src/pipe-allowlist.ts:134-168 | a command is rewritten if and only if it names no launcher and its tail is allowed and not denied; exactly its `cd` prefix is kept and the rest quoted for the shell |
| PipeQuoting.LauncherReceivesTheTail | packages/hooks/src/pipe-allowlist.ts:167 | the shell hands the launcher its own words, `-c` and the remainder as one word |
| PipeQuoting.AnchoredInvokeWords | packages/hooks/src/pipe-allowlist.ts:163-166 | the anchored launcher is two words whatever its path contains |
| Meter.UsageIsFullySplit | packages/meter/src/parser.ts:57-88 | every usage gets a full tier split summing to its cache writes; without a breakdown all of it is assumed 1-hour |
| Meter.AddKeepsTheSplit | packages/shared/src/schemas.ts:299-310 | adding tallies keeps the tier-split refinement |
| MeterTotals.TalliesAddUp | packages/shared/src/schemas.ts:299-310 | tallies add count by count, a missing tier adding nothing |
| Meter.ParseSession | packages/meter/src/parser.ts:106-178 | the folding loop returns one turn per key in order of appearance, and counts every line once |
| Meter.EachMessageCountedOnce | packages/meter/src/parser.ts:108-115 | a message's tokens enter the totals once however many records repeat it |
| MeterTotals.RepliesAreKeyedByName | packages/meter/src/parser.ts:155-157 | a reply is folded under its message id, else its uuid, else a number of its own |
| MeterTotals.NamelessRepliesStayApart | packages/meter/src/parser.ts:157 | replies without a name are never folded into one another |
| MeterTotals.OneMoreReply | packages/meter/src/parser.ts:57-172 | what one more reply does to turns and totals, token by token and tier by tier |
| Meter.EveryToolCallKept | packages/meter/src/parser.ts:158-171 | folding loses and invents no tool call |
| Meter.BuildLedger | packages/meter/src/ledger.ts:30-58 | totals and per-tool attribution of a session |
| Meter.ToolRowCountsItsCalls | packages/meter/src/ledger.ts:49-54 | a tool but `__proto__` is on the ledger exactly when it was called; its row is a number, its calls, exactly when objects inherit no such name |
| MeterTotals.OneMoreTurn | packages/meter/src/ledger.ts:46-55 | one more turn adds to a tool's row its calls and an equal part of the output for each |
| Meter.SharesSumToToolTurnOutput | packages/meter/src/ledger.ts:48-54 | all rows are numeric and the shares sum to the output tokens of the turns that used a tool, if and only if no tool called has an inherited name and no turn calling `__proto__` had output |
| Meter.SplitSumsEverywhere | packages/shared/src/schemas.ts:33-42 | in every parsed turn and in the totals, 5-minute plus 1-hour writes equal the cache writes |
| Meter.UnknownTierNeverUndercharges | packages/meter/src/cost.ts:21-33 | the unknown-tier charge covers every true split if and only if the 1-hour rate is the higher or nothing was written |
| MeterTotals.EachTokenAtItsRate | packages/meter/src/cost.ts:21-33 | every input, output, thinking and cache-read token costs its rate, and no tokens nothing |
| MeterTotals.EachWriteAtItsTier | packages/meter/src/cost.ts:21-33 | every cache write costs its tier's rate, the one-hour rate without a split |
| VaultRollup.RollupLines | packages/vault/src/rollup.ts:100-195 | the rollup of a scope: totals, document and session groups, confidence bands |
| VaultRollup.OneMoreLine | packages/vault/src/rollup.ts:85-152 | what one more ask, serve or zoom line does to every figure, row and band of a scope, and what no lines give |
| VaultRollup.SessionRowIsItsScope | packages/vault/src/rollup.ts:130-144 | a session's row in any rollup is what the rollup of that session alone would say, and only sessions with lines have one |
| VaultRollup.DocumentRowIsItsScope | packages/vault/src/rollup.ts:113-128 | a document's row counts and sums exactly the counted lines that name it |
| VaultRollup.SessionsAddUp | packages/vault/src/rollup.ts:130-144 | per-session avoided tokens sum to the avoided total |
| VaultRollup.AskLinesNeverCount | packages/vault/src/rollup.ts:109-111 | removing every ask line changes no token or cost total |
| VaultRollup.BandsSumToAsks | packages/vault/src/rollup.ts:146-152 | the confidence bands, unrated included, sum to the asks |
| VaultRollup.DaysAddUpToTheMonth | packages/vault/src/rollup.ts:93-98 | day rollups over the days of a month add up to the month, for every figure |
| VaultRollup.TheDaysOfAMonth | packages/vault/src/rollup.ts:93-98 | such a set of days always exists: the days its own lines carry |
| VaultAsks.ResumeAskCounter | packages/vault/src/tools.ts:44-52 | the nested loops compute the specified resumed counter |
| VaultAsks.ResumedCounterIsAttained | packages/vault/src/tools.ts:44-52 | the resumed counter is the number of a recorded ask of the session, or unchanged |
| VaultAsks.AskNumberReadsBack | packages/vault/src/tools.ts:48 | the number parsed from an ask id is the one it was made with, whatever the session is called |
| VaultAsks.AskNumberExactly | packages/vault/src/tools.ts:48 | the number of any id is what the digits after a final `#ask` say, and 0 when it does not end so |
| VaultAsks.AppendAsk | packages/vault/src/tools.ts:253-291 | the ledger after a completed ask: a serve line per measured step, then the ask line |
| VaultAsks.AskIdsNeverRepeat | packages/vault/src/tools.ts:194-195 | across any run of asks, failed asks, closed sessions and restarts no two ask lines share an id |
| VaultNumbering.NumbersRepeatExactlyAfterStranding | packages/vault/src/tools.ts:36-52 | over every run, a session is given a number twice if and only if one of its asks failed, the session ended before another completed, and its identity asked again |
| VaultNumbering.AskIdsRepeatExactlyAfterStranding | packages/vault/src/tools.ts:194-195 | and so for ask ids over all sessions |
| VaultAsks.FailedAskNumberIsReused | packages/vault/src/tools.ts:194-195 | after a failed ask and the end of its session, its number is given to the next ask |

## Left out

- Floating point: confidences, token shares, costs and PDF coordinates are exact reals; rounding is kept only where the code rounds on purpose.
- UTF-16: strings are sequences of characters, so a length or a slice counts characters where the code counts code units.
- InjectionBuilder.BuildInjection: returns the selection the text is rendered from; key order in the YAML, the preamble text and `injectedPitfalls` are not modelled.
- Lifecycle.OneEntryPerCandidate: humans may lock, add and edit but not delete or unlock graduated entries; deleting the codex file is not a step.
- Graduation.Graduator.RunPass: timestamps within one pass are equal; audit events, evidence lists, changed-file summaries beyond their text, and extraction-era records with only `lastMinedSession` are not modelled.
- Lesson drafting by the local model: drafts are given, for any subset of the records that have no lesson, without the per-run ceiling of 20.
- Zoom-hotspot and recurrence mining are inputs of a run: a re-run sees more prior records and may mine new recurrences, so repeat-safety is claimed for merging and for the pass, not for the miner as a whole.
- Malformed lines of the candidate file, and its schema validation.
- Mirror headers, raw sizes and line counts in the index, and the quality gates behind an on-demand skeleton: a builder returns the entry text or nothing.
- Interleavings inside one refresh, preparation, serve or ask: the steps are atomic.
- ServedFiles.Store.ServeFile: audit events and timestamps are left out; a superseded version of a file is not recoverable, since the registry keeps one per session and path.
- ServedFiles.Store.ResolveFileRef: artifacts of a file are scanned latest first by insertion, where the table sorts by timestamp text; handles arrive parsed.
- PDF fonts, character decoding, `Tf`, stream decompression and object parsing: show strings arrive decoded.
- ZipFormat.ArchiveReadsBack: nothing precedes the first local header or stands between central directory and end record; stored entries are proved byte for byte, deflated ones up to the inflater; encryption, ZIP64 and multi-disk archives are outside the reader; names stay bytes.
- Heading expressions, section titles, ids, summaries, pages and running headers; global uniqueness of section ids fails in the code when a base id already ends in a suffix.
- Document ranking across a corpus, keyword extraction and the parsing of section references from an ask: their results are parameters of one query.
- Mirror.MirrorStore.WriteMirrorEntry: the header line and the raw size and line count of an index row are left out.
- Mirror.MirrorStore.PrepareSkeletonEntry: the reasons of a refusal and the artifact stored for zooming are left out.
- Candidates.CandidateList.MergeCandidates: the evidence list of a record is left out.
- Posture.AssessSessionPosture: the configuration and codex are read beforehand; the `capped` flag of the assessment, which no decision reads, is left out.
- PipeQuoting.LauncherReceivesTheTail: the launcher words must be simple words for the modelled shell grammar, which refuses expansions and operators outside quotes.
- PowerShell is modelled for single-quoted strings only.
- Meter.ParseSession: timestamps and session ids of turns and the skip audit event are left out.
- Meter.BuildLedger: session ids, timestamps and per-turn entries are left out, and so is what a call of `__proto__` leaves on every object, after which tools named `calls` and `outputTokenShare` misbehave too.
- Prices, energy and carbon tables, receipts, badges, reports, bench and doctor output.
- VaultRollup.RollupLines: energy and carbon bands, top distillations, sorting of the groups and the context fields are left out; a scope without its day or month gets one from the clock beforehand.
- VaultAsks.AskIdsNeverRepeat: one live session per identity and a fixed set of mounted corpora, as the comment at packages/vault/src/tools.ts:36-43 assumes; zoom lines count as lines that are not asks; numbers are unbounded.
- HTTP and stdio servers, hooks' standard input and output, process spawning, pidfiles, port probing and the installer.
- Tree-sitter, zlib, SHA-256, the diff library, YAML and SQLite.
