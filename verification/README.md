# Verified models of the yggterm measurement and migration scripts

yggterm keeps a set of Python scripts that people rely on to decide things: where a
surface build begins, which live row stands for which codex session, whether one
configuration is faster than another, whether a screen shows what its buffer holds,
what a process cost, whether a summary is made up, whether a listing is complete.
Each module here models one of them and proves what it may be trusted for, on all
inputs. Loops and in-place updates of the scripts are Dafny methods and classes,
proved against functions on values; the lemmas are about those functions.

| module | script | what is modelled |
|---|---|---|
| `PaintChain`, on `GreedyCuts` | `scripts/paint-chain.py` | cutting an interleaved trace into the builds of each host's surface |
| `CodexIdentity`, `UuidLayout`, `SessionOffers`, `KeyRenames`, `LiveSessionMigration` | `scripts/migrate_uuidv4_codex_live_sessions.py` | allocating codex ULIDs to live rows and renaming them everywhere |
| `FocusTrace`, `Medians`, `Contrast` | `scripts/gl_ab_analyze.py` | focus intervals, the Hodges-Lehmann shift, bootstrap, strata and verdict |
| `CellGrid`, `Spans`, `PaintRows` | `scripts/paint-diff.py` | cell edges, ink, column ranges and row verdicts |
| `Recorder` | `scripts/resource-recorder.py` | CPU from counter deltas, retention by byte budget |
| `Grounding` | `scripts/audit-summary-grounding.py` | anchors, stems and the grounding ratio |
| `CwdTree` | `scripts/check-cwdtree.py` | the oracle's set comparisons |
| `ProcessTree` | `scripts/remote_linux_idle_cpu_smoke.py` | descendants of a process |
| `ArrowBody` | `scripts/check_architecture_contracts.py` | brace matching |

`Options`, `Seqs`, `Text`, `Sorting` and `Counting` hold what several modules share. Python's sort
is a stable insertion sort there; for the antisymmetric orders used here
`Sorting.SortForgetsOrder` shows that every sort gives the same result.

`dafny verify dfyconfig.toml` checks the project.

## Where the code and its documentation part

The code was followed in each case.

- `build` opens a build on any record named `mount_open` once the surface is open, while
  its comment (`scripts/paint-chain.py:168-169`) speaks of a second surface. A native
  record of that name can therefore cost one build too many. `BuildsAreFewestIff` gives the
  exact condition, that such a record trails the host's last canvas open;
  `NativeOpenSplitsASurface` is a stream of two records where it does. No emitter in the
  repository's sources writes a `terminal_mount` record of that name, the only one that writes it at all
  being the canvas (`crates/yggterm-shell/src/shell/terminal_scripts.rs:1858-1859`); without such
  records the cut is optimal (`BuildsAreFewest`).
- A superseded build is final except for its session label, which a later record can still
  fill in (`SessionOnExtension`, with `SupersededLabelChanges` for a stream where it happens).
- `is_uuidv4` promises the 8-4-4-4-12 hex layout of section 4 of RFC 9562
  (`scripts/migrate_uuidv4_codex_live_sessions.py:41`) but asks `int(p, 16)`, which also
  takes a `0x` prefix, a plus sign, blanks and underscores (`UuidIsNotAlwaysHexLayout`). The promise
  holds exactly for the ids none of whose groups begins or ends with a blank, begins with a plus
  sign or a base prefix, or holds an underscore (`UuidIsHexLayoutIff`).
- The two contrasts "must agree in sign before anything is claimed"
  (`scripts/gl_ab_analyze.py:239-240`). With no shared exposure bin nothing is compared
  and a result is still printed (`ResultWithoutStrata`). And the test asks only which of the two shifts
  is above zero, so a negative shift beside a stratified one of zero passes (`ZeroStratumPassesOneWay`),
  while the same arms compared the other way round are refused. `ResultSignsAgreeIff` gives the exact
  condition, that a bin is shared and not just one of the shifts is zero; `SwappingArms` shows that the
  latter is also exactly when the sign test treats both directions alike.
- A row that is `ok` need not have matching masks (`scripts/paint-diff.py:42`): ghosts
  make up for missing glyphs, down to not one glyph in its place (`AgreementWithoutMatch`). Nor is
  every row with ghosts a GHOST (`scripts/paint-diff.py:45`): one glyph in the buffer hides any number
  of them (`GhostsAreHidden`, `OneGlyphHidesGhosts`). `AgreementBounds` says exactly how far both go.
- Peer rows are not drift (`scripts/check-cwdtree.py:484`), unless one lands in a directory
  whose groups are all empty: that directory then stops being a local one
  (`PeersDoNotInterfere`, in both directions, also for the number of peer rows in the text of a drifted count;
  `PeersFillEmptyDirectory` and `PeerSilencesExtraDirectory` where it happens).
- A prune at the byte cap is to "drop the oldest fifth" (`scripts/resource-recorder.py:258`), yet there are
  two ways to be at the cap and lose no sample (`PruneDropsIff`, `NoSampleDroppedIff`). While the samples
  span less than 5 ms, only system rows older than all of them go (`FullFileKeepsItsSample`). While there
  are no samples, nothing goes at all, however many system rows fill the file (`FullFileKeepsItsSystemRows`).
- Stemming is there so that a changed form of a word is not scored as an invention
  (`scripts/audit-summary-grounding.py:82-86`). For a form made of a word and a suffix of the list the promise
  holds exactly when the word has four letters or more (`FormIsBorneOutIff`, `FormsKeepTheWordIff`), and so
  for summaries that reword only such words (`RewordingIsGrounded`). "tabs" is not borne out by "tab", and
  two such plurals among four words put an honest summary below the threshold
  (`ShortPluralsAreScoredAsInvented`). Forms spelled otherwise than word and suffix are not covered:
  "logging" of "log" and "making" of "make" are looked for as more than the word
  (`SpelledFormsOutgrowTheWord`); for any form at all, `BorneOutByWordIff` has the condition that its stem occurs
  in the word.
- Nor do a word and its -ing and -ed forms always share a stem: "process" loses its last letter and
  "processing" does not (`DoubleSIsCut`); for words of four letters or more they share it exactly when no
  suffix comes off the word (`InflectionsShareTheStemIff`).

## Model

| member | source | states |
|---|---|---|
| PaintChain.BuildSurfaces | scripts/paint-chain.py:109-184 | the one pass over the stream, updating shared entries in place, leaves separate entries that show exactly the builds of the stream, each labelled by the first session path its host reports |
| PaintChain.OpenBuild | scripts/paint-chain.py:130-142 | appends a fresh entry numbered by the host's builds so far and makes it current, with `current` still leading every host to its last build |
| PaintChain.AddRecord | scripts/paint-chain.py:171-180 | mutating the entry `current` holds changes that build in the list and no other |
| PaintChain.HostRecordsAre | scripts/paint-chain.py:100-106 | the records of a host are those whose host id is exactly its name, and the empty name has none |
| PaintChain.HostlessIsIgnored | scripts/paint-chain.py:144-148 | a record without a host id, or with an empty one, changes no build |
| PaintChain.RecordsStayWithTheirHost | scripts/paint-chain.py:144-180 | whatever the interleaving, all that a build holds are records of the stream that carry its own non-empty host id |
| PaintChain.LabelIsFirstPath | scripts/paint-chain.py:149-151 | a host's label is the path of its first record that carries a non-empty one |
| PaintChain.DisplayLabelTells | scripts/paint-chain.py:183 | the first build shows the host alone, a later one its number behind `#b`, which read back is the number |
| PaintChain.BuildsAreLocal | scripts/paint-chain.py:144-172 | a host's builds from an interleaved stream are its builds from its own records alone |
| PaintChain.BuildsAreSummaries | scripts/paint-chain.py:109-124 | a host's builds are the summaries, numbered 0, 1, 2, of the greedy cut of its records |
| PaintChain.BuildsHoldOneSurface | scripts/paint-chain.py:157-170 | for every stream, the runs behind a host's builds cut its records in order, and none holds two native begins, two canvas opens, or a begin after an open |
| PaintChain.BuildsOpenWhereTheyMust | scripts/paint-chain.py:157-170 | within a build no record is a begin after a begin or open, nor a mount_open after a canvas open; the first record of each later build is, against the build before |
| PaintChain.BuildsAreFewestIff | scripts/paint-chain.py:157-170 | no other cut into surfaces uses fewer builds if and only if no native mount_open trails the last canvas open; otherwise exactly one build too many |
| PaintChain.NativeOpenSplitsASurface | scripts/paint-chain.py:167-170 | a canvas open with a native mount_open behind it is one surface and two builds |
| PaintChain.BuildsAreFewest | scripts/paint-chain.py:122-124 | streams whose native records are never named mount_open are cut into the fewest possible surfaces |
| PaintChain.BuildsConserve | scripts/paint-chain.py:131-180 | a host's builds, joined, return its native and settle records in order and each canvas open exactly once, and are numbered from 0 |
| PaintChain.SummaryKeeps | scripts/paint-chain.py:171-180 | resets counts the bootstrap resets of the run, first_frame is its last canvas first_frame |
| PaintChain.SupersededIsFrozen | scripts/paint-chain.py:122-124 | on any extension of the stream a superseded build stays where and as it is |
| PaintChain.SessionOnExtension | scripts/paint-chain.py:149-182 | the session label changes on extension exactly when it was empty and the extension brings a path |
| PaintChain.SupersededLabelChanges | scripts/paint-chain.py:149-182 | a build superseded before any path was reported is labelled by the path of a later record |
| GreedyCuts.GreedyMinimal | scripts/paint-chain.py:144-172 | for any clash relation, the one-pass cut is minimal among all cuts into clash-free runs |
| CodexIdentity.HexLayoutIsUuid | scripts/migrate_uuidv4_codex_live_sessions.py:40-54 | an id in the RFC layout is recognised if and only if it does not start like a ULID |
| CodexIdentity.UuidIsNotAlwaysHexLayout | scripts/migrate_uuidv4_codex_live_sessions.py:49-54 | ids whose first group carries a base prefix are recognised though they are not in the layout |
| CodexIdentity.UuidIsHexLayoutIff | scripts/migrate_uuidv4_codex_live_sessions.py:40-54 | a recognised id is in the layout if and only if no group of it begins or ends with a blank, begins with a plus sign or a base prefix, or holds an underscore |
| CodexIdentity.ParsedGroupIsHexIff | scripts/migrate_uuidv4_codex_live_sessions.py:49-54 | those are all the ways in which `int(p, 16)` takes a dash-free group that is not all hex digits |
| UuidLayout.ParsesAsHexIff | scripts/migrate_uuidv4_codex_live_sessions.py:49-54 | `int(p, 16)` takes exactly blanks, a sign or none, a base prefix or none, digits with single underscores between them, and blanks |
| UuidLayout.HexLayoutIsRfc | scripts/migrate_uuidv4_codex_live_sessions.py:40-48 | the five groups of the split are thirty-six characters, hex digits but for the dashes at 8, 13, 18 and 23 |
| CodexIdentity.MachineOfKeyIff | scripts/migrate_uuidv4_codex_live_sessions.py:57-63 | a machine is read off a key exactly when the key was built from that slash-free machine and some id |
| CodexIdentity.Exclusion | scripts/migrate_uuidv4_codex_live_sessions.py:76-89 | excluding ULIDs removes exactly their candidates, and all candidates are ULIDs |
| SessionOffers.CandidatesAreOffered | scripts/migrate_uuidv4_codex_live_sessions.py:76-89 | candidates are exactly the sessions recorded under a machine of that key or ssh target, in that directory, under an id that begins with 019 and is not excluded, in file order |
| SessionOffers.ReplacementIsNewestOffered | scripts/migrate_uuidv4_codex_live_sessions.py:66-93 | the replacement is the latest of them, the first in the file on a tie; there is none if and only if none is recorded |
| CodexIdentity.NewestIsFirstLatest | scripts/migrate_uuidv4_codex_live_sessions.py:90-93 | the pick is the first candidate in file order that none outdates |
| CodexIdentity.FindReplacement | scripts/migrate_uuidv4_codex_live_sessions.py:66-93 | the nested loops and the sort return that pick |
| LiveSessionMigration.PlanFollowsLive | scripts/migrate_uuidv4_codex_live_sessions.py:113-175 | the plan has one row per eligible live row, in order, each decided on the ULIDs in use and those claimed before it |
| LiveSessionMigration.PlanIsSound | scripts/migrate_uuidv4_codex_live_sessions.py:113-175 | rows are planned exactly for live codex rows with made-up ids; a rebind takes the latest unused session of the row's own machine and directory, no ULID is found only when none is recorded there, no place only when the row has none |
| LiveSessionMigration.PlanIsInjective | scripts/migrate_uuidv4_codex_live_sessions.py:113-164 | planned ULIDs are pairwise distinct and held by no live row |
| LiveSessionMigration.BucketIsServedNewestFirst | scripts/migrate_uuidv4_codex_live_sessions.py:146-164 | within one machine and directory the chosen epochs never increase and the first refusal is final |
| LiveSessionMigration.BucketIsServedFully | scripts/migrate_uuidv4_codex_live_sessions.py:125-175 | when no other place among eligible rows offers its ULIDs, a bucket migrates exactly the smaller of its eligible rows and its distinct unclaimed ULIDs |
| LiveSessionMigration.MigrationRewritesRows | scripts/migrate_uuidv4_codex_live_sessions.py:200-209 | each rebound row keeps kind and directory under its ULID and the key of its machine and ULID; every other row stays |
| LiveSessionMigration.MigrationKeepsRowsApart | scripts/migrate_uuidv4_codex_live_sessions.py:200-209 | after the migration a rewritten id differs from the id of every other live row, and a rewritten key from the key of every other row whose key named its own id before |
| LiveSessionMigration.MigrationSubstitutesOrder | scripts/migrate_uuidv4_codex_live_sessions.py:210-214 | rewriting the order list row by row is one simultaneous substitution, length and places kept |
| LiveSessionMigration.MigrationRenamesKeepAlive | scripts/migrate_uuidv4_codex_live_sessions.py:215-218 | the keep-alive map is renamed entry for entry, and loses none if and only if no migrated row has both its old and its new key kept |
| LiveSessionMigration.MigrationIsIdempotent | scripts/migrate_uuidv4_codex_live_sessions.py:113-219 | planning on the migrated state finds nothing to do and a second run changes nothing, for every state |
| KeyRenames.OrderIsSubstituted | scripts/migrate_uuidv4_codex_live_sessions.py:210-214 | renames that cannot chain act on a list as one substitution |
| KeyRenames.EntriesAreMoved | scripts/migrate_uuidv4_codex_live_sessions.py:215-218 | renames that cannot chain or merge move every entry with its value, keep the others, and lose one per collision |
| LiveSessionMigration.ServerState.MakePlan | scripts/migrate_uuidv4_codex_live_sessions.py:113-175 | the planning loop with its two growing sets computes the plan |
| LiveSessionMigration.ServerState.Apply | scripts/migrate_uuidv4_codex_live_sessions.py:200-219 | the rewriting loop updates rows, order list and keep-alive map as the sequence of renames |
| LiveSessionMigration.ServerState.Run | scripts/migrate_uuidv4_codex_live_sessions.py:96-223 | a run changes nothing unless asked to apply, and then leaves the migrated state |
| FocusTrace.ReadFocusIntervals | scripts/gl_ab_analyze.py:101-135 | the loops over lines and sorted events compute the focus intervals |
| FocusTrace.FocusIsExact | scripts/gl_ab_analyze.py:101-135 | a time lies in an interval if and only if the last event at or before it, focus after unfocus on ties, is a focus event |
| FocusTrace.IntervalsAreOrdered | scripts/gl_ab_analyze.py:125-135 | intervals are non-empty, in order, and touch at most |
| FocusTrace.WhollyInsideIsExact | scripts/gl_ab_analyze.py:138-140 | a sample is wholly inside if and only if focus holds at its start and no unfocus event lies strictly inside it |
| FocusTrace.FocusIsAsTraced | scripts/gl_ab_analyze.py:101-135 | a time lies in an interval if and only if some line gains focus by then and no line loses it after that, up to then |
| FocusTrace.WhollyInsideIsAsTraced | scripts/gl_ab_analyze.py:138-140 | a sample is wholly inside if and only if that holds at its start and no line loses focus strictly inside it |
| FocusTrace.LineOrderIsIrrelevant | scripts/gl_ab_analyze.py:113-124 | permuting the trace lines changes nothing |
| Medians.HodgesLehmannAntisymmetric | scripts/gl_ab_analyze.py:217-219 | swapping the arms negates the shift |
| Medians.HodgesLehmannTranslates | scripts/gl_ab_analyze.py:217-219 | moving an arm moves the shift by as much |
| Medians.HodgesLehmannForgetsOrder | scripts/gl_ab_analyze.py:217-219 | permuting either arm changes nothing |
| Medians.HodgesLehmannBounded | scripts/gl_ab_analyze.py:217-219 | the shift lies between min a - max b and max a - min b |
| Medians.MedianIsMiddle | scripts/gl_ab_analyze.py:217-219 | a median is the mean of two of the values, at least half of them being no greater and at least half no smaller than each, as for the two middle ones |
| Medians.HodgesLehmannIsMiddle | scripts/gl_ab_analyze.py:217-219 | the shift is the mean of two pairwise differences that halve the count of all pairs in the same way |
| Contrast.BootstrapCI | scripts/gl_ab_analyze.py:222-232 | the resampling loop, for any choices of the generator, yields the two order statistics of the round shifts |
| Contrast.BootstrapIsSpanned | scripts/gl_ab_analyze.py:222-232 | both ends lie between pairwise differences of the samples and are in order |
| Contrast.BootstrapEndsAre | scripts/gl_ab_analyze.py:222-232 | each end is the shift of a round; at least 51 of the 2000 rounds lie at or below the lower one and 1950 at or above it, and the other way about for the upper one |
| Contrast.NotSignificantIff | scripts/gl_ab_analyze.py:281-282 | a contrast is not significant if and only if at least 51 rounds lie at or below zero and at least 51 at or above it |
| Contrast.MatchedStrata | scripts/gl_ab_analyze.py:235-252 | grouping both arms by exposure bin and collecting the shared bins in order |
| Contrast.StrataAreMatched | scripts/gl_ab_analyze.py:235-252 | a bin is shared if and only if both arms have it; the strata of both arms are empty together |
| Contrast.StrataKeepMatchingRows | scripts/gl_ab_analyze.py:244-252 | a stratum holds each sample whose bin is shared exactly as often as its arm does |
| Contrast.SharedBinsAre | scripts/gl_ab_analyze.py:244-248 | the shared bins, in increasing order, are the tens of exposures that both arms reach |
| Contrast.ExposureGateIff | scripts/gl_ab_analyze.py:262-271 | the gate passes if and only if neither median exposure is positive or neither exceeds the other by more than a fifth of itself |
| Contrast.OutcomesAre | scripts/gl_ab_analyze.py:255-286 | which missing or refused arms give which outcome; what is reported is of the left arm against the right |
| Contrast.VerdictsAre | scripts/gl_ab_analyze.py:280-286 | each of the four verdicts if and only if its case holds, the cases told on shift, interval, stratified shift and drift |
| Contrast.ReportIsSpanned | scripts/gl_ab_analyze.py:273-278 | every number reported lies between two pairwise differences of the arms |
| Contrast.SeparatedArms | scripts/gl_ab_analyze.py:255-291 | arms with every sample above the other's are reported with shift, both ends of the interval and stratified shift strictly of that sign and the ends in order, whatever the generator draws; only the exposure gate or the drift control can withhold the result |
| Contrast.ResultWithoutStrata | scripts/gl_ab_analyze.py:278-286 | two one-sample arms of 20 and 19 flushes share no bin and are called a result with no stratified figure |
| Contrast.ResultSignsAgreeIff | scripts/gl_ab_analyze.py:235-286 | a result's raw and stratified shifts are both made and have the same of three signs if and only if the arms share an exposure bin and not just one of the two shifts is zero |
| Contrast.SwappingArms | scripts/gl_ab_analyze.py:222-291 | the contrast the other way round, on the same resamples, has every number negated, the ends of the interval exchanged, and the same exposure gate; its verdict is the same if and only if the sign test is not reached, has nothing to compare, or does not meet just one shift of zero |
| Contrast.BootstrapSwaps | scripts/gl_ab_analyze.py:222-232 | the interval of the swapped arms is the negated interval, end for end |
| Contrast.SharedBinsSwap | scripts/gl_ab_analyze.py:248 | the shared bins and their order do not depend on which arm is left |
| Contrast.ZeroStratumPassesOneWay | scripts/gl_ab_analyze.py:273-286 | two small arms whose shift is a result beside a stratified shift of zero, and is refused with the arms swapped |
| CellGrid.CellEdges | scripts/paint-diff.py:100-112 | the loop computes one rounded and clamped edge per boundary |
| CellGrid.RoundIsNearestEven | scripts/paint-diff.py:100-112 | the integer within half of the number, on a tie the even one, and no other |
| CellGrid.EdgesAreMonotone | scripts/paint-diff.py:100-112 | for non-negative size and scale the edges do not decrease |
| CellGrid.CellsTile | scripts/paint-diff.py:100-112 | every pixel between the first and last edge is in exactly one cell |
| CellGrid.EdgesDoNotDrift | scripts/paint-diff.py:103-111 | every edge is within half a pixel of its ideal place clamped to the image, and any span of cells between unclamped edges within one pixel of its ideal width, however many cells it has |
| CellGrid.WideCellsAreNotEmpty | scripts/paint-diff.py:109-111 | an unclamped cell wider than one pixel owns a pixel |
| CellGrid.OnePixelCellMayBeEmpty | scripts/paint-diff.py:109-111 | the bound is sharp: a cell exactly one pixel wide may own none |
| CellGrid.InkGrid | scripts/paint-diff.py:115-138 | the nested loops fill both arrays: of the pixels between a cell's own edges, the lightest less the darkest, and how many are lighter than the darkest by 18; zeros where it has no pixels |
| CellGrid.BoxAt | scripts/paint-diff.py:125-130 | a cell's box holds exactly the pixels between its edges, row after row |
| CellGrid.BoxIsRead | scripts/paint-diff.py:128-138 | the two readings of a box in terms of the image's pixels |
| CellGrid.InkIsOwn | scripts/paint-diff.py:133-137 | a cell has ink if and only if two of its own pixels differ by at least 18 |
| CellGrid.InkIsContrast | scripts/paint-diff.py:133-137 | a cell counts ink pixels if and only if two of its pixels differ by the threshold |
| CellGrid.InkIgnoresTint | scripts/paint-diff.py:32-38 | a uniform change of luminance in a cell changes neither reading |
| Spans.PrintSpans | scripts/paint-diff.py:141-152 | the run-length loop prints the text of the runs |
| Spans.RunsAreExact | scripts/paint-diff.py:141-151 | runs hold exactly the columns of the character, increasing, disjoint and maximal |
| Spans.SpansRoundTrip | scripts/paint-diff.py:141-152 | reading the printed text gives back the runs and so exactly the columns |
| PaintRows.CompareRows | scripts/paint-diff.py:208-249 | the row loop produces the verdict of every row both sides have |
| PaintRows.RowIs | scripts/paint-diff.py:208-249 | a row's counts are the numbers of columns with a buffer glyph and with painted pixels, the cursor's aside, and each verdict holds if and only if those numbers and those of the missing and ghost columns say so |
| PaintRows.CellsBalance | scripts/paint-diff.py:222-225 | for any two masks, of any length and characters, buffer glyphs, ghosts and unanswered ink equal painted glyphs, missing ones and unanswered glyphs |
| PaintRows.AgreementBounds | scripts/paint-diff.py:227-238 | exactly which disagreements a row called ok may hide, for any two masks |
| PaintRows.GlyphsArePartitioned | scripts/paint-diff.py:222-225 | each glyph of a mask is met by a glyph, by a blank, or by neither, each counted once |
| PaintRows.MasksAnswer | scripts/paint-diff.py:208-225 | against a mask of glyphs and blanks that is no shorter nothing goes unanswered, so there the balance is of glyphs, ghosts and missing ones alone |
| PaintRows.AgreementWithoutMatch | scripts/paint-diff.py:227-238 | a row one column off is called ok with no glyph in its place |
| PaintRows.GhostsAreHidden | scripts/paint-diff.py:227-238 | a row with a glyph, all of whose glyphs are painted, is called ok whatever else is painted on it |
| PaintRows.OneGlyphHidesGhosts | scripts/paint-diff.py:227-238 | beside one buffer glyph any number of ghosts is called ok |
| PaintRows.CursorCellIsIgnored | scripts/paint-diff.py:214-221 | neither the glyph nor the pixels of the cursor cell can change a row |
| PaintRows.ColumnsAreExact | scripts/paint-diff.py:219-246 | the printed missing and ghost columns, read back, are exactly the unpainted glyphs and the painted blanks, the cursor's cell being neither |
| Recorder.Recording.constructor | scripts/resource-recorder.py:232-273 | a recorder opens the file with whatever tables it holds and has read no process yet |
| Recorder.Recording.Step | scripts/resource-recorder.py:273-326 | a round updates `prev` and both tables as the run function, started on the tables the file held, does |
| Recorder.Recording.Prune | scripts/resource-recorder.py:245-263 | deletes from both tables what lies before a fifth of the samples' span |
| Recorder.CpuIsConserved | scripts/resource-recorder.py:298-315 | for any readings, time-weighted percentages plus the changes of readings at no later a time telescope to last minus first counters |
| Recorder.RecordedCpuIsExact | scripts/resource-recorder.py:273-315 | with rounds at strictly later times the inserted rows account for every jiffy of a process |
| Recorder.PercentagesAreNotNegative | scripts/resource-recorder.py:300-305 | monotone counters never yield a negative percentage |
| Recorder.RunKeepsMark | scripts/resource-recorder.py:245-326 | a run that opens tables held from a watermark leaves them, with its rows, held from one |
| Recorder.RetentionHasOneWatermark | scripts/resource-recorder.py:232-326 | whatever the file held at first and however often the recorder is restarted on it, under a clock that does not go back both tables hold exactly the initial and inserted rows at or after one common watermark |
| Recorder.NewestSampleSurvives | scripts/resource-recorder.py:255-260 | over all runs on a file, no sample that is the newest there ever was is pruned |
| Recorder.LastInsertedSurvives | scripts/resource-recorder.py:255-318 | the last sample a run inserts is in the file when the run ends |
| Recorder.PruneKeepsNewest | scripts/resource-recorder.py:245-260 | a prune keeps the newest sample, and drops the oldest if and only if the file is at its cap and the span is at least 5 ms |
| Recorder.PruneDropsIff | scripts/resource-recorder.py:245-260 | for any tables and size, a prune drops a sample if and only if the file is at its cap and there are samples that span at least 5 ms; below the cap or without samples it drops nothing |
| Recorder.PruneDropsOldestFifth | scripts/resource-recorder.py:255-260 | at the cap a sample, and likewise a system row, stays if and only if it does not lie in the oldest fifth of the samples' span, to the millisecond |
| Recorder.RoundKeepsFourFifths | scripts/resource-recorder.py:273-326 | no round loses a sample in the newest four fifths of the span it finds |
| Recorder.RowsAreReadings | scripts/resource-recorder.py:296-315 | a round inserts rows exactly for processes read before at an earlier time, with the round's time, the process's pid, and percentages that times clock rate and milliseconds give back the jiffies |
| Recorder.NoSampleDroppedIff | scripts/resource-recorder.py:245-260 | a file at its cap loses no sample if and only if it has none or they span less than 5 ms; then only system rows older than every sample go, and without samples none |
| Recorder.FullFileKeepsItsSample | scripts/resource-recorder.py:245-263 | a file at its cap with one sample keeps it and loses an older system row |
| Recorder.FullFileKeepsItsSystemRows | scripts/resource-recorder.py:255-257 | a file at its cap with system rows alone is left as it is |
| Grounding.CollectAnchors | scripts/audit-summary-grounding.py:105-113 | the loop collects the stems of the kept tokens |
| Grounding.TokensOfRun | scripts/audit-summary-grounding.py:74 | of each longest stretch of token characters the part from its first letter on is the one token, if it has three characters or more |
| Grounding.NormalIsStripped | scripts/audit-summary-grounding.py:110 | a token is looked for in lower case without the edge characters at its ends, and only those |
| Grounding.AnchorsAre | scripts/audit-summary-grounding.py:105-113 | anchors are exactly the stems of tokens of four characters or more that are not stop words |
| Grounding.StoppedWordsAreNoAnchors | scripts/audit-summary-grounding.py:111 | stopping more words takes away exactly the anchors that only those words gave |
| Grounding.GroundIsShare | scripts/audit-summary-grounding.py:116-123 | fewer than four anchors are not judged; otherwise the result is the share of those found and exactly those that do not occur in the lower-cased session |
| Grounding.ShareTimes | scripts/audit-summary-grounding.py:123 | the share times the number of anchors is the number found |
| Grounding.AnchorsAreVerbatim | scripts/audit-summary-grounding.py:98-113 | every anchor has at least four characters and stands verbatim in the lower-cased body |
| Grounding.VerbatimIsGrounded | scripts/audit-summary-grounding.py:116-123 | a summary whose body occurs in the session, case aside, has ratio 1 and nothing missing, or is too short to judge |
| Grounding.QuotedSummaryIsGrounded | scripts/audit-summary-grounding.py:105-123 | so is one whose whole text, date stamp included, occurs in the session |
| Grounding.MoreTextGroundsMore | scripts/audit-summary-grounding.py:116-123 | enlarging the session never lowers the ratio nor adds to what is missing |
| Grounding.InflectionsShareTheStemIff | scripts/audit-summary-grounding.py:88-102 | the -ing and -ed forms of a word of four letters or more have it for a stem, and the word itself shares that stem if and only if no suffix comes off it |
| Grounding.DoubleSIsCut | scripts/audit-summary-grounding.py:88-102 | a word of five letters or more in a double s is stemmed to one letter less than its -ing form |
| Grounding.FormsKeepTheWordIff | scripts/audit-summary-grounding.py:80-102 | a word with any suffix of the list, or none, of four letters or more together, is stemmed to a prefix of the word if and only if the word has four letters or more |
| Grounding.BorneOutByWordIff | scripts/audit-summary-grounding.py:116-122 | an anchor is found in every session that uses a lower-case word if and only if it occurs in the word |
| Grounding.FormIsBorneOutIff | scripts/audit-summary-grounding.py:80-122 | the anchor of a form of a word is found in every session that uses the word if and only if the word has four letters or more |
| Grounding.FormsBearEachOtherOut | scripts/audit-summary-grounding.py:82-86 | a session that uses any form, by suffix, of a word of four letters or more bears out the anchor of every such form |
| Grounding.RewordingIsGrounded | scripts/audit-summary-grounding.py:80-123 | a summary that only changes the suffixes of words of four letters or more that the session uses is fully grounded, or too short to judge |
| Grounding.ShortPluralsAreScoredAsInvented | scripts/audit-summary-grounding.py:59-123 | a summary with the plurals of two three-letter words of the session among its four words has ratio one half, below the threshold |
| Grounding.SpelledFormsOutgrowTheWord | scripts/audit-summary-grounding.py:91-102 | "logging" and "making" are looked for as text that "log" and "make" do not contain |
| CwdTree.CompareHost | scripts/check-cwdtree.py:459-529 | the loops over groups and rows raise the issues of the set comparison |
| CwdTree.GroupIds | scripts/check-cwdtree.py:496-502 | ids are collected per directory over all groups that carry it |
| CwdTree.IdIssuesAre | scripts/check-cwdtree.py:481-495 | an id is named extra if and only if a row ships it, the walk did not find it and it is backed locally, and missing if and only if the walk found it and no row ships it |
| CwdTree.CwdIssuesAre | scripts/check-cwdtree.py:496-510 | a directory is named missing or extra if and only if just the walk or just the local half has it, a directory being local that has a group and either no rows or one that is no peer's |
| CwdTree.IconIssuesAre | scripts/check-cwdtree.py:459-480 | an icon is disputed if and only if the row's kind has a non-empty glyph other than the row's |
| CwdTree.CompareGathers | scripts/check-cwdtree.py:459-529 | the comparison has exactly the issues of its parts, and one alone without data |
| CwdTree.PeersKeepMembership | scripts/check-cwdtree.py:481-495 | added peer rows change neither extra nor missing ids nor the local count |
| CwdTree.PeersDoNotInterfere | scripts/check-cwdtree.py:484-519 | added peer rows leave every id and directory issue unchanged, if and only if none fills a directory whose groups were all empty, and every exact count likewise, but that the text of a count already drifted changes with the number of peer rows |
| CwdTree.GroupOfPeersAddsPeers | scripts/check-cwdtree.py:496-499 | a further group of peer rows, under an old or a new directory, is such an addition |
| CwdTree.RowsOfPeersAddPeers | scripts/check-cwdtree.py:496-499 | so are rows of peers appended to a group that is there |
| CwdTree.PeersFillEmptyDirectory | scripts/check-cwdtree.py:500-510 | a group of peer rows under a directory with empty groups only does change the issues |
| CwdTree.PeerSilencesExtraDirectory | scripts/check-cwdtree.py:500-510 | one such row takes back the report of a directory nobody walked |
| CwdTree.NoSetIssuesIff | scripts/check-cwdtree.py:492-510 | no id or directory issue if and only if the local half equals the walk |
| CwdTree.CountsAreRedundant | scripts/check-cwdtree.py:511-519 | an exact count can fire only beside the set difference that explains it |
| ProcessTree.Descendants | scripts/remote_linux_idle_cpu_smoke.py:152-167 | the stack search ends on every table and returns exactly the processes whose parent links lead to the root in one or more steps |
| ProcessTree.MapChildren | scripts/remote_linux_idle_cpu_smoke.py:153-157 | the mapping lists each parent's children in table order |
| ArrowBody.Extract | scripts/check_architecture_contracts.py:55-72 | a body is returned if and only if it is the balanced text between the first brace after the marker and a closing brace |
| ArrowBody.IsBodyIff | scripts/check_architecture_contracts.py:55-72 | on the text alone: balanced, and between the first open brace at or after the first marker and a close brace |
| ArrowBody.BodyIsUnique | scripts/check_architecture_contracts.py:63-71 | there is at most one such text |
| ArrowBody.RenderIsBalanced | scripts/check_architecture_contracts.py:63-71 | every text of the block grammar is balanced by counting |
| ArrowBody.BalancedHasBlocks | scripts/check_architecture_contracts.py:63-71 | every text balanced by counting has a block structure |

## Left out

- Reading of files, `/proc`, sqlite, ssh, PNG and JSON: parsed records, luminance grids, process tables and file sizes are inputs; identifiers, paths and names are strings, and a value of another JSON type is not modelled.
- Floating point: measurements are reals, rounding is half to even on reals, and `0.025 * 2000` and `0.975 * 2000` are taken as 50 and 1950.
- The generator of the bootstrap: its choices are an arbitrary function of round and draw.
- `locally_backed_ids` and the other helpers of `ygg_scan_truth`: local backing is an arbitrary predicate on ids.
- The DATE_STAMP pattern and the STOP list: the stamp is any prefix and the list any set, so the results hold for the ones in use.
- Text beyond ASCII: lower case, `int(p, 16)` and the token pattern are modelled on ASCII only.
- Key order of dictionaries: the keep-alive entry of a renamed row moves to the end in the script; the model's map has no order.
- Message texts: issues carry whole sets, where the script prints the first five; missing anchors are a set, where the script sorts them.
- Verdict and claim columns of `paint-chain.py`, the other gates of `gl_ab_analyze.py`, titles and reasons in the plan printout, and the `text` column of `paint-diff.py`: fixed tables of branches or copies.
- Columns of the samples table that copy one reading (memory, threads, descriptors), and the role classifier.
- Smoke drivers, headless monitors, live checks, plotting and build scripts: plumbing around the cores above.
- Recorder.Recording.Step: the sleep between rounds and the deletion's effect on the file size are not modelled, so nothing says that pruning keeps the file under its cap.
