# rcc core, modelled in Dafny

rcc builds and runs Python automation robots in isolated environments. Each environment is
stored once, content-addressed, in a "holotree" of files named by their digests. This project
models the parts of rcc that decide things rather than do I/O, and proves what they promise:

- the dead-code report script: which files it scans, which names it counts as definitions and
  references, how it classifies each symbol and what it prints;
- the step tracker behind progress displays;
- the in-memory stores behind the interactive UI: the bounded log buffer, the run history and
  the server profiles;
- the holotree helpers:
  - the bounded metadata cache of loaded trees;
  - which restored files are batched or hard-linked;
  - how stored files are recognised as compressed;
  - how temporary part files are recognised and where a digest is stored;
- version probing and environment filtering for conda/micromamba/uv;
- the SBOM pieces: package URLs, pip metadata parsing, format names and the SPDX document;
- locating the zip archive appended to a bundle, and listing the environments it carries;
- splitting a typed command line, the dashboard output writer, token lifetimes, and robot and
  task names;
- the robots view's cursor movement;
- the dashboard's ETA and column padding;
- the template search of the creation wizard;
- the identity string rcc derives for itself.

Each Go or Python file of the core has a Dafny module of the same form:

- State the source changes in place is a `class`. The metadata cache, log buffer, run history,
  server profiles, progress tracker, hard-link manager, dashboard writer and robots view each
  have fields and methods with `modifies` clauses. Their `ensures` state the whole new state and
  the invariant each method keeps.
- A loop in the source is a `method` with a `while` or `for` loop. Each is proved equal to a
  specification function, and the properties are proved as lemmas about that function. This
  covers, for example, `CreateBatches`, `FindZipStart`, `SplitCommand`, `AsGuid` and the
  dead-code passes.
- Pure code is a function, with lemmas.

Library modules model the Go and Python standard functions the core relies on:

- `Text`: the `strings` package, Python's `strip`, decimal and hex rendering;
- `GoPath`: `path.Clean`, `path.Base` and `path.Dir` on '/'-separated paths;
- `GoUrl`: `url.PathEscape`;
- `Sorting`: an insertion sort proved sorted and a permutation, used wherever Go or Python
  sorts;
- `Wrappers`: `Option` and `Result`.

These modules are helpers and have no rows below.

## Model

| member | source | states |
|---|---|---|
| DeadCode.Select | scripts/deadcode.py:47-53 | a walked path is kept iff it names a `.go` file and none of its parts is vendor, .git, testdata or mocks |
| DeadCode.FindFiles | scripts/deadcode.py:47-56 | the file list is the kept paths sorted by their parts: sorted, a permutation of the selection, with exactly the kept members |
| DeadCode.FileLines | scripts/deadcode.py:37-44 | reading a file numbers its lines from 1 under the file's path, one entry per line |
| DeadCode.SkipSpaces | scripts/deadcode.py:26-28 | the regular expression's `\s*` stops at the first non-blank character |
| DeadCode.WordPrefixLen | scripts/deadcode.py:26-28 | `\w+` takes the longest run of word characters |
| DeadCode.NameAt | scripts/deadcode.py:26-28 | a captured name is the non-empty word starting at the capture position |
| DeadCode.MatchIsWord | scripts/deadcode.py:26-28 | any name the definition pattern captures on a line is also one of that line's word tokens |
| DeadCode.FindFunctionDefinitions | scripts/deadcode.py:59-71 | the definitions table is the collection of every captured name with its file and line, in scan order |
| DeadCode.FileDefinitions | scripts/deadcode.py:64-68 | scanning one file's lines records, after the earlier files' definitions, each captured name with that file and line number |
| DeadCode.CollectContents | scripts/deadcode.py:59-71 | a collected key has exactly its values in order; the key order lists each key once |
| DeadCode.EveryCollectedKeyHasValues | scripts/deadcode.py:67-70 | every recorded symbol has at least one definition site |
| DeadCode.CountReferences | scripts/deadcode.py:74-96 | the references table and counters are the word tokens of every line that name a defined symbol, counted per name |
| DeadCode.CountLineReferences | scripts/deadcode.py:87-93 | one line's loop over its tokens extends the tables by that line's references and keeps counters equal to the table sizes |
| DeadCode.CountsAdd | scripts/deadcode.py:92-93 | recording one more reference raises that name's counter by one and leaves the others alone |
| DeadCode.ReferencesCoverDefinitions | scripts/deadcode.py:87-93 | a symbol's reference count is at least its number of definitions |
| DeadCode.RefCountCoversDefinitions | scripts/deadcode.py:147-151 | for every defined symbol, the counter the classification reads is at least its definition count |
| DeadCode.Classify | scripts/deadcode.py:133-155 | test names (unless included), exported names (unless included) and init, main, String and Error are excluded; otherwise Dead iff refs <= defs, LowUsage iff defs < refs <= defs + max_refs, else Normal |
| DeadCode.ThresholdBoundary | scripts/deadcode.py:151-155 | with max_refs 1, one definition and 1, 2 or 3 references give Dead, LowUsage and Normal |
| DeadCode.SortedNames | scripts/deadcode.py:133 | the symbols are classified in sorted name order |
| DeadCode.SortedNamesValid | scripts/deadcode.py:133 | the sorted names are strictly ordered, each defined symbol appears exactly once, and nothing else appears |
| DeadCode.ClassifySymbols | scripts/deadcode.py:133-160 | the classification loop produces exactly the dead and low-usage lists of the specification |
| DeadCode.ListsAreClassified | scripts/deadcode.py:151-160 | every dead item is a Dead symbol with its counts and sites; every low-usage item is a LowUsage symbol |
| DeadCode.ListsAreComplete | scripts/deadcode.py:151-160 | every Dead symbol is in the dead list and every LowUsage symbol in the low-usage list |
| DeadCode.DeadListInNameOrder | scripts/deadcode.py:133-160 | the dead list is in strictly increasing name order |
| DeadCode.LowListInNameOrder | scripts/deadcode.py:133-160 | the low-usage list is in strictly increasing name order |
| DeadCode.DeadSymbolsOccurOnlyAtDefinitions | scripts/deadcode.py:151-153 | a dead symbol has at least one site and occurs exactly as often as it is defined |
| DeadCode.LowUsageSymbolsWithinThreshold | scripts/deadcode.py:154-155 | a low-usage symbol has more references than definitions, and at most max_refs more |
| DeadCode.ReportStatistics | scripts/deadcode.py:158-166 | in every report, full or summary, lines 5 to 8 read back under their labels as the number of files, of functions, of dead and of low-usage symbols |
| DeadCode.ListSizes | scripts/deadcode.py:133-155 | over distinct names, the dead list is as long as the set of names classified Dead, and the low-usage list as the set classified LowUsage |
| DeadCode.RunStatistics | scripts/deadcode.py:112-166 | a run's statistics show the number of scanned files, of distinct defined names, and of defined names classified Dead and LowUsage |
| DeadCode.ShownLowCount | scripts/deadcode.py:191-203 | at most 20 low-usage symbols are shown unless all are asked for |
| DeadCode.LowUsageCapped | scripts/deadcode.py:191-203 | beyond 20 low-usage symbols, the section ends with an "... and N more" note counting the hidden ones |
| DeadCode.SummaryStopsAfterStatistics | scripts/deadcode.py:168-169 | in summary mode the report is the banner and nothing else |
| DeadCode.Process | scripts/deadcode.py:99-209 | the whole run equals the specification: no files is an error, otherwise the report on the sorted files |
| DeadCode.NoFilesNoReport | scripts/deadcode.py:112-117 | the run ends with the no-files error and no report iff no file was selected |
| DeadCode.GoFilesInTree | scripts/deadcode.py:112 | every selected file is one of the walked files, so it can be read |
| DeadCode.SelectAsWritten | scripts/deadcode.py:47-56 | the script as written looks for excluded names among the parts of the absolute path |
| DeadCode.SelectAsWrittenLosesFilesUnderExcludedAncestor | scripts/deadcode.py:51 | a project checked out below a directory named mocks yields no files as written, while the corrected selection keeps them |
| ProgressCore.CanTransition | progresscore/tracker.go:68-81 | only Pending to Running or Skipped and Running to Complete or Failed are allowed; each raises the step's rank and terminal states never change |
| ProgressCore.Advance | progresscore/tracker.go:100-113 | the step takes the new status and message; the start time is set only on the first Running, the end time on any terminal state |
| ProgressCore.DoneFraction | progresscore/tracker.go:150-162 | progress is (complete + skipped) / steps, 0 without steps, always within [0, 1]; it is 0 iff nothing is done and 1 iff everything is |
| ProgressCore.DoneIsCompletePlusSkipped | progresscore/tracker.go:150-162 | the done count is the complete count plus the skipped count |
| ProgressCore.CountsSumToTotal | progresscore/tracker.go:208-245 | the five status counts add up to the number of steps |
| ProgressCore.TransitionNeverLowersProgress | progresscore/tracker.go:116-119 | an allowed transition never lowers the computed progress |
| ProgressCore.AllPendingNothingDone | progresscore/tracker.go:274-287 | when every step is pending, nothing is done |
| ProgressCore.FinishedWithoutFailureIsFull | progresscore/tracker.go:150-162 | when every step is complete or skipped, all of them count as done |
| ProgressCore.CompleteWithoutFailureIsFull | progresscore/tracker.go:248-271 | a non-empty run that is complete without any failure is at progress 1 |
| ProgressCore.ProgressTracker.constructor | progresscore/tracker.go:44-58 | one Pending step per name in order, progress 0, started at the given time and not yet updated |
| ProgressCore.ProgressTracker.CalculateProgress | progresscore/tracker.go:150-162 | the counting loop returns the done fraction |
| ProgressCore.ProgressTracker.SetStep | progresscore/tracker.go:84-127 | it succeeds iff the index is in range and the transition is allowed; on failure nothing changes; on success only that step advances, and the reported progress never decreases |
| ProgressCore.ProgressTracker.Progress | progresscore/tracker.go:165-169 | the reported progress is the high-water mark, equal to the done fraction when the tracker is valid |
| ProgressCore.ProgressTracker.CurrentStep | progresscore/tracker.go:182-193 | the first Running step and its index, or -1 and nothing when no step runs |
| ProgressCore.ProgressTracker.Stats | progresscore/tracker.go:208-245 | per-status counts that sum to the total, the stored progress, the elapsed time and the ETA |
| ProgressCore.ProgressTracker.IsComplete | progresscore/tracker.go:248-258 | true iff no step is Pending or Running |
| ProgressCore.ProgressTracker.HasFailed | progresscore/tracker.go:261-271 | true iff some step failed |
| ProgressCore.ProgressTracker.Reset | progresscore/tracker.go:274-287 | every step is pending again under its name, progress is 0 and the clock restarts |
| LogBuf.LogBuffer.constructor | logbuf/log_buffer.go:77-85 | a capacity below 10 becomes 10, and the buffer starts empty |
| LogBuf.LastN | logbuf/log_buffer.go:106-111 | keeping at most n entries keeps the newest ones, in order |
| LogBuf.LogBuffer.Add | logbuf/log_buffer.go:95-117 | the trimmed message is appended last and the oldest entries are dropped beyond the capacity |
| LogBuf.FullBufferDropsOldest | logbuf/log_buffer.go:106-111 | adding to a full buffer drops exactly the oldest entry |
| LogBuf.DetectLevel | logbuf/log_buffer.go:131-140 | error or failed gives Error, then warn gives Warn, then debug, then trace, otherwise Info, in that precedence |
| LogBuf.WarningContainsWarn | logbuf/log_buffer.go:135 | the test for "warning" is implied by the test for "warn" |
| LogBuf.DetectSource | logbuf/log_buffer.go:142-152 | pip iff the line starts with "pip:" or mentions "pip install"; otherwise conda iff it starts with "conda:" or mentions conda; otherwise mamba iff it starts with "micromamba:" or mentions micromamba; the chosen source's prefix is removed, and a line with no source is unchanged |
| LogBuf.LogBuffer.AddLine | logbuf/log_buffer.go:120-155 | a blank line changes nothing; any other line is added with its detected level and source |
| LogBuf.LogBuffer.Recent | logbuf/log_buffer.go:158-173 | the last min(n, len) entries in order, nothing when n <= 0 or the buffer is empty |
| LogBuf.LogBuffer.All | logbuf/log_buffer.go:176-183 | a copy of all entries |
| LogBuf.LogBuffer.Len | logbuf/log_buffer.go:186-190 | the number of entries, never above the capacity |
| LogBuf.LogBuffer.Clear | logbuf/log_buffer.go:193-197 | the buffer is empty and keeps its capacity |
| LogBuf.LogBuffer.Stats | logbuf/log_buffer.go:209-229 | per-level counts of the entries, adding up to the total |
| LogBuf.LevelCountsSum | logbuf/log_buffer.go:209-229 | the five level counts add up to the number of entries |
| History.MaxId | interactive/history.go:110-116 | the largest ID in use, or 0: at least every existing ID |
| History.LargestId | interactive/history.go:110-116 | the loop over the entries returns the largest ID in use, or 0 |
| History.RunHistory.AddEntry | interactive/history.go:105-125 | the entry is numbered one above the largest ID, put first, and the list cut to 50; IDs stay unique |
| History.NumberedPrependKeepsIdsUnique | interactive/history.go:110-124 | prepending an entry numbered above all others and truncating keeps the IDs unique |
| History.AddedRunIsFound | interactive/history.go:105-141 | the entry just added is the one a later update by its ID finds |
| History.FindId | interactive/history.go:130-131 | the first entry with the ID, or -1 when there is none |
| History.RunHistory.UpdateEntry | interactive/history.go:128-141 | only the entry with the matching ID gets its end time, status, exit code and duration; an unknown ID changes nothing |
| History.RoundedSeconds | interactive/history.go:137 | the duration rounded to the nearest whole second, within half a second of it, halves away from zero, keeping its sign |
| History.RoundedSecondsExact | interactive/history.go:137 | a whole number of seconds is not moved by rounding |
| History.DurationString | interactive/history.go:137 | the rendered duration is never empty and ends in "s" |
| History.DurationRoundTrip | interactive/history.go:137 | for every whole number of seconds n, reading the rendered duration back (optional "-", optional hours, optional minutes, seconds) gives exactly n; the sign is "-" iff n < 0, and the minute and second fields are below 60 |
| History.RoundTripOf | interactive/history.go:137 | with a the magnitude of n, the fields read back are a / 3600 hours, (a / 60) mod 60 minutes and a mod 60 seconds, negative iff n < 0 |
| History.ReadUnsignedDuration | interactive/history.go:137 | the unsigned clock of a number of seconds reads back as its hours, minutes and seconds and never starts with "-" |
| History.DurationStringExamples | interactive/history.go:137 | 0, 45 s, 123 s, 3605 s and -5 s render as "0s", "45s", "2m3s", "1h0m5s" and "-5s" |
| History.RunHistory.GetLatest | interactive/history.go:144-154 | the first min(n, len) entries |
| History.RunHistory.GetLastRun | interactive/history.go:157-166 | nothing when the history is empty, otherwise the first entry |
| History.RunHistory.Clear | interactive/history.go:169-173 | the history is empty |
| Profiles.IndexOfName | interactive/server_profiles.go:61-66 | the first profile with the name, or -1 when none has it |
| Profiles.ServerProfiles.AddProfile | interactive/server_profiles.go:60-69 | a profile with the same name is replaced in place, otherwise the new one is appended; names stay unique |
| Profiles.ServerProfiles.RemoveProfile | interactive/server_profiles.go:72-79 | the first profile with the name is deleted and the others keep their order; an unknown name changes nothing |
| Profiles.ServerProfiles.GetDefault | interactive/server_profiles.go:82-89 | the first profile marked default, or nothing when none is |
| Profiles.ServerProfiles.SetDefault | interactive/server_profiles.go:92-96 | afterwards exactly the profiles with that name are marked default, and nothing else changes |
| Profiles.DefaultAfterSetDefault | interactive/server_profiles.go:82-96 | after SetDefault of a present name, GetDefault finds the profile with that name |
| Cache.MetadataCache.constructor | htfs/cache.go:34-44 | a limit of 0 or below becomes 100, and the cache starts empty |
| Cache.FirstIndex | htfs/cache.go:106-111 | the first position of a path in the access order, or -1 |
| Cache.MetadataCache.PromoteToFront | htfs/cache.go:105-115 | the path moves to the front of the access order and the maps are untouched |
| Cache.PromoteDistinct | htfs/cache.go:105-115 | promotion keeps the access order free of duplicates with the path at index 0 |
| Cache.RemoveFirstDistinct | htfs/cache.go:132-145 | removing a path from a duplicate-free order removes it entirely and nothing else |
| Cache.MetadataCache.EvictIfNeeded | htfs/cache.go:119-128 | entries are dropped from the back of the access order until at most the limit remain, and deleted from both maps |
| Cache.EvictedPrefixValid | htfs/cache.go:119-128 | the kept prefix has no duplicates and holds exactly the paths not evicted |
| Cache.MetadataCache.Lookup | htfs/cache.go:49-72 | a hit iff the path is cached and the file is not newer than the cached time; a hit is promoted |
| Cache.MetadataCache.Store | htfs/cache.go:74-101 | the loaded tree is stored and promoted, the cache is trimmed to its limit, and the other cached entries keep their values |
| Cache.EvictedKeys | htfs/cache.go:74-101 | after storing, promoting and evicting, the keys left are exactly the kept access order, which has no duplicates and holds the stored path |
| Cache.MetadataCache.Invalidate | htfs/cache.go:132-145 | the path leaves the trees, the timestamps and the access order |
| Cache.MetadataCache.Clear | htfs/cache.go:149-156 | all three are emptied and the limit kept |
| Cache.MetadataCache.Size | htfs/cache.go:160-165 | the number of cached trees, which is the access order's length and at most the limit |
| HtfsFunctions.IsTemporaryPartFile | htfs/functions.go:472-492 | true iff the text before the last '#' ends in ".part" and only digits follow it |
| HtfsFunctions.PartFileAccepted | htfs/batching_test.go:285-362 | "error.py.part#6599", "file.txt.part#1" and ".part#1" are part files |
| HtfsFunctions.PartFileRejected | htfs/batching_test.go:285-362 | "error.py", "file#123.txt", "file.part", "file.part#abc", "file.part#123abc", "" and "pt#1" are not |
| HtfsFunctions.GuessLocationOfDigest | htfs/functions.go:503-505 | a digest is stored under its first three character pairs, then its own name |
| Batching.ShouldBatchExamples | htfs/batching.go:393-404 | symlinks, files with more than 10 rewrites and files of 100 KiB or more are not batched; small plain files are |
| Batching.ThresholdExcludesLargeFiles | htfs/batching.go:393-404 | no file at or above 100 KiB is batched, and a batched file stays batched when it is smaller |
| Batching.CreateBatches | htfs/batching.go:209-232 | the loop produces the chunks of the specification |
| Batching.ChunksCorrect | htfs/batching.go:209-232 | the batches concatenate back to the input, number ceil(n/8), each hold 1 to 8 tasks under the directory, and all but the last are full |
| Hardlink.BatchOf | htfs/hardlink.go:84-89 | the batch with the source, or -1 when there is none |
| Hardlink.HardlinkManager.constructor | htfs/hardlink.go:62-77 | the manager starts with no batches and at most 8 workers |
| Hardlink.HardlinkManager.AddHardlink | htfs/hardlink.go:80-97 | the target joins the batch of its source, or opens a new batch; sources stay unique |
| Hardlink.AddedTargets | htfs/hardlink.go:80-97 | the target is appended to its own source's targets only, and unique sources stay unique |
| Hardlink.AddHardlinkExample | htfs/hardlink_test.go:34-50 | two targets of one source and one of another make two batches |
| Hardlink.HardlinkCandidateExamples | htfs/hardlink.go:421-439 | plain non-executable files are candidates; symlinks, rewritten files and files with any execute bit are not |
| Hardlink.ExecutableIsNeverCandidate | htfs/hardlink.go:421-439 | a candidate is exactly a non-symlink without rewrites and without execute bits; any one of the three execute bits rules a file out |
| CondaRobocorp.FirstDigit | conda/robocorp.go:229-239 | the first digit of a line, or -1 when it has none |
| CondaRobocorp.VersionRun | conda/robocorp.go:229-239 | the longest run of digits and dots from a position |
| CondaRobocorp.VersionCapture | conda/robocorp.go:229-239 | a captured version is non-empty and made of digits and dots |
| CondaRobocorp.FindVersionText | conda/robocorp.go:231-239 | the loop over the lines returns the specification's first version text |
| CondaRobocorp.NoVersionFound | conda/robocorp.go:229-239 | with no digit on any line the result is value 0 and text "0" |
| CondaRobocorp.NoCaptureGivesZero | conda/robocorp.go:229-239 | with no capture on any line the text is "0" |
| CondaRobocorp.ParseUint | conda/robocorp.go:244-249 | an accepted number fits in 64 bits |
| CondaRobocorp.PackVersion | conda/robocorp.go:240-254 | the loop over the dotted parts returns the specification's packed value |
| CondaRobocorp.AsVersion | conda/robocorp.go:229-255 | the value and text of the probe's first version |
| CondaRobocorp.ThreePartsPack | conda/robocorp.go:240-254 | three numeric parts pack to major*1000000 + minor*1000 + patch |
| CondaRobocorp.StopsAtFirstNonNumeric | conda/robocorp.go:244-249 | packing stops at the first non-numeric part |
| CondaRobocorp.NonNumericMajorIsZero | conda/robocorp.go:244-249 | a non-numeric first part gives 0 |
| CondaRobocorp.KeepMask | conda/robocorp.go:141-155 | an entry is kept iff its name differs, ignoring case, from every unwanted name |
| CondaRobocorp.RemoveIncompatibleEnvironmentVariables | conda/robocorp.go:141-155 | the loop returns the compatible entries of the specification |
| CondaRobocorp.CompatibleMembers | conda/robocorp.go:141-155 | an entry is in the result iff it was in the environment and is kept |
| CondaRobocorp.CompatibleAppend | conda/robocorp.go:141-155 | the kept entries stay in their original order |
| CondaRobocorp.KeptMeansNoFold | conda/robocorp.go:146-151 | kept means no unwanted name equals the entry's name under case folding |
| CondaRobocorp.AppendIfValue | conda/robocorp.go:222-227 | "key=value" is appended iff the value is non-empty |
| CondaRobocorp.AppendedNameIsKey | conda/robocorp.go:222-227 | an appended entry's variable name is the key it was appended under |
| CondaRobocorp.IgnoreIsCaseInsensitive | conda/robocorp.go:46-50 | ignoring a directory does not depend on the case of its name |
| CondaRobocorp.IgnoredNames | conda/robocorp.go:46-50 | only names of 11 characters (__pycache__) or 3 characters (gen) are ignored, and __pycache__ always is |
| SbomExtractor.LastNonEmptyIndex | sbom/extractor.go:122-130 | the last non-empty piece of a channel, or -1 |
| SbomExtractor.SanitizeChannelCases | sbom/extractor.go:117-132 | an empty channel stays empty; one without '/' is unchanged; otherwise its last non-empty segment is taken |
| SbomExtractor.SanitizeChannelIdempotent | sbom/extractor.go:117-132 | sanitizing twice is sanitizing once |
| SbomExtractor.SanitizeUrlChannel | sbom/sbom_test.go:144-163 | a channel URL, with or without a trailing slash, becomes its last name |
| SbomExtractor.CondaPurlSegments | sbom/extractor.go:106-114 | a conda package URL is "pkg:conda", then the channel when there is one, then name@version, in '/'-separated segments |
| SbomExtractor.CondaPurlChannelUrl | sbom/extractor.go:106-114 | a full channel URL contributes only its last name to the package URL |
| SbomExtractor.SafePurls | sbom/sbom_test.go:58-100 | names, versions and channels with no special characters appear verbatim, the pip name lower-cased |
| SbomExtractor.PipPurlSegments | sbom/extractor.go:245-248 | a pip package URL is "pkg:pypi" then the escaped lower-case name@version |
| SbomExtractor.PipPurlFoldsCase | sbom/extractor.go:245-248 | names equal under case folding give the same pip package URL |
| SbomExtractor.DropCR | sbom/extractor.go:198-201 | each scanned line loses one trailing carriage return |
| SbomExtractor.ScanLinesRoundTrip | sbom/extractor.go:198-201 | scanning newline-terminated lines gives them back |
| SbomExtractor.SeparatorIndex | sbom/extractor.go:208-213 | the first ": " of a line, or -1 |
| SbomExtractor.HeaderField | sbom/extractor.go:208-213 | a header line splits at its first ": " into key and value |
| SbomExtractor.HeaderFieldRoundTrip | sbom/extractor.go:208-213 | a key without ": " and any value split back from "key: value" |
| SbomExtractor.ParsePipMetadata | sbom/extractor.go:196-242 | the loop over the lines gives the specification's result, and an accepted result has a name and a version |
| SbomExtractor.HeadersStopAtBlankLine | sbom/extractor.go:203-206 | nothing after the first blank line is read |
| SbomExtractor.PlainFieldsAreLastValues | sbom/extractor.go:214-230 | name, version, license and home page are the last value given for their key |
| SbomExtractor.AuthorLineWins | sbom/extractor.go:222-227 | a non-empty Author line sets the author |
| SbomExtractor.AuthorEmailFallback | sbom/extractor.go:222-227 | Author-email is used only while the author is still empty |
| SbomExtractor.AuthorKept | sbom/extractor.go:222-227 | an author already set is not overwritten by Author-email |
| SbomExtractor.PipMetadataIncomplete | sbom/extractor.go:237-239 | the result is an error iff the name or the version is missing |
| SbomExtractor.PipMetadataIncompleteExample | sbom/sbom_test.go:133-142 | metadata without a version is rejected |
| SbomGenerator.ParseFormatCorrect | sbom/generator.go:228-237 | exactly cyclonedx, CycloneDX, CYCLONEDX, spdx and SPDX are accepted, each naming its format |
| SbomGenerator.ParseFormatExamples | sbom/sbom_test.go:9-36 | the accepted spellings and the rejected ones of the test |
| SbomGenerator.MediaTypes | sbom/generator.go:216-225 | each format has its media type, anything else application/json |
| SbomGenerator.NewPackage | sbom/generator.go:169-196 | the SPDX package built for a component matches the specification |
| SbomGenerator.PackageFields | sbom/generator.go:169-196 | name, version and package URL are copied, an empty license becomes NOASSERTION, and nothing is downloaded or analysed |
| SbomGenerator.GenerateSpdx | sbom/generator.go:150-213 | the document header is fixed, with one package and one DESCRIBES relationship per component, the i-th package is SPDXRef-Package-(i+1) |
| SbomGenerator.PackageIdsDistinct | sbom/generator.go:167-168 | package IDs of different positions differ |
| SbomGenerator.RelationshipsResolve | sbom/generator.go:198-205 | the i-th relationship describes exactly the i-th package |
| OciRegistry.AddressShape | oci/client.go:167-177 | a given http or https scheme is split off; without one the address is the whole input |
| OciRegistry.ParseRegistryUrlCases | oci/client.go:165-188 | the result is the invalid-format error iff the address has no '/'; otherwise base and repository around its first '/' |
| OciRegistry.ParseRegistryUrlNoSlash | oci/oci_test.go:8-38 | input without '/' is rejected |
| OciRegistry.ParseRegistryUrlProtocol | oci/client.go:167-177 | the base keeps http:// when given and is https:// otherwise |
| OciRegistry.ParseRegistryUrlRoundTrip | oci/client.go:165-188 | a scheme, host and repository are parsed back into base and repository |
| OciRegistry.ParseAddress | oci/client.go:179-187 | an address split at its first '/' gives host and repository |
| Bundle.FindZipStart | cmd/holotreeBundle.go:218-262 | the backward scan returns the specification's start |
| Bundle.ScanFromCorrect | cmd/holotreeBundle.go:233-261 | the scan from a position fails iff no position at or below it is an accepted end record, else returns the highest one's start |
| Bundle.ZipStartCorrect | cmd/holotreeBundle.go:218-262 | "EOCD not found" iff no accepted end record exists; otherwise the start of the last accepted one, inside the file |
| Bundle.ShortFileHasNoArchive | cmd/holotreeBundle.go:228-236 | a file shorter than an end record has no archive |
| Bundle.EocdFields | cmd/holotreeBundle.go:237-249 | an end record built from its fields is read back to those fields |
| Bundle.ZipStartOfAppendedArchive | cmd/holotreeBundle.go:244-257 | an archive appended to any prefix is found at the prefix's length |
| Bundle.ToSlash | cmd/holotreeBundle.go:113 | the separator is replaced by '/' and nothing else changes |
| Bundle.FindEnvFiles | cmd/holotreeBundle.go:111-133 | the loop returns the specification's environment files |
| Bundle.EnvFilesFromSound | cmd/holotreeBundle.go:114-130 | every listed file points at an entry at or after the start whose slash-converted name passes the envs/…/conda.yaml test (at least three segments) and defines exactly the listed name |
| Bundle.EnvFilesFromOrdered | cmd/holotreeBundle.go:111-133 | the files keep archive order |
| Bundle.EnvFilesFromComplete | cmd/holotreeBundle.go:111-133 | every such entry is listed |
| Bundle.EnvNameOfDefinition | cmd/holotreeBundle.go:118-128 | envs/NAME/conda.yaml names NAME |
| Bundle.EnvNameOfTopLevel | cmd/holotreeBundle.go:118-128 | envs/conda.yaml names no environment |
| Bundle.HasHololibZip | cmd/holotreeBundle.go:136-144 | true iff some entry is hololib.zip after separator conversion |
| CommandLine.SplitCommand | cmd/ui.go:209-239 | the loop over the characters returns the specification's tokens |
| CommandLine.TokensNonEmpty | cmd/ui.go:226-238 | no token is empty |
| CommandLine.QuotedArgument | cmd/ui.go:217-225 | a quoted text without its quote character becomes one token, quotes removed |
| CommandLine.InsideQuote | cmd/ui.go:217-225 | inside a quote everything but that quote, including spaces and the other quote, is kept |
| CommandLine.TokensConcat | cmd/ui.go:209-239 | outside quotes, a space separates the tokens of both sides |
| CommandLine.TokensUnquoted | cmd/ui.go:226-238 | without quotes, the tokens are the pieces between single spaces, empty ones dropped |
| Running.DashboardWriter.constructor | operations/running.go:43-49 | a new writer has no pending bytes and has forwarded nothing |
| Running.DashboardWriter.Write | operations/running.go:56-82 | with no failure, p's complete non-empty lines are forwarded in order, the rest is kept for the next call, and len(p) or the underlying count is returned; a failed underlying write changes nothing |
| Running.FeedBytes | operations/running.go:69-80 | the byte loop of Write leaves the bytes after the last newline pending and forwards the completed lines of the specification |
| Running.FeedConcat | operations/running.go:69-80 | writing p then q is the same as writing p + q |
| Running.FeedKeepsBytes | operations/running.go:69-80 | forwarded lines and the pending rest join back to all the bytes written, and none holds a newline |
| Running.LineAcrossWrites | operations/running_test.go:55-76 | a line split over two writes is forwarded once, whole, when its newline arrives |
| Running.TokenPeriod.constructor | operations/running.go:84-87 | a period holds the validity and grace it was given |
| Running.EnforcedBounds | operations/running.go:100-114 | grace is clamped into [5, 120] and validity to at least 15; in-range values are kept and clamping twice is clamping once |
| Running.EnforceGracePeriod | operations/running.go:100-114 | the same period is returned with its values clamped, and nil stays nil |
| Running.DefaultTokenPeriod | operations/running.go:120-123 | the default is 15 minutes valid with 5 minutes grace |
| Running.AsSeconds | operations/running.go:125-131 | nil gives 900, 300 and false; otherwise the clamped values in seconds and true |
| Running.RequestSeconds | operations/running.go:145-148 | nil gives 1200; otherwise 60 * (validity + grace) of the clamped period, and the period is left holding the clamped validity and grace |
| Running.RequestSecondsBounds | operations/running.go:133-148 | requests are always at least 1200 seconds, at most 7200 above the validity, and unclamped values are used directly |
| Running.DeriveRobotNameCases | operations/running.go:351-368 | the robot name is never empty: "Robot" for an empty path or one whose directory is ".", and for every other path exactly the base name of its directory |
| Running.DeriveRobotNameOfProject | operations/running.go:351-368 | a robot.yaml inside a directory is named after that directory |
| Running.FirstRobotTaskNameCases | operations/running.go:378-390 | the first argument naming a .robot file gives the task name, or none when no argument does |
| Running.FirstNonEmptyCases | operations/running.go:378-390 | the first non-empty name is "" iff every name is empty, and otherwise is the name at the first non-empty position |
| Running.DeriveTaskNameCases | operations/running.go:370-396 | "Main Task" for no arguments; otherwise the first .robot base name, falling back to the base of the first argument; never empty |
| Running.RobotTaskNameOf | operations/running.go:378-390 | dir/NAME.robot gives the task name NAME |
| RobotsNavigation.ExtractRepoNameShape | interactive/view_robots.go:722-739 | the repository name is never empty and holds neither '/' nor ':' |
| RobotsNavigation.ExtractRepoNameOf | interactive/view_robots.go:722-739 | an https or ssh URL ending in a repository name, with or without ".git", gives that name |
| RobotsNavigation.LastNameOf | interactive/view_robots.go:729-736 | the last '/' segment and then the part after the last ':' |
| RobotsNavigation.LastNameShape | interactive/view_robots.go:729-736 | the last name of any text holds neither '/' nor ':' |
| RobotsNavigation.TaskCycle | interactive/view_robots.go:966-1005 | right and left moves of the task cursor stay in range, wrap at both ends and undo each other |
| RobotsNavigation.EnvCycle | interactive/view_robots.go:966-1005 | the environment cursor cycles through -1 .. count-1, wraps at both ends, and left undoes right |
| RobotsNavigation.TaskRightTimesWrap | interactive/view_robots.go:988-1005 | k right moves advance by k modulo the task count, and a full round comes back |
| RobotsNavigation.EnvRightTimesWrap | interactive/view_robots.go:988-1005 | k right moves cycle through the count+1 positions, and a full round comes back |
| RobotsNavigation.ListMovesKeepValid | interactive/view_robots.go:873-908 | up and down keep the action index in [0, 1] and the robot index in the list |
| RobotsNavigation.ListMovesUndo | interactive/view_robots.go:873-908 | away from the ends, down then up and up then down restore the cursor |
| RobotsNavigation.RobotsView.constructor | interactive/view_robots.go:155-170 | the view starts on the actions with the first task and no environment |
| RobotsNavigation.RobotsView.ResetSelections | interactive/view_robots.go:1007-1010 | task back to the first and environment to none, nothing else changed |
| RobotsNavigation.RobotsView.MoveUpList | interactive/view_robots.go:873-890 | the cursor moves up in the list mode's terms and nothing else changes |
| RobotsNavigation.RobotsView.MoveDownList | interactive/view_robots.go:892-908 | the cursor moves down in the list mode's terms and nothing else changes |
| RobotsNavigation.RobotsView.MoveLeftDetail | interactive/view_robots.go:966-986 | the focused task or environment cursor moves left with wrap-around when a robot is selected |
| RobotsNavigation.RobotsView.MoveRightDetail | interactive/view_robots.go:988-1005 | the focused task or environment cursor moves right with wrap-around when a robot is selected |
| PrettyDashboard.EtaRoundTrip | pretty/dashboard.go:603-619 | reading the ETA back gives 0 for nothing left, the seconds below an hour, and the seconds down to the minute from an hour up |
| PrettyDashboard.FormatEtaShape | pretty/dashboard.go:603-619 | hours appear from an hour up with a trailing "m"; below that only minutes and seconds, with minutes from a minute up |
| PrettyDashboard.PadRightCorrect | pretty/dashboard.go:1180-1185 | the column is exactly width long, starts with as much of the text as fits, is blank after it, and padding twice is padding once |
| Delegates.DetectFormatOfFile | htfs/delegates.go:163-183 | reading the first bytes decides as the whole file does: zstd's magic first, then gzip's, else raw |
| Delegates.DetectFormatCases | htfs/delegates.go:163-183 | a read error, then a seek error, is returned; otherwise one of zstd, gzip and raw, exactly as the magic bytes say |
| Delegates.ShortHeaderIsRaw | htfs/delegates.go:176-183 | under two bytes is raw, and either magic followed by anything is recognised as its format |
| Templates.FilterTemplates | wizard/templates.go:138-159 | the loop returns the specification's filtered list |
| Templates.FilteredCorrect | wizard/templates.go:141-159 | exactly the matching templates are kept, the result is never longer, and when all match nothing is dropped |
| Templates.FilteredAppend | wizard/templates.go:141-159 | the matches keep their relative order |
| Templates.FilterResultCases | wizard/templates.go:138-159 | an empty query returns the list unchanged; other queries ignore case |
| Templates.MatchesInside | wizard/templates_test.go:7-50 | a word taken from inside a template's name finds it |
| Tracking.AsGuid | xviper/tracking.go:26-33 | the loop over the group sizes returns the specification's identity |
| Tracking.GroupsShape | xviper/tracking.go:18-33 | each group has two lower-case hex digits per byte and no '-' |
| Tracking.ReadGroupsRoundTrip | xviper/tracking.go:18-33 | decoding the groups gives back the bytes they came from |
| Tracking.GuidCorrect | xviper/tracking.go:18-33 | the identity is 36 characters in groups of 8-4-4-4-12, and parsing it gives back the first sixteen bytes |
| Tracking.GuidParts | xviper/tracking.go:26-33 | splitting the identity at '-' gives back its five groups |
| Tracking.GuidPrefix | xviper/tracking.go:26-33 | only the first sixteen bytes of the digest matter |

## Left out

- File system, network, processes and terminal I/O: the walks, reads, zip readers, subprocesses
  and HTTP requests are outside the model. What they deliver is a parameter: a directory walk, a
  file's lines, a probe's output, an archive's entry names, a header and its read error.
- Clocks and randomness: times are integer nanoseconds passed in; identities, UUIDs and
  digests (sha256, deterministicUUID, generateRandomIdentity) are left out.
- Concurrency: the mutexes of the cache, log buffer, tracker, hard-link manager and history
  are left out; each method is modelled as one atomic step.
- Case folding is ASCII only; Unicode case mapping is not modelled.
- Strings are sequences of Unicode code points, which are Go's runes and Python's characters.
  Bytes are modelled explicitly only in the dashboard writer, the zip scan, format detection
  and the identity. Elsewhere Go's byte lengths and byte indexing of non-ASCII text are not
  modelled.
- PrettyDashboard.PadRight: the width counts code points, not bytes as Go's len and slicing do,
  so a non-ASCII text is padded and cut at different places. A negative width, which makes the
  Go slice panic, is excluded by the `nat` parameter.
- DeadCode.WordPrefixLen: `\w` is modelled as the ASCII letters, digits and underscore
  (Text.IsWordChar). Python's `\w` on str patterns also matches non-ASCII letters and digits.
  So `func größe()` records "größe" in the script and "gr" in the model, and the reference
  scan splits such words the same way. The same holds for DeadCode.NameAt, DeadCode.Words and
  the exported-name test, which is ASCII `isupper`.
- ProgressCore.ProgressTracker: the onUpdate callback that SetStep and Reset call after a
  change (progresscore/tracker.go:61-64, 120-123) is left out, because it is code outside the
  model.
- LogBuf.LogBuffer: the onChange callback that Add and Clear call (logbuf/log_buffer.go:87-91,
  114-115) is left out for the same reason.
- Running.RequestSecondsBounds: Go's `int` is 64 bits, so `60 * (validity + grace)` wraps
  around for validity near 2^63 / 60. The model computes with unbounded integers, and the bound
  of at least 1200 seconds holds only there.
- History.RunHistory.GetLatest: a negative n makes the Go slice panic. The model requires n >= 0
  in its place.
- History.DurationString: only whole seconds are rendered; Go's sub-second forms are not
  needed, because the source rounds to the second first. History.DurationValue reads only this
  whole-seconds form, not everything time.ParseDuration accepts.
- HtfsFunctions.GuessLocation: requires a digest of at least six characters. A shorter digest
  makes the slicing at htfs/functions.go:503-505 panic in Go; the panic is not modelled.
- Tracking.AsGuid: requires at least sixteen bytes. Fewer make the slicing at
  xviper/tracking.go:26-33 panic in Go; the panic is not modelled.
- ProgressCore.DoneFraction: progress is a real number, not a float64.
- CondaRobocorp.ParseUint: 64-bit overflow of a single number is rejected as in Go;
  wrap-around of the packed sum is written out modulo 2^64.
- SbomExtractor.ScanLines: bufio.Scanner's 64 KiB line limit is not modelled.
- SbomExtractor.CondaToPurl: the subdir parameter is unused, as in the source.
- GoUrl.PathEscape: the round trip is proved only for ASCII input.
- SbomGenerator: the CycloneDX document, JSON serialisation, ExtractComponents and the
  directory walkers that find packages are left out. The component's `Type` field is
  named `kind`.
- Bundle.ToSlash: the platform's path separator is a parameter.
- Running.DashboardWriter.Write: the underlying writer is out of view; its count and failure
  are parameters, and forwarded lines are recorded as byte sequences instead of strings
  handed to AddOutput.
- Running.DeriveTaskNameCases: the final "Main Task" fallback after a non-empty command line
  is unreachable, because the base of any argument is non-empty.
- Running: Liveline and Deadline read the clock and are left out.
- Delegates.DetectFormat: the reader's errors are parameters, and io.EOF counts as no error.
- Delegates.DetectFormatOfFile: it assumes that one Read delivers the first min(4, size) bytes.
  A short Read hands fewer bytes to DetectFormat, which may then answer "raw" for a compressed
  file, as the source does.
- RobotsNavigation: moveUpDetail, moveDownDetail, the rendering and the loading of robots from
  disk are left out; robots are given.
- PrettyDashboard: the rest of the dashboard's rendering is left out.
- The interactive UI's rendering, key handling and persistence (history Load and Save) are
  left out.

## Findings

| source | as written | input that shows it | evidently intended | confidence | as-written member | corrected member |
|---|---|---|---|---|---|---|
| scripts/deadcode.py:51 | the excluded directory names are looked for among the parts of the absolute path found by the walk from the working directory | running the script in /home/mocks/project, whose main.go is then dropped with every other file | only the parts of the path relative to the working directory are checked | medium; not executed | DeadCode.SelectAsWrittenLosesFilesUnderExcludedAncestor | DeadCode.FindFiles |
