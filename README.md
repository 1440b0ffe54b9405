# synthmerge core, modelled in Dafny

synthmerge resolves unmerged git conflicts with the help of AI models. This
project models the deterministic core of that tool and proves properties of it.
The core parses conflict regions out of a working-tree file, folds agreeing
candidate resolutions into a ranked consensus, and writes the winners back into
the file's lines. It also covers the confidence scorer that reads a model's
per-token log-probabilities, and the `git log` parser of the stable-tree
back-test script.

Modules, leaves first:

| module | file | models |
|---|---|---|
| `Wrappers` | wrappers.dfy | `Option`/`Result`, and collecting a sequence of results (Rust's `?` in a loop) |
| `Text` | text.dfy | `split_inclusive('\n')`, `lines()`, `str::find`/`rfind`, `trim` with Rust's and Python's whitespace sets, `split("\n")` |
| `Sorting` | sorting.dfy | a stable insertion sort standing for `slice::sort_by`, proved sorted, a permutation and stable; first-occurrence lists |
| `Markers` | markers.dfy | the five marker constructors and line shapes; the `git check-attr` stdout parse |
| `ConflictParser` | conflict_parser.dfy | the region regular expression as a line scan, `parse_conflict_text`, `gen_context`, `parse_conflict_from_file` |
| `MarkerFilter` | marker_filter.dfy | `remove_conflict_markers`: section selection and the nested-marker check |
| `ModelNames` | model_names.dfy | `combine_model_names` |
| `ModelNameRepeats` | model_names.dfy | what `combine_model_names`'s suffix map holds, and exactly when its duplicate assertions fire |
| `Consensus` | consensus.dfy | `deduplicate_conflicts`: grouping, merging and ranking |
| `Reconciler` | reconciler.dfy | the line edits of `apply_resolved_conflicts` (annotate) and `apply_vibe_resolution` (collapse), on a `Worktree` class holding the files |
| `MergeMessage` | merge_message.dfy | the `Assisted-by:` trailer insertion of `update_merge_message` |
| `DiffFilter` | diff_filter.dfy | the output filter of `git_show_in_dir` |
| `Prob` | prob.dfy | `logprob` and `perplexity_search` over a sequence of token records |
| `GitLog` | git_log.dfy | `parse_git_log` of the back-test script |

Each imperative loop of the source is a `method` with loop invariants. The
method's `ensures` ties its result to a specification function, and lemmas
state what that function means. A Rust panic becomes a failure value: an
out-of-range slice or index, an `assert!`, or an `unwrap` of `None`. Examples
are `ParseError.RemoteSliceReversed`, `ApplyError.LineOutOfRange`, the
`NameError` cases, and `None` from `Consensus.Dedup`.

Where the code differs from a plain reading of the design, the model follows
the code:

- The annotate pass inserts the attribution line *at* index
  `start_line + remote_end - 1`. That is the index of the end-marker line, so
  the new block lands above that line, not below it. The pass runs in reverse
  ranking order. So for one conflict the highest-ranked block ends up on top
  (`Reconciler.AnnotateSameConflict`).
- The nested-marker check of `remove_conflict_markers` uses the fixed default
  size 7 and accepts any mix of the five marker characters. It does not use
  `marker_size + 1` repetitions of one character (`MarkerFilter.NestedRejected`).
- `parse_conflict_text` checks `ai_start <= remote_end` but never
  `remote_start < ai_start`. A resolution marker above the separator reaches the
  reversed slice `conflict_lines[remote_start + 1..ai_start]`, which panics. The
  model reports this as `RemoteSliceReversed`.
- A model name with a `(` but no `)` is stored under the whole name but listed
  under the text before the `(`. The later lookup of that prefix fails when no
  name of the group is stored under it, and then `combine_model_names` panics
  (`ModelNames.MissingPrefixIff`). A lone such name always panics
  (`ModelNames.UnclosedFails`). Beside a plain name equal to its prefix it does
  not: `"m (x"` with `"m"` gives `"m"` (`ModelNames.UnclosedHidden`).
- Deduplication is not idempotent in the code. Deduplicating a result again
  replaces each `deduplicated_conflicts` by a one-element list, which changes
  the ranking by group size. It also rewrites combined names: the split uses the
  last `(` (src/git_utils.rs:764) and the first `)` after it
  (src/git_utils.rs:768), so `"m (a|b), n"` is read as the prefix `m` with the
  suffix `a|b` and combines to `"m (a|b)"` (`ModelNames.RecombineDropsTail`).
  No idempotence lemma is stated.

## Model

| member | source | states |
|---|---|---|
| `Markers.CreateMarker` | src/git_utils.rs:376-378 | the marker is exactly `size` copies of the marker character |
| `Markers.LocalMarker` | src/git_utils.rs:381-383 | the local marker is `size` copies of `<` |
| `Markers.BaseMarker` | src/git_utils.rs:386-388 | the base marker is `size` copies of `\|` |
| `Markers.RemoteMarker` | src/git_utils.rs:391-393 | the separator is `size` copies of `=` |
| `Markers.AiMarker` | src/git_utils.rs:396-398 | the resolution marker is `size` copies of `&` |
| `Markers.EndMarker` | src/git_utils.rs:401-403 | the end marker is `size` copies of `>` |
| `Markers.MarkerLinesAsWritten` | src/git_utils.rs:267-296 | the five line shapes are exactly the parser's tests: `starts_with(marker + " ")` for local, base and resolution lines, equality with `marker + "\n"` for the separator, and `starts_with(marker)` for the end line |
| `Markers.MarkerKindsDisjoint` | src/git_utils.rs:267-296 | for a positive size no line has two marker shapes |
| `Markers.MarkerSizeForFile` | src/git_utils.rs:358-372 | the size is the one stated by the first stdout line that states a valid size; it is 7 when git failed or no line states one |
| `Markers.ParseUsize` | src/git_utils.rs:364 | a parsed size fits in a 64-bit `usize` |
| `Markers.ParseDecimal` | src/git_utils.rs:364 | every `usize` written in decimal parses back to itself |
| `Markers.StatedSizeRead` | src/git_utils.rs:361-366 | a line `<path>: conflict-marker-size: <n>` states the size `n` |
| `Markers.UnspecifiedStatesNoSize` | src/git_utils.rs:361-372 | a line whose attribute is `unspecified` states no size, so the default applies |
| `ConflictParser.PositionFirst` | src/git_utils.rs:267-296 | `position` finds the first line of a given shape, and `None` exactly when no line has it |
| `ConflictParser.NextRegionShape` | src/git_utils.rs:160-170 | a match of the region expression is a local line, then a base line, then a separator line, then a newline-terminated end line; `NextRegionComplete` gives the converse |
| `ConflictParser.NextRegionComplete` | src/git_utils.rs:160-172 | conversely, when a local, a base, a separator and a newline-terminated end line follow in that order, the search finds a region no later than they lie, and `captures_iter` yields at least one match (a file with a region yields a conflict) |
| `ConflictParser.RegionsMatch` | src/git_utils.rs:172 | every match `captures_iter` yields has the region shape; with `NextRegionComplete`, a region shape after `from` means at least one match |
| `ConflictParser.RegionsOrdered` | src/git_utils.rs:172 | the matches do not overlap and come in file order |
| `ConflictParser.NoLocalLineNoRegions` | src/git_utils.rs:172-190 | a file without a local-marker line yields no conflicts, and that is not an error |
| `ConflictParser.MatchLines` | src/git_utils.rs:173-179 | re-splitting the matched text gives back the region's lines, and the start line (1 plus the newlines before the match) is the region's first line counted from 1 |
| `ConflictParser.MarkerLayout` | src/git_utils.rs:267-311 | on success local < base < separator < end lie inside the block, and the resolution marker is at or before the end |
| `ConflictParser.MarkerLayoutPositions` | src/git_utils.rs:267-311 | the layout succeeds iff all four markers are found and the order check passes; its positions are the first ones of each kind, with the resolution marker defaulting to the end; a failure names the first missing marker or the positions that break the order |
| `ConflictParser.ParseConflictTextSections` | src/git_utils.rs:313-340 | `local`, `base` and `remote` are the joined lines strictly between the local and base markers, the base marker and the separator, and the separator and the resolution marker (the end marker when absent); start line, path, size and `remote_end` are recorded |
| `ConflictParser.ParseConflictTextErrors` | src/git_utils.rs:298-315 | parsing fails exactly when the marker search or order check fails, with that error, or when the resolution marker precedes the separator |
| `ConflictParser.BackRunLongest` | src/git_utils.rs:212-221 | the reversed `take_while` keeps the longest end-marker-free run at the end of the lines |
| `ConflictParser.RunLongest` | src/git_utils.rs:234-240 | the `take_while` keeps the longest local-marker-free run at the start of the lines |
| `ConflictParser.HeadLinesWindow` | src/git_utils.rs:201-228 | the head window has at most `code_context_lines` lines, ends right before the local marker, holds no end-marker line, and stops short only at the limit or at an end-marker line |
| `ConflictParser.TailLinesWindow` | src/git_utils.rs:230-246 | the tail window has at most `code_context_lines` lines, starts right after the block, holds no local-marker line, and stops short only at the limit or at a local-marker line |
| `ConflictParser.GenContextWindows` | src/git_utils.rs:193-253 | the context counts equal the window lengths, both at most `code_context_lines`, and the context texts are the joined windows |
| `ConflictParser.ParseFileShape` | src/git_utils.rs:151-191 | a parsed file has one conflict per matched region, in order, each starting on its region's first line with the file's path and marker size |
| `ConflictParser.ParseConflictFromFile` | src/git_utils.rs:151-191 | the loop over the matches yields the parsed conflicts in order, and the first malformed region aborts with its error |
| `ConflictParser.ParsedRegionEnd` | src/git_utils.rs:173-179 | for a parsed region, `start_line + remote_end - 1` is the index of the region's end line |
| `ConflictParser.InsertBeforeEndRegion` | src/git_utils.rs:160-170 | lines with no end-marker line inserted right above a region's end line leave a region found from the same first line, longer by the inserted count |
| `ConflictParser.InsertBeforeEndLayout` | src/git_utils.rs:267-311 | after such an insert, starting with a resolution-marker line, the markers are found again with the end moved down by the inserted count and every marker above it in place |
| `ConflictParser.ReparseMatch` | src/git_utils.rs:298-340 | two blocks whose markers agree above the end line parse to the same local, base and remote texts and start line |
| `ConflictParser.ReparseAfterInsert` | src/git_utils.rs:160-340 | a region that parses still parses after the insert, to the same local, base and remote texts and start line, with `remote_end` larger by the inserted count |
| `ConflictParser.NoEarlierAi` | src/git_utils.rs:291-296 | in a region without a resolution-marker line, the first one after the insert is the first inserted line |
| `ConflictParser.InsertBeforeEnd` | src/git_utils.rs:160-340 | an insert right above a parsed region's end line, of a resolution-marker line and then lines with no end-marker line, is found and parsed again as the same conflict |
| `MarkerFilter.RemoveConflictMarkers` | src/git_utils.rs:405-450 | the filter loop and the nested-marker check compute the filtered lines or the nested-marker error |
| `MarkerFilter.FilterAppend` | src/git_utils.rs:412-435 | filtering a concatenation filters the first part, then the second from the flags the first left |
| `MarkerFilter.FilteredLines` | src/git_utils.rs:412-435 | every kept line is free of markers and comes from the input, and no more lines come out than go in |
| `MarkerFilter.MarkerFreeRun` | src/git_utils.rs:412-435 | a marker-free run leaves the flags alone and passes whole or not at all |
| `MarkerFilter.MarkerFreeIdentity` | src/git_utils.rs:412-450 | a marker-free file comes back unchanged unless a line starts with seven marker characters |
| `MarkerFilter.SelectsSection` | src/git_utils.rs:412-435 | a whole conflict region is replaced by the section the mode selects, and the text around it passes |
| `MarkerFilter.NestedRejected` | src/git_utils.rs:437-446 | the nested check uses the default size: a 7-wide separator passes a size-8 filter and is then rejected |
| `ModelNames.GroupNames` | src/git_utils.rs:762-801 | the first loop builds the suffix map and prefix list of the grouping specification, or fails at the first repeated name |
| `ModelNames.AddModelName` | src/git_utils.rs:763-800 | one turn of the first loop splits the name at its last `(` and records it as the grouping specification says, or fails at the assertion on a repeated suffix or plain name |
| `ModelNames.RenderPrefix` | src/git_utils.rs:808-818 | one prefix renders as itself when its only suffix is empty and as `p (s1\|s2…)` otherwise; the lookup, the non-empty and the one-empty-suffix assertions are its failures |
| `ModelNames.RenderTurn` | src/git_utils.rs:804-818 | a prefix already in the `seen` set adds nothing; a new one joins the set and adds its rendering, so the set always holds the prefixes walked so far |
| `ModelNames.RenderNames` | src/git_utils.rs:803-819 | the second loop renders each prefix once, in first-seen order, or fails at the first failed lookup or assertion |
| `ModelNames.CombineModelNames` | src/git_utils.rs:756-822 | the combined name is the rendered prefixes joined by `", "` |
| `ModelNames.GroupedConsistent` | src/git_utils.rs:762-801 | every suffix list in the map is non-empty and repeats no suffix |
| `ModelNames.GroupedErrors` | src/git_utils.rs:762-801 | the first loop fails only on a repeated suffix or a repeated plain name |
| `ModelNames.CombineFailures` | src/git_utils.rs:803-811 | the two inner assertions never fire; the combination fails only on a duplicate, or on a lookup made by an unclosed parenthesis |
| `ModelNames.ShapeOfSuffixed` | src/git_utils.rs:764-769 | `p (s)` splits back into the prefix `p` and the suffix `s` |
| `ModelNames.ShapeOfUnclosed` | src/git_utils.rs:764-788 | `p (s` with no `)` records the prefix `p` |
| `ModelNames.CombineTwoSuffixes` | src/git_utils.rs:762-821 | two different suffixes of one prefix combine as `p (s1\|s2)`; `["m (a)","m (b)"]` gives `"m (a\|b)"` |
| `ModelNames.CombinePlain` | src/git_utils.rs:790-821 | distinct plain names are listed in order joined by `", "`, and a lone plain name gives itself |
| `ModelNames.CombinePlainThenSuffixed` | src/git_utils.rs:762-818 | a plain name and a suffixed name with that prefix share one entry, rendered `p (\|s)` |
| `ModelNames.RepeatedSuffixFails` | src/git_utils.rs:768-776 | the same suffix twice for one prefix fails the assertion, with that prefix and suffix as the error; `ModelNameRepeats.RepeatedSuffixAnywhere` states it for any two positions of any list |
| `ModelNameRepeats.RepeatedSuffixAnywhere` | src/git_utils.rs:768-776 | a suffix repeated for one prefix at any two positions of the list makes the combination fail with a duplicate error |
| `ModelNames.RepeatedPlainFails` | src/git_utils.rs:790-797 | the same plain name twice fails the assertion, with that name as the error; `ModelNameRepeats.RepeatedPlainAnywhere` states it for any two positions of any list |
| `ModelNameRepeats.RepeatedPlainAnywhere` | src/git_utils.rs:779-797 | a plain or unclosed name repeated at any two positions of the list makes the combination fail with a duplicate error |
| `ModelNameRepeats.GroupedFiled` | src/git_utils.rs:762-801 | after a successful first loop, the list stored under each key is exactly the suffixes of the names filed under that key, in input order (`""` for a name without a closed suffix) |
| `ModelNameRepeats.RepeatFails` | src/git_utils.rs:768-797 | a name that repeats an earlier one (same key, and the same suffix when it has one) makes the first loop and the combination fail, wherever the two stand |
| `ModelNameRepeats.FailureRepeats` | src/git_utils.rs:768-797 | conversely, a failing first loop has met such a repeat |
| `ModelNameRepeats.GroupedFailsIffRepeat` | src/git_utils.rs:762-801 | the first loop fails iff some name repeats an earlier one; a plain name after a suffixed name with that prefix counts as a repeat, since its entry is no longer empty (src/git_utils.rs:790-795) |
| `ModelNameRepeats.CombineFiled` | src/git_utils.rs:802-821 | when every listed prefix is `p`, the result is `p` for a single empty suffix, otherwise `p (s1\|s2\|…)` over the suffixes filed under `p` in input order, and the failed lookup when none is filed |
| `ModelNames.UnclosedLonger` | src/git_utils.rs:764-766 | the trimmed text before the last `(` is shorter than the name, so an unclosed name is never stored under its own prefix |
| `ModelNames.UnclosedFails` | src/git_utils.rs:779-809 | a lone name with `(` and no `)` is keyed whole but looked up by its prefix, and the lookup fails |
| `ModelNames.UnclosedExample` | src/git_utils.rs:779-809 | `"m (x"` alone makes the combination fail on the prefix `"m"` |
| `ModelNames.GroupedShape` | src/git_utils.rs:762-801 | after the first loop, `prefixes` lists each name's prefix in input order, and the map's keys are exactly the keys the names are stored under |
| `ModelNames.ListedCovered` | src/git_utils.rs:762-801 | every listed prefix is a key unless an unclosed name listed it, and every unclosed name's prefix is listed |
| `ModelNames.FailingPrefix` | src/git_utils.rs:803-811 | once the first loop has passed, a failure is the lookup of a listed prefix that is not a key |
| `ModelNames.MissingWhenFailing` | src/git_utils.rs:779-811 | a failure after the first loop is the lookup of an unclosed name's prefix that no name is stored under |
| `ModelNames.KeyedWhenSucceeding` | src/git_utils.rs:779-811 | after a successful combination every unclosed name's prefix is a key |
| `ModelNames.MissingPrefixIff` | src/git_utils.rs:779-811 | once the first loop has passed, the combination fails iff some unclosed name's prefix is not a key, and the error is that prefix's lookup |
| `ModelNames.UnclosedBesidePlain` | src/git_utils.rs:779-818 | an unclosed name with its prefix as a plain name beside it combines to the prefix, with no panic |
| `ModelNames.UnclosedHidden` | src/git_utils.rs:779-818 | `"m (x"` with `"m"` gives `"m"` |
| `ModelNames.ShapeIgnoresTail` | src/git_utils.rs:764-769 | in `p (s)tail` with no `(` in `tail`, the prefix is `p`, the suffix is `s`, and `tail` is dropped |
| `ModelNames.RecombineDropsTail` | src/git_utils.rs:764-818 | the combined name `"m (a\|b), n"`, combined again, gives `"m (a\|b)"` |
| `Consensus.GroupMembers` | src/git_utils.rs:637-646 | the group of a key holds exactly the candidates with that key, in input order, and is empty iff no candidate has the key |
| `Consensus.GroupByKey` | src/git_utils.rs:635-646 | the grouping map has exactly the input's keys, each mapped to its candidates in input order |
| `Consensus.MaxDuration` | src/git_utils.rs:675-679 | the merged duration is attained by a member and is at least every member's |
| `Consensus.MinEndpoint` | src/git_utils.rs:682 | the merged endpoint is attained by a member and is at most every member's |
| `Consensus.MeanWithin` | src/git_utils.rs:655-662 | the truncating mean of counts in `[lo, hi]` lies in `[lo, hi]` |
| `Consensus.MergeMeaning` | src/git_utils.rs:650-691 | a fold succeeds iff the group is non-empty, its names combine and all members share one conflict; it keeps every member, their conflict, the largest duration, the smallest endpoint, a token mean that is `None` iff none was reported and otherwise lies between the reported counts, and a logprob that is `None` iff none was reported |
| `Consensus.SharesConflict` | src/git_utils.rs:683-689 | the per-member assertion holds exactly when every member of the group carries the first member's conflict |
| `Consensus.MergeGroup` | src/git_utils.rs:650-691 | the loop body computes the fold of one group, `None` where the source panics |
| `Consensus.FoldGroups` | src/git_utils.rs:648-692 | every group is folded; the loop fails only when some group's fold panics |
| `Consensus.OrderFirstSeen` | src/git_utils.rs:696-727 | the folds are listed in first-seen order of their keys |
| `Consensus.DeduplicateConflicts` | src/git_utils.rs:633-754 | the method computes the deduplication specification: group, fold, list in first-seen order, sort stably by rank |
| `Consensus.RankTotalPreorder` | src/git_utils.rs:731-736 | the ranking comparator (file, line, group size descending, endpoint) is a total preorder |
| `Consensus.FirstSeenKeys` | src/git_utils.rs:696-727 | before ranking there is one fold per distinct key, in first-seen order, with no repetition |
| `Consensus.DedupFolds` | src/git_utils.rs:633-692 | each result is the fold of all the candidates with its key |
| `Consensus.DedupCovers` | src/git_utils.rs:696-727 | every input key has a result |
| `Consensus.DedupKeysDistinct` | src/git_utils.rs:696-751 | no two results share a key |
| `Consensus.DedupSizes` | src/git_utils.rs:683-690 | the group sizes of the results add up to the number of candidates |
| `Consensus.DedupPermutes` | src/git_utils.rs:731-751 | ranking only reorders the folds |
| `Consensus.DedupRanked` | src/git_utils.rs:729-751 | the results are sorted by file, line, group size descending and endpoint, and full ties keep first-seen order |
| `Consensus.DedupPanics` | src/git_utils.rs:651-688 | deduplication panics iff the fold of some candidate's group panics |
| `Sorting.Sort` | src/git_utils.rs:731-736 | the sort is a permutation of its input |
| `Sorting.SortSorted` | src/git_utils.rs:731-736 | under a total preorder the sort's output is ordered |
| `Sorting.SortStable` | src/git_utils.rs:731-736 | `sort_by` is stable: each class of equivalent elements keeps its input order |
| `Reconciler.Annotate` | src/git_utils.rs:475-511 | one annotation fails iff the insertion index is outside the file (the index at 492 panics), and is skipped iff that line opens with neither the end marker nor the resolution marker followed by a space |
| `Reconciler.AnnotateInverse` | src/git_utils.rs:503-511 | an annotation only inserts: removing the attribution line and the resolved lines gives back the file, and the lines above are unchanged |
| `Reconciler.ResolvedBlockLines` | src/git_utils.rs:504-511 | every inserted resolved line is one whole newline-terminated line |
| `Reconciler.AnnotateRereads` | src/git_utils.rs:468-513 | an annotated file, written and split again, gives the same lines |
| `Reconciler.AnnotatedRegion` | src/git_utils.rs:475-511 | annotating a parsed conflict inserts the attribution line and the resolved lines right above the region's end line, and none of them is shaped like an end-marker line when no resolved line is |
| `Reconciler.AnnotateReparses` | src/git_utils.rs:468-513 | when no resolved line looks like an end-marker line, the annotated file, parsed again from the region's first line, yields the same conflict (local, base, remote, start line) with `remote_end` moved past the inserted lines, and the attribution line is at the old end index, the region's first resolution marker when it had none |
| `Reconciler.AnnotateSameConflict` | src/git_utils.rs:456-511 | for two resolutions of one conflict, the one annotated last (the higher ranked) ends up above the other |
| `Reconciler.AnnotateBottomUp` | src/git_utils.rs:456-511 | annotating a later conflict first leaves an earlier conflict's insertion line in place, so both blocks land under their own conflicts |
| `Reconciler.InsertAnnotation` | src/git_utils.rs:503-511 | the inserts put the marker line and the resolved lines at the index and keep every other line |
| `Reconciler.AnnotateConflict` | src/git_utils.rs:475-511 | the loop body for one conflict computes the annotation specification |
| `Reconciler.AnnotateAll` | src/git_utils.rs:456-519 | the annotate pass writes no file that was not there before |
| `Reconciler.AnnotateAllFrame` | src/git_utils.rs:456-519 | a file with no resolved conflict is left unchanged |
| `Reconciler.Worktree.AnnotateRanked` | src/git_utils.rs:456-519 | the loop in reverse ranking order leaves the files and status that the annotate specification gives |
| `Reconciler.Worktree.ApplyResolvedConflicts` | src/git_utils.rs:453-519 | the candidates are deduplicated and then annotated; a deduplication panic changes no file |
| `Reconciler.FindResolved` | src/git_utils.rs:566-568 | the lookup finds a resolution of exactly this conflict, and `None` iff there is none |
| `Reconciler.FindResolvedFirst` | src/git_utils.rs:566-568 | the lookup yields the first resolution of the conflict in ranking order |
| `Reconciler.RegionEndFirst` | src/git_utils.rs:583-592 | the splice ends at the first end-marker line at or after the start line, or at the start line alone when none follows |
| `Reconciler.CollapseOutcome` | src/git_utils.rs:566-583 | a conflict is unresolved iff no resolution matches it, and the collapse panics iff it matches but its start line is not a line of the file |
| `Reconciler.CollapseRegion` | src/git_utils.rs:579-602 | a collapse replaces the region from the start line to its end-marker line by the resolved lines; lines above are unchanged and lines below follow the resolution |
| `Reconciler.CollapseSplice` | src/git_utils.rs:583-602 | a collapse is the splice of the first matching resolution over the region |
| `Reconciler.CollapseBottomUp` | src/git_utils.rs:564-603 | after a lower region has been replaced, an upper conflict collapses as it would have before, and both resolutions sit where their regions were |
| `Reconciler.CollapseAllFlag` | src/git_utils.rs:564-572 | a file is flagged unresolved iff one of its conflicts has no resolution |
| `Reconciler.FileOrder` | src/git_utils.rs:560-565 | taken last first, a file's conflicts come in descending start-line order, and they are all the file's conflicts |
| `Reconciler.CollapseConflict` | src/git_utils.rs:565-603 | the loop body with its end-marker search computes the collapse specification |
| `Reconciler.CollapseFile` | src/git_utils.rs:560-603 | one file's conflicts are sorted by start line and collapsed last first |
| `Reconciler.GroupByFile` | src/git_utils.rs:536-542 | the map holds exactly the files that have conflicts, each with its conflicts in input order |
| `Reconciler.Worktree.CollapseFiles` | src/git_utils.rs:544-609 | every file with conflicts holds its collapsed text, and the result is true iff every conflict found a resolution |
| `Reconciler.Worktree.ApplyVibeResolution` | src/git_utils.rs:528-631 | `git add -u` runs exactly when every conflict found a resolution; a deduplication panic changes no file |
| `MergeMessage.BlankIffTrimmedEmpty` | src/git_utils.rs:901 | a line is blank iff its trimmed text is empty |
| `MergeMessage.HeaderIffTrimmed` | src/git_utils.rs:892 | a line is the header iff its trimmed text is `# Conflicts:` |
| `MergeMessage.TrailerIffRegex` | src/git_utils.rs:908-911 | the trailer test agrees with the regular expression `^[A-Z][^\s]*-by:\s.*\n$` |
| `MergeMessage.ConflictsIndexFirst` | src/git_utils.rs:889-896 | the insertion search starts at the first `# Conflicts:` line, or at the end when there is none |
| `MergeMessage.LastNonBlank` | src/git_utils.rs:898-904 | the backward walk stops at the last non-blank line, or at line 0 when all lines before are blank |
| `MergeMessage.FindConflictsHeader` | src/git_utils.rs:889-896 | the forward scan finds the first header line |
| `MergeMessage.SkipBlankLines` | src/git_utils.rs:898-904 | the backward scan stops at the last non-blank line |
| `MergeMessage.FindTrailer` | src/git_utils.rs:906-915 | the backward scan finds whether a trailer line precedes the insertion point |
| `MergeMessage.UpdateMergeMessage` | src/git_utils.rs:880-919 | the scans compute the corrected `Updated`: the source's result on every non-empty message (`AsWrittenAgrees`), and the bare trailer block on the empty message where the source panics (`EmptyMessagePanics`) |
| `MergeMessage.InsertAfterText` | src/git_utils.rs:889-904 | with text before the header, the line goes right after the last non-blank line before it |
| `MergeMessage.InsertAfterFirstLine` | src/git_utils.rs:898-906 | with only blank lines before the header, the line goes after the first line |
| `MergeMessage.UpdatedInserts` | src/git_utils.rs:884-921 | the new message is the old one with exactly the inserted text added at a line boundary |
| `MergeMessage.SeparatorIffNoTrailer` | src/git_utils.rs:906-918 | the empty separator line is written iff no trailer line precedes the insertion point |
| `MergeMessage.TaggedUnchanged` | src/git_utils.rs:880-882 | a message that already holds the `Assisted-by:` line is left unchanged |
| `MergeMessage.UpdatedCarriesLine` | src/git_utils.rs:917-919 | after the update the message holds the `Assisted-by:` line |
| `MergeMessage.UpdatedIdempotent` | src/git_utils.rs:880-919 | a second update changes nothing |
| `MergeMessage.EmptyMessagePanics` | src/git_utils.rs:906-911 | as written, an empty message panics on `lines[0]`; the corrected update writes just the line |
| `MergeMessage.AsWrittenAgrees` | src/git_utils.rs:884-919 | on every non-empty message the corrected update equals the code as written |
| `DiffFilter.IncludeIffOutsideHeader` | src/git_utils.rs:1041-1053 | the include flag is set exactly outside the lines between a `diff --git` line and the next `---` line |
| `DiffFilter.DroppedIffBetween` | src/git_utils.rs:1043-1053 | a line is dropped iff it lies strictly between a `diff --git` line and the next `---` line; those two lines are always kept |
| `DiffFilter.FilterPrefix` | src/git_utils.rs:1043-1053 | the output for the first lines is a prefix of the whole output |
| `DiffFilter.KeptLineInOutput` | src/git_utils.rs:1043-1055 | each kept line appears in the output at the position given by the kept lines before it |
| `DiffFilter.DroppedLineSkipped` | src/git_utils.rs:1050-1052 | a dropped line adds nothing to the output |
| `DiffFilter.FilterRereads` | src/git_utils.rs:1039-1055 | the joined output splits back into exactly the kept lines |
| `DiffFilter.FilterShowOutput` | src/git_utils.rs:1039-1055 | the filter loop yields the kept lines joined |
| `DiffFilter.GitShowResult` | src/git_utils.rs:1031-1056 | a failed `git show` gives `None`; a file request gives stdout unchanged; a diff gives the filtered text |
| `Prob.PatchWindow` | src/prob.rs:48-52 | the window exists iff both sentinels occur, and runs from the end of the first `start + "\n"` to the first `end` |
| `Prob.ScanFailureStays` | src/prob.rs:54-58 | once a missing field has returned `None`, later tokens change nothing |
| `Prob.ScanLogprobs` | src/prob.rs:56 | a completed scan saw a log-probability on every token |
| `Prob.ScanMin` | src/prob.rs:63-93 | the in-range minimum exists iff a counted token starts in the window, and is the lowest log-probability among those tokens, attained by one of them |
| `Prob.ScanRawMin` | src/prob.rs:59-69 | the raw minimum ranges over every token except a trailing empty one, whatever its offset |
| `Prob.RawMinBelowMin` | src/prob.rs:59-93 | the raw minimum is at most the in-range minimum |
| `Prob.ScanScores` | src/prob.rs:71-88 | exactly the in-range tokens with two alternatives are scored, once each, in token order |
| `Prob.SpreadOfTwo` | src/prob.rs:76-88 | a token's score is `(max - min) * -max` of its two alternatives |
| `Prob.RankedByScore` | src/prob.rs:107-108 | the positions are visited from the highest score down, and each scored token once |
| `Prob.FirstDifferentMeaning` | src/prob.rs:141-149 | the chosen alternative is the first whose text differs from the token's |
| `Prob.SearchAppends` | src/prob.rs:127-153 | the search only appends, and stops once two beams are held |
| `Prob.SearchBeams` | src/prob.rs:127-153 | each new beam is the text before the token plus its first differing alternative, for a token and alternative that do not end in whitespace |
| `Prob.ConfidenceIsPatchMinimum` | src/prob.rs:54-117 | a confidence is the lowest log-probability among tokens starting in the window, attained by one of them |
| `Prob.NoConfidenceWithoutPatchTokens` | src/prob.rs:54-99 | with no token in the window, or a token without a log-probability, there is no confidence and no beam |
| `Prob.NoTraceNoConfidence` | src/prob.rs:12-31 | a response without a trace, or with an empty one, has no confidence |
| `Prob.LogprobBeams` | src/prob.rs:107-153 | the caller's beams stay in place as a prefix, and the search adds at most one beam past the caller's unless the total stays within `PERPLEXITY_BEAMS - 1` |
| `Prob.ExampleWindow` | src/prob.rs:198-232 | in the test trace the window covers the offsets of `"2"` and `" "` |
| `Prob.PatchExample` | src/prob.rs:197-239 | the test trace gives the confidence `-2.0` |
| `Prob.JoinTokens` | src/prob.rs:42-46 | the loop joins the token texts, or fails where a token has no text |
| `Prob.TopBounds` | src/prob.rs:79-85 | the loop finds the lowest and highest alternative log-probability, or fails where one is missing |
| `Prob.FindAlternative` | src/prob.rs:141-149 | the loop finds the first differing alternative |
| `Prob.ScanTokens` | src/prob.rs:54-94 | the scoring loop computes the scan specification over the whole trace |
| `Prob.PerplexitySearch` | src/prob.rs:120-157 | the search loop computes the beam specification |
| `Prob.Logprob` | src/prob.rs:10-118 | the method computes the confidence and beams of the scorer specification |
| `GitLog.CommitHeader` | tools/backtest_stable.py:38 | a header yields a 40-digit lowercase hex hash |
| `GitLog.UpstreamOf` | tools/backtest_stable.py:39-42 | an upstream line yields a 40-digit lowercase hex hash |
| `GitLog.Classify` | tools/backtest_stable.py:52-65 | the header pattern is tried first, so the two upstream forms never count as headers |
| `GitLog.UpstreamTagLine` | tools/backtest_stable.py:41 | `[ Upstream commit <h> ]` is one upstream line carrying `h` |
| `GitLog.FirstUpstreamMeaning` | tools/backtest_stable.py:60-65 | only the first upstream line of a block is recorded |
| `GitLog.CloseBlock` | tools/backtest_stable.py:52-57 | closing a block emits its pair iff an upstream line came after its header |
| `GitLog.ParseInvariant` | tools/backtest_stable.py:44-65 | after each line the loop holds the pairs of the closed blocks, the open commit and the first upstream since it |
| `GitLog.ParsedIsBlocks` | tools/backtest_stable.py:30-71 | the output is one pair per header with an upstream line in its block, in input order |
| `GitLog.PicksAreHashes` | tools/backtest_stable.py:38-42 | every output pair names a commit, and both hashes are 40 hex digits |
| `GitLog.NoCommitLinesOnKinds` | tools/backtest_stable.py:44-69 | with no header line the loop closes no block; as written the final test adds `(None, u)` for the first upstream hash `u` if there is one, and the corrected test adds nothing |
| `GitLog.NoCommitLines` | tools/backtest_stable.py:30-71 | a log without header lines parses, as written, to `[(None, u)]` for its first upstream hash `u`, or to nothing when it has no upstream line; corrected, to nothing |
| `GitLog.OrphanUpstream` | tools/backtest_stable.py:67-69 | an instance of `GitLog.NoCommitLines`: the one-line log `[ Upstream commit <h> ]` yields `(None, h)` as written and nothing corrected |
| `GitLog.AsWrittenAgrees` | tools/backtest_stable.py:67-69 | once any header has been seen, the parser as written equals the corrected one |
| `GitLog.ParseLine` | tools/backtest_stable.py:49-65 | the loop body for one stripped line is one step of the specification |
| `GitLog.ParseLines` | tools/backtest_stable.py:48-65 | the loop over the lines computes the specification's state |
| `GitLog.ParseGitLog` | tools/backtest_stable.py:30-71 | the parser returns the corrected specification's pairs |

## Left out

- Process execution: `GitCommand`, `check_diff3`, the subprocesses of
  `find_conflicts`, `get_git_root_uncached`, `get_git_dir_uncached`, the
  `git check-attr` call and `git add -u`. The exit status and stdout of a git
  call are parameters (`Markers.MarkerSizeForFile`, `DiffFilter.GitShowResult`).
  Staging is the boolean that `Worktree.ApplyVibeResolution` returns.
- File I/O: every `fs::read_to_string` and `fs::write`, modelled as the `files`
  map of `Reconciler.Worktree`. Also `find_commit_hash` (file existence and
  modification times) and the reading and writing of the merge-message file
  around the trailer insertion.
- Regex compilation in `parse_conflict_from_file`. It is replaced by an
  equivalent line scan over the `split_inclusive('\n')` lines.
- `println!`, `log::*` and `print_logprob_diff`, which only log. The
  `raw_min_logprob_pos` and `min_logprob_pos` positions are used only for
  logging, so the model keeps the minima but not their positions.
- `logprob_to_prob` (floating-point `powf` and `clamp`). The confidence
  percentage text is a function parameter of the annotate pass.
- f64 arithmetic: log-probabilities, durations and means are `real`. NaN,
  infinities (the initial infinities become `None`), `total_cmp` and the
  `partial_cmp().unwrap()` panic on NaN are not modelled.
- Prob.Logprob: `sort_unstable_by` is modelled as a stable sort. The order among
  tokens with equal scores is therefore not the source's unspecified order.
- Prob.Logprob: string offsets are counted in characters, not UTF-8 bytes. Every
  offset compared is a character boundary of the same string, so the in-range
  test is unchanged.
- Consensus.FoldGroups and Reconciler.Worktree.CollapseFiles: `HashMap`
  iteration order is left free (an arbitrary pick from the pending keys). Only
  the outcome where no panic happens is stated. When several groups or files
  would fail, which error is reported is not modelled.
- The `serde_json` navigation in `src/prob.rs`. A response is an optional
  sequence of token records whose fields are optional.
- `PATCHED_CODE_START` and `PATCHED_CODE_END` are defined in
  `conflict_resolver.rs`, which is not part of this model. They are parameters;
  `Prob.PatchExample` holds for any sentinels meeting its precondition.
- `src/telemetry.rs` (HTTP submission, hashing, environment reads),
  `src/main_args.rs` (CLI declaration), `build.rs` (man page), and every part of
  `tools/backtest_stable.py` other than `parse_git_log`.
- The `CONTEXT_BEYOND_MARKER` branch of `gen_context` is switched off by a
  constant, so the model has only the `take_while` branch.
  `remove_conflict_markers` is modelled on its own.
- Reconciler.Worktree.ApplyResolvedConflicts and ApplyVibeResolution: the
  `update_merge_message` call at their end is modelled separately, as
  `MergeMessage.UpdateMergeMessage` on the message text.
- Integer widths: `usize` arithmetic is unbounded, apart from the
  `usize::from_str` range check and the underflow of
  `start_line + remote_end - 1`. That underflow is a failure, not a wrap-around.
- Consensus.MeanTokens: the `u64` sum of `total_tokens` in
  `deduplicate_conflicts` (src/git_utils.rs:655-662) is unbounded. An overflow
  would panic in a debug build and wrap in a release build; neither is modelled.

## Findings

| source | as written | input that shows it | evidently intended | confidence | as-written member | corrected member |
|---|---|---|---|---|---|---|
| src/git_utils.rs:906-911 | the trailer scan starts from `i = insert_pos + 1` and reads `lines[i]` after decrementing; for an empty message `insert_pos` is 0 and `lines` is empty, so `lines[0]` panics | an existing but empty merge-message file | an empty message receives the `Assisted-by:` line, as any message without one does | not executed | `MergeMessage.EmptyMessagePanics` | `MergeMessage.UpdatedCarriesLine` |
| tools/backtest_stable.py:67-69 | the final append tests `upstream_commit and upstream_pattern`; the loop variable `upstream_pattern` is always truthy there, so the open commit is never checked | a log whose only relevant line is `[ Upstream commit <hash> ]`, with no `commit <hash>` header | `current_commit and upstream_commit`, as in the test inside the loop at line 53, so a pair is emitted only for a commit header | not executed | `GitLog.OrphanUpstream` | `GitLog.ParsedIsBlocks` |
