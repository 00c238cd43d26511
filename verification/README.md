# Mousse: models of its self-contained algorithms and protocols

Mousse is a desktop workspace for coding agents: a daemon that owns a home directory, agents that stream activity, and a
window that shows threads, diffs and surfaces. This project models, in Dafny, the parts of it that are decided by their own
code, and proves what each is for.

| modules | what they model |
|---|---|
| Utf16, OutputCap, StreamedOutput | cutting command output to a byte budget at character and line boundaries, at once and chunk by chunk |
| PullRequestSeed, QuotedText | the size limit and the quoting of the message a pull request starts a thread with |
| Lines, Decimals, DiffHunk, UnifiedDiff, DiffReading | building a unified diff of two texts, reading its sides back, counting its lines |
| FuzzyMatch, FuzzyScore, FuzzyRank | matching a query in a path, and keeping the best matches of many paths |
| ReviewText, ChatReferences, ReferenceBlocks, BlockContents, ReferenceExtraction, ReferenceRoundTrip, ReferenceMessages | references in a message: reading untrusted data, writing the block, reading it back |
| RuntimeFiles, RuntimeRuns | the owner lease and the runtime record of a home, and what every process sees of them |
| DaemonTeardown, DaemonStartup | shutdown passes over a daemon that is still starting |
| WindowShape | the rounded shape of a frameless window |
| TaskLineage | which tasks a task's lifecycle owns |
| AppletFences, FenceLines | applet submissions in fenced code blocks (CommonMark, section 4.5) |
| PermissionModes | the lattice of permission modes and the ceiling a thread inherits |
| LineEditStats, MapSums | line edit counts, streaks and usage totals |
| ThreadBranches | naming a thread's branch |
| Bindings, BindingTexts, Commands, CommandContexts, CommandConflicts, StoredShortcuts | key bindings, which command a key runs, conflicts and stored shortcuts |
| Options, Sequences, Strings | shared helpers |

## How the source is read

- Text is a sequence of UTF-16 units where bytes and surrogate pairs matter (Utf16, OutputCap, StreamedOutput,
  PullRequestSeed, QuotedText, FuzzyMatch, FuzzyScore, FuzzyRank), with the UTF-8 encoding of RFC 3629, section 3. Elsewhere a `char` stands for one
  unit (one code point in Bindings) and limits count them.
- Objects that the source updates in place are classes (`Home`, `DaemonLifecycle`), loops are methods with loops, and each is
  proved against a function that the lemmas are about. `Home` and `DaemonLifecycle` tie every method to one step of a state
  machine, and the theorems about runs are about sequences of those steps, interleaved in every possible way.
- Each exported function of the runtime files is one step, and so is each stretch of shutdown code between two awaits. A
  clock, which deletions succeed and which processes are alive are parameters or part of the world.
- Fuzzy scores are in tenths. Days are numbers. Applet JSON, `JSON` with `encodeURIComponent`, and the Unicode tables behind
  key bindings are parameters with the laws the code needs: decoding undoes encoding, an encoded header holds no quote,
  newline or closing bracket, upper-casing a letter twice is upper-casing it once. Bindings.AsciiIsLawful shows the laws of
  key bindings on the ASCII tables; those of the reference codec can be met because there are only countably many lists of
  parsed references, so each can be given a numeral of its own.
- A command is known by its place in the table, and its default binding by its keys; stored shortcuts are read after unknown
  command names are dropped.
- Task records have one id each, as the store's one file a task gives (src/mms/lifecycle/ResourceLifecycleStore.ts:140-146).
- Conditions such as `WellFormed`, `HeaderFree` or `Stable` are stated on the input. Tokens of leases are random in the
  source; where a law needs them to differ the condition says so (`FreshTokens`).
- A process may die with the owner file created or emptied and not yet written, which leaves it unreadable.
- A part of the daemon's startup that is already in the queue of promise jobs comes before a pass that is queued after it.

## Where the code and its documentation part

The models follow the code.

- `TextDecoder` drops a byte order mark, so `capHead` and `clipBytes` can cut one text differently
  (PullRequestSeed.HeadAndClipAgreeIff).
- The truncated flag of streamed output is about the largest text ever held, not about the byte total; the two part exactly
  when an append that still matters joins a control sequence or a surrogate pair, or strips what an earlier pass left
  (StreamedOutput.FlagExactIff).
- A command that is too long and already ends in the truncation mark is not cut (StreamedOutput.BoundCommandSize).
- The exact-basename bonus of the fuzzy score is never earned (src/shared/fuzzyPath.ts:64-90): no position counts as following
  the one before the first, and the bonus asks for that.
- `diffSides` misreads a built diff exactly when the path has a later line that starts like a hunk header, and
  `diffLineCounts` misses content that starts with `--` or `++`.
- A comment that is an indented block marker, and an excerpt whose first line is blank beyond the limit, do not parse to
  themselves. A text with the header line of a block in it does not come back from a message with references, although it
  holds no whole block (ReferenceRoundTrip.TextReadsBackIff).
- `resolveRuntimeStatus` deletes a dead owner's lease, although its comment says that it leaves the lease alone; and a reused
  pid makes a dead daemon look alive to every process but the one that reuses it (RuntimeRuns.DeadDaemonReportedIffPidReused).
- The winner that `findConflicts` names is not what a key runs when a command of another scope, which overlaps none of the
  others, comes earlier in the table (CommandConflicts.ReportAgreesWithDispatch).
- A capped excerpt drops a last whole line that would still fit when it ends exactly at the limit (ReviewText.KeptIsLongestIff).
- An empty query lists a deeper path before a shallower one that is longer by a thousand characters or more for each slash
  (FuzzyRank.ShallowerFirstIff).
- Punctuation typed on a physical letter or digit key is read as that key, although the comment says that punctuation follows
  the layout only (BindingTexts.TypedOnLetterKey).
- That a child's ceiling is its parent's mode narrowed by its parent's ceiling holds on cyclic lineage as well.

## Model

| member | source | states |
|---|---|---|
| Utf16.EncodeConcat | src/shared/agentActivity.ts:134-139 | the UTF-8 bytes of two texts put together are the bytes of the one followed by those of the other, unless the cut splits a surrogate pair |
| Utf16.ByteLengthMonotone | src/shared/agentActivity.ts:134-139 | a longer prefix never has fewer bytes, and always more when it is strictly longer |
| Utf16.CharacterStart | src/shared/agentActivity.ts:159-183 | a byte position that is no continuation byte is exactly where some whole character starts, so both byte scans land between characters |
| Utf16.DecodeEncode | src/shared/agentActivity.ts:159-183 | decoding the encoded bytes gives back the text with lone surrogates replaced |
| Utf16.EncodeRepaired | src/shared/agentActivity.ts:159-183 | replacing lone surrogates changes no byte, so byte counts before and after agree |
| OutputCap.StripShorter | src/shared/agentActivity.ts:141-146 | removing control sequences and NULs never adds bytes, even when it joins surrogate halves |
| OutputCap.PlainUnitStays | src/shared/agentActivity.ts:141-146 | a unit that is neither ESC nor NUL stays, whatever follows it |
| OutputCap.NulGoes | src/shared/agentActivity.ts:141-146 | a NUL goes, and the rest is stripped as if it stood alone |
| OutputCap.TitleGoes | src/shared/agentActivity.ts:138-146 | `ESC ]` and a title goes with its end, a BEL or `ESC \`, whatever the title holds but these |
| OutputCap.CsiGoes | src/shared/agentActivity.ts:138-146 | `ESC [` goes with its parameters, intermediates and final unit |
| OutputCap.ShortEscapeGoes | src/shared/agentActivity.ts:138-146 | ESC and one unit from `@` to `_` go, unless they open a longer sequence |
| OutputCap.OpenCsiStays | src/shared/agentActivity.ts:141-146 | a sequence with parameters and no final unit stays, but for what is in the rest |
| OutputCap.OpenTitleLosesOpening | src/shared/agentActivity.ts:138-146 | of a title that is never ended only its two opening units go |
| OutputCap.LoneEscapeStays | src/shared/agentActivity.ts:141-146 | an ESC that opens nothing stays |
| OutputCap.HeadFitLongest | src/shared/agentActivity.ts:176-183 | the head cut is the longest whole-character prefix within the cap: every longer one is over it |
| OutputCap.TailCutLongest | src/shared/agentActivity.ts:159-173 | the tail cut is the longest whole-character suffix within the cap |
| OutputCap.CapHead | src/shared/agentActivity.ts:176-183 | the backward byte scan finds exactly that prefix, with the exact byte total and flag |
| OutputCap.HeadedIsPrefix | src/shared/agentActivity.ts:176-183 | the kept head is a prefix of the text (after a byte order mark the decoder drops) within the cap, cut exactly when the text exceeds the cap |
| OutputCap.CutBytes | src/shared/agentActivity.ts:159-173 | the forward byte scan for the tail stops at the first character of the longest fitting suffix, and its line test reads the character before it |
| OutputCap.CapTail | src/shared/agentActivity.ts:159-173 | the whole of `capTail` computes the specified tail, total and flag |
| OutputCap.KeptFits | src/shared/agentActivity.ts:159-173 | what is kept never exceeds the cap, whatever the text |
| OutputCap.KeptIsSuffix | src/shared/agentActivity.ts:159-173 | what is kept of a well-formed text is a well-formed suffix of it |
| OutputCap.KeptStartsLine | src/shared/agentActivity.ts:159-173 | the kept tail starts at a line start whenever it holds a line break before its end |
| OutputCap.KeptIsLongestFromLine | src/shared/agentActivity.ts:159-173 | what is kept reaches back at least as far as every suffix that starts a line and fits |
| StreamedOutput.AppendTail | src/shared/agentActivity.ts:186-197 | after one chunk the text is within the cap and is the whole extended text when that fits, the byte count has grown by exactly the chunk's own bytes, and the flag is kept once set and set as soon as something is cut |
| StreamedOutput.StreamFits | src/shared/agentActivity.ts:186-197 | whatever arrives, in whatever chunks, the stream never holds more than the cap |
| StreamedOutput.StreamTotals | src/shared/agentActivity.ts:186-197 | over any split into chunks the byte total is exact, the flag is set exactly when some intermediate text exceeded the cap, and while it is not set nothing was lost |
| StreamedOutput.PeakWithinTotal | src/shared/agentActivity.ts:186-197 | the largest intermediate size lies between the size of the joined text and the byte total |
| StreamedOutput.FlagExactIff | src/shared/agentActivity.ts:186-197 | the flag says "total exceeds the cap" for every cap exactly when every append, up to the last chunk that adds something, joins no control sequence and no surrogate pair over its boundary and strips nothing that was held |
| StreamedOutput.FlagExactWhenSelfContained | src/shared/agentActivity.ts:186-197 | chunks that each leave no such sequence open set the flag exactly when the byte total exceeds the cap |
| StreamedOutput.SplitSequenceMissesFlag | src/shared/agentActivity.ts:186-197 | a control sequence split over two chunks counts bytes that are no longer kept: total above the cap, flag clear |
| StreamedOutput.NestedSequenceMissesFlag | src/shared/agentActivity.ts:141-197 | one chunk can do the same: what is left of a nested control sequence is stripped once more |
| StreamedOutput.StreamIsSuffix | src/shared/agentActivity.ts:186-197 | for well-formed chunks, as long as every append keeps everything, the streamed text is a suffix of the joined text |
| StreamedOutput.SelfContainedStreamIsSuffix | src/shared/agentActivity.ts:186-197 | so for chunks that each leave no control sequence or surrogate pair open it is a suffix of everything sent |
| StreamedOutput.CutSequenceLeavesRest | src/shared/agentActivity.ts:186-197 | without that guard it need not be: a control sequence cut in two by the cap leaves its second half behind |
| StreamedOutput.KeptStep | src/shared/agentActivity.ts:186-197 | for single-byte text, cutting, appending and cutting again keeps what one cut of the whole keeps |
| StreamedOutput.StreamingEqualsCapping | src/shared/agentActivity.ts:186-197 | for single-byte text without control sequences, streaming any chunks ends exactly where one `capTail` of the whole does |
| StreamedOutput.MergedChunksIsStream | src/shared/agentActivity.ts:706-739 | merging append patches into a command item is that stream at the output cap |
| StreamedOutput.StreamingEqualsReporting | src/shared/agentActivity.ts:706-739 | so streamed plain output and one final replacement leave the same command item |
| StreamedOutput.BoundCommandIdempotent | src/shared/agentActivity.ts:661-680 | bounding a command item twice is bounding it once |
| StreamedOutput.BoundCommandSize | src/shared/agentActivity.ts:661-680 | the bounded command fits the cap plus the mark except exactly when it arrived over that size and already ending in the mark |
| StreamedOutput.LongMarkedCommandStays | src/shared/agentActivity.ts:661-680 | a command that stays over the limit |
| StreamedOutput.BoundCommandKeepsHead | src/shared/agentActivity.ts:661-680 | bounding changes nothing but the command; one that fits or is marked stays, any other becomes its longest whole-character prefix within the cap and the mark |
| StreamedOutput.ReplacedOutputIs | src/shared/agentActivity.ts:724-739 | a replaced output is within the cap and whole when it fits; its size is its own or the one told, whichever is larger; the flag says it was cut here or told to be |
| StreamedOutput.PatchWithoutOutput | src/shared/agentActivity.ts:706-722 | a patch without output leaves the output and takes over only what it says |
| PullRequestSeed.ClipBytes | src/shared/pullRequestSeed.ts:99-111 | the binary search over UTF-16 units returns the longest whole-character prefix within the limit of any well-formed text |
| PullRequestSeed.DropHighIsLongest | src/shared/pullRequestSeed.ts:99-111 | stepping back from a split pair turns the longest fitting run of units into the longest fitting run of characters |
| PullRequestSeed.HeadAndClipAgreeIff | src/shared/pullRequestSeed.ts:99-111 | `capHead` and `clipBytes` agree on a well-formed text exactly unless a byte order mark at its start is cut with it |
| PullRequestSeed.MarkedTextDisagrees | src/shared/pullRequestSeed.ts:99-111 | a marked text on which the two cuts differ |
| PullRequestSeed.FinishSeed | src/shared/pullRequestSeed.ts:145-148 | the finished seed never exceeds the limit, is the whole text when that fits, and otherwise ends in the truncation note after the longest fitting prefix |
| PullRequestSeed.EveryQuotedLineIsMarked | src/shared/pullRequestSeed.ts:25-32 | every line a reader sees in quoted text starts with `>`, whatever line breaks the text holds |
| QuotedText.QuoteKeepsVisible | src/shared/pullRequestSeed.ts:25-32 | of a text within the limit the quote, its marks taken off, shows every visible character in order |
| QuotedText.QuoteShowsBeginning | src/shared/pullRequestSeed.ts:25-32 | whatever the limit, it shows all that is visible, or a beginning of it and an ellipsis |
| QuotedText.CleanTextIsQuotedByLine | src/shared/pullRequestSeed.ts:25-32 | a text that needs no cleaning is quoted line by line, each line behind `> ` without the white space at its end |
| Lines.SplitJoin | src/shared/agentActivity.ts:230-235 | splitting joined lines gives the lines back |
| DiffHunk.SharedEnds | src/shared/agentActivity.ts:247-251 | the two counting loops find the longest common prefix and, of the rest, the longest common suffix |
| DiffHunk.Decomposition | src/shared/agentActivity.ts:247-258 | both texts are the same outer lines around what was removed and what was added |
| DiffHunk.HunkSplices | src/shared/agentActivity.ts:252-266 | at the header's numbers the hunk turns the old lines into the new ones and back, its counts match its body, and a count is zero exactly for an empty side |
| DiffHunk.HunkIsSmallest | src/shared/agentActivity.ts:247-258 | no other single replacement that turns the old lines into the new ones removes or adds fewer lines |
| DiffHunk.NothingChangedIff | src/shared/agentActivity.ts:247-258 | nothing is removed or added exactly when the lists are equal |
| DiffHunk.ContextIsThree | src/shared/agentActivity.ts:237-257 | a hunk shows three lines of context on each side, or all that both texts share there |
| UnifiedDiff.BuildUnifiedDiff | src/shared/agentActivity.ts:240-269 | the built text and counts are those of that hunk |
| UnifiedDiff.EmptyIffSameLines | src/shared/agentActivity.ts:240-269 | the diff is empty, and counts nothing, exactly when the line sequences are equal |
| UnifiedDiff.HeaderReadsBack | src/shared/agentActivity.ts:304-309 | a printed hunk header reads back its four numbers, whatever follows it |
| UnifiedDiff.DiffSides | src/shared/agentActivity.ts:280-302 | the reading loop computes the two sides |
| UnifiedDiff.ReadsBackIff | src/shared/agentActivity.ts:280-302 | reading a built diff gives back exactly the old and new windows if and only if no later line of the path starts like a hunk header |
| UnifiedDiff.HeaderInPathMisreads | src/shared/agentActivity.ts:280-302 | a path with a line `@@`: no built diff reads back |
| UnifiedDiff.DiffShowsItsWindows | src/shared/agentActivity.ts:240-302 | for every one-line path, the sides read back are the windows of the two texts at the header's numbers |
| DiffReading.HeaderReadIff | src/shared/agentActivity.ts:304-309 | a line counts as a hunk header exactly when it starts with the written form of one, in which each count may be missing |
| DiffReading.PlainFileReads | src/shared/agentActivity.ts:280-284 | a text with no hunk header at the start of a line is the new text of an added file and the old text of a deleted one, as it is; the other side is empty |
| DiffReading.KindMattersOnlyWithoutHeader | src/shared/agentActivity.ts:280-302 | with such a header the kind of change makes no difference |
| DiffReading.EveryLineIsAnItem | src/shared/agentActivity.ts:288-300 | every line is a header, a line of a body, or a note that is on neither side |
| DiffReading.BareLinesRead | src/shared/agentActivity.ts:285-302 | an update that never mentions `@@` reads as the two sides of all its lines |
| DiffReading.HunksRead | src/shared/agentActivity.ts:285-302 | otherwise the lines before the first header are on neither side, and those of all hunks are joined in order, notes left out |
| DiffReading.SplitLinesAre | src/shared/agentActivity.ts:230-235 | the lines of a text are what stands between its newlines; a newline at the end begins no further one, and an empty text has none |
| UnifiedDiff.DiffLineCounts | src/shared/agentActivity.ts:220-228 | the counts are the lines that start with one mark but not with the file header's three |
| DiffReading.CountIsNumber | src/shared/agentActivity.ts:220-228 | a count is the number of the lines that start with one mark and not with three |
| UnifiedDiff.CountsOfBuilt | src/shared/agentActivity.ts:220-269 | counting a built diff gives the built counts less the lines whose content starts with `--` or `++` |
| FuzzyMatch.SubsequenceEnd | src/shared/fuzzyPath.ts:104-111 | the forward loop finds the earliest end |
| FuzzyMatch.EndIsEarliest | src/shared/fuzzyPath.ts:104-111 | no match ends before the greedy one |
| FuzzyMatch.FillBackward | src/shared/fuzzyPath.ts:93-101 | the backward fill writes the latest match with that end into the scratch array |
| FuzzyMatch.LatestIsTightest | src/shared/fuzzyPath.ts:93-101 | every match up to that end is pointwise no later |
| FuzzyMatch.ScorePositions | src/shared/fuzzyPath.ts:64-90 | the score of a list of positions, in tenths |
| FuzzyMatch.MatchInto | src/shared/fuzzyPath.ts:123-146 | the two attempts over reused scratch arrays give the specified match and leave its positions in the output array |
| FuzzyMatch.NullIffNoSubsequence | src/shared/fuzzyPath.ts:123-146 | there is no match exactly when the query is no subsequence of the path |
| FuzzyMatch.WindowIsEarliestAndTightest | src/shared/fuzzyPath.ts:93-111 | an attempt ends earliest of all matches from its start and is pointwise latest of those with that end |
| FuzzyMatch.ReportedMatch | src/shared/fuzzyPath.ts:123-146 | the reported positions spell the query in ascending order; they are the whole-path window, or the basename window when that scores higher, which stays in the basename |
| FuzzyMatch.BasenameTriedIff | src/shared/fuzzyPath.ts:123-146 | the basename attempt succeeds exactly when some match lies in the basename |
| FuzzyScore.ScoreInClosedForm | src/shared/fuzzyPath.ts:64-90 | the score counted by sets: 160 a letter, 120 for each that follows on, minus 10 for each unit skipped up to six a gap, 100 for each segment start, 60 for each letter in the basename, 200 for all there, 150 for the first at its start, minus the length of the path |
| FuzzyScore.SegmentStarts | src/shared/fuzzyPath.ts:55-62 | where a segment starts: at the front, after a separator, or at a capital after a small letter |
| FuzzyScore.ClosingGapRaises | src/shared/fuzzyPath.ts:64-90 | taking one skipped unit out of a match raises its score |
| FuzzyScore.UnbrokenScoresHigher | src/shared/fuzzyPath.ts:123-146 | of two paths that differ by one unit inserted into the match the unbroken one scores higher |
| FuzzyScore.UnbrokenRanksFirst | src/shared/fuzzyPath.ts:172-199 | and is ranked before the other |
| FuzzyRank.StableSortSorts | src/shared/fuzzyPath.ts:172-199 | the reference sort orders by score, ties in candidate order, and keeps every entry |
| FuzzyRank.SortIsUnique | src/shared/fuzzyPath.ts:172-199 | there is one such order |
| FuzzyRank.InsertIntoTop | src/shared/fuzzyPath.ts:185-198 | inserting into the first `limit` entries and cutting again loses nothing of inserting into all of them |
| FuzzyRank.InsertionPoint | src/shared/fuzzyPath.ts:191-196 | the insertion index keeps ties in candidate order |
| FuzzyRank.RankFuzzyPaths | src/shared/fuzzyPath.ts:172-199 | the bounded array ends as the first `limit` entries of the stable sort of all matches of the scanned prefix; the scan is complete exactly when it was not stopped |
| FuzzyRank.NothingBetterIsLeftOut | src/shared/fuzzyPath.ts:172-199 | a scanned match is missing only when `limit` entries are all before it |
| FuzzyRank.ShallowerFirstIff | src/shared/fuzzyPath.ts:160-172 | an empty query lists the path with fewer slashes first exactly when it is not longer by a thousand characters, or more, for each slash it has less |
| FuzzyRank.EmptyQueryFillsList | src/shared/fuzzyPath.ts:172-199 | and leaves no scanned path out while there is room |
| FuzzyRank.ScanStops | src/shared/fuzzyPath.ts:183-187 | the scan ends before the first candidate, at a multiple of the interval, at which the clock is past the deadline, and otherwise covers all |
| ReviewText.NeutralizeIsNeutral | src/shared/chatReferences.ts:54-60 | the result has no stripped control character and no line that starts like a block marker |
| ReviewText.NeutralizeFixedIff | src/shared/chatReferences.ts:54-60 | exactly the neutral texts are left alone, so a second pass changes nothing |
| ReviewText.NeutralizeKeepsLines | src/shared/chatReferences.ts:54-60 | the lines of the result are the lines of the stripped text, each unchanged, or with one space behind the bracket of a marker |
| ReviewText.NeutralizeGrowth | src/shared/chatReferences.ts:49-60 | the rewrite adds at most one character a line |
| ReviewText.CapReviewExcerpt | src/shared/chatReferences.ts:73-94 | the steps of the source compute the specified cut |
| ReviewText.CappedLaws | src/shared/chatReferences.ts:72-94 | the cut is idempotent, within 41 lines and 4098 characters, and changes exactly the texts that neither fit nor were cut to fit |
| ReviewText.CappedFixedIff | src/shared/chatReferences.ts:37-94 | an excerpt is left alone exactly when, a cut mark apart, it has at most forty lines and 4096 characters |
| ReviewText.KeptIsLongestIff | src/shared/chatReferences.ts:73-94 | of a longer one the longest prefix of whole lines that fits is kept, if there is one, except exactly when a line ends right at the limit behind an earlier line: that line is dropped although it fits |
| ReviewText.LongLineIsCut | src/shared/chatReferences.ts:73-94 | when no whole line fits, the first 4096 characters are kept |
| ReviewText.CommentKeptIff | src/shared/chatReferences.ts:128-130 | a parsed comment parses to itself exactly when trimming left no marker at its start |
| ReviewText.NeutralCommentIsKept | src/shared/chatReferences.ts:128-130 | a neutral comment is kept without the white space around it, and refused only when it is too long or has nothing else |
| ReviewText.NeutralExcerptIsKept | src/shared/chatReferences.ts:131-134 | a neutral excerpt that fits, with no blank first line and no white space at its end, is kept as it is |
| ReviewText.DropsBlanksOnly | src/shared/chatReferences.ts:133 | only blank characters and line breaks are taken off the front of an excerpt |
| ReviewText.IndentedMarkerIsNotKept | src/shared/chatReferences.ts:128-130 | an indented marker is a comment that does not |
| ReviewText.ExcerptKeptIff | src/shared/chatReferences.ts:131-134 | a parsed excerpt parses to itself exactly when it does not begin with a blank line, other than the one of a bare cut mark |
| ReviewText.LongBlankLineIsNotKept | src/shared/chatReferences.ts:131-134 | an excerpt whose first line is blank beyond the limit does not |
| ChatReferences.CleanIsClean | src/shared/chatReferences.ts:43-47 | a cleaned string has no control character, is trimmed, not empty and within its limit |
| ChatReferences.DropsControlsOnly | src/shared/chatReferences.ts:43-47 | a control character goes and every other one stays, wherever they stand |
| ChatReferences.WebUrlIff | src/shared/chatReferences.ts:147-150 | a web address is `about:blank` or starts with http or https in any case |
| ChatReferences.ReviewScopeIff | src/shared/chatReferences.ts:41 | a version is the thread, the staged or unstaged changes, or a turn of at most 256 characters |
| ChatReferences.AcceptedIff | src/shared/chatReferences.ts:107-152 | data is accepted exactly when it has a known kind, a title and the field its kind points with; a page a web address; a review comment a line, a version and some text |
| ChatReferences.AcceptedKeeps | src/shared/chatReferences.ts:107-152 | what is accepted has exactly the fields of which something is left after cleaning, and its numbers exactly when they are positive safe integers |
| ChatReferences.ParseIsParsed | src/shared/chatReferences.ts:107-152 | whatever parsing returns is clean, complete for its kind, and neutral in its excerpt |
| ChatReferences.ParsesToItselfIff | src/shared/chatReferences.ts:107-152 | a reference that parsing returned parses to itself exactly when its comment and its excerpt meet those two conditions |
| ChatReferences.TwoParsesSettle | src/shared/chatReferences.ts:107-152 | parsing a second time always gives a reference that parses to itself |
| ReferenceBlocks.BodyIsClear | src/shared/chatReferences.ts:179-222 | no line of a formatted body can look like the end of the block |
| BlockContents.FenceIsLonger | src/shared/chatReferences.ts:174-177 | the fence around selected code is longer than any run of backticks in it, and no longer than it must be |
| BlockContents.CommentIsShown | src/shared/chatReferences.ts:179-190 | a comment is shown whole: its lines without caption and indent are the comment |
| BlockContents.ExtensionNames | src/shared/chatReferences.ts:194 | a path that ends in a dot and up to sixteen extension characters names the language by them in lower case |
| BlockContents.OnlyExtensionsName | src/shared/chatReferences.ts:194 | and no other path names one |
| BlockContents.FieldsAreShown | src/shared/chatReferences.ts:208-220 | a reference shows its kind and title, the place it names, each other field it has and its line, and nothing else |
| BlockContents.ReviewIsShown | src/shared/chatReferences.ts:179-199 | a review comment shows its path, lines, version, whole comment, and the excerpt between two fences |
| BlockContents.EveryReferenceIsShown | src/shared/chatReferences.ts:204-222 | the lines of each reference stand together, in the order of the references |
| BlockContents.KindNames | src/shared/chatReferences.ts:33 | the kinds by the names they are shown under |
| ReferenceExtraction.ExtractChatReferences | src/shared/chatReferences.ts:225-240 | the scan returns the tidied text without blocks and the references of every header, in order |
| ReferenceExtraction.CloserFound | src/shared/chatReferences.ts:168 | the first closing marker after a block's header is the block's own |
| ReferenceExtraction.BlockFound | src/shared/chatReferences.ts:168 | a block is matched from its header to the end of the message |
| ReferenceRoundTrip.HeaderSame | src/shared/chatReferences.ts:168-240 | up to the end of the text a message has exactly the headers that the text followed by a newline has |
| ReferenceRoundTrip.ReferencesReadBack | src/shared/chatReferences.ts:204-240 | when no header line of a block stands in the text, reading a message gives the first hundred written references, each parsed once more |
| ReferenceRoundTrip.StableReferencesReadBack | src/shared/chatReferences.ts:204-240 | up to a hundred references that parse to themselves come back exactly |
| ReferenceRoundTrip.TextReadsBackIff | src/shared/chatReferences.ts:225-240 | the text comes back exactly when it is trimmed, has no run of three newlines, and no header line of a block stands in it |
| ReferenceRoundTrip.HeaderLineIsLost | src/shared/chatReferences.ts:225-240 | a header line alone, which is no block, does not come back |
| ReferenceRoundTrip.ComposedTextReadsBackIff | src/shared/chatReferences.ts:204-240 | the same for the block that formatting the references gives |
| ReferenceRoundTrip.BlockAloneReadsBack | src/shared/chatReferences.ts:204-240 | a block without text reads back as no text |
| ReferenceMessages.ScanShifts | src/shared/chatReferences.ts:168-237 | what is scanned from a place on depends only on what stands from there on |
| ReferenceMessages.MessageThenRest | src/shared/chatReferences.ts:168-237 | a message with anything behind its block: its text comes back, white space behind the block goes with it, and the rest is read as if it stood alone |
| ReferenceMessages.EveryBlockIsRead | src/shared/chatReferences.ts:225-240 | of a message with any number of blocks every header is read, in order, and of the text before, between and behind them nothing is lost |
| ReferenceMessages.MessageReadsBack | src/shared/chatReferences.ts:204-240 | so all references come back in order, with the texts around them, when the references parse to themselves and the texts are tidy |
| ReferenceMessages.CollapseRun | src/shared/chatReferences.ts:237 | a run of newlines is cut to two |
| ReferenceMessages.CollapseKeepsOthers | src/shared/chatReferences.ts:237 | and every other character stays and separates the runs |
| RuntimeFiles.Home.PublishOwnRuntimeRecord | src/cli/mmsRuntime.ts:191-255 | the outcome and the new files of publishing, for every combination of owner and runtime file |
| RuntimeFiles.Home.RemoveOwnRuntimeRecord | src/cli/mmsRuntime.ts:277-296 | the outcome and the new files of removing |
| RuntimeFiles.Home.ResolveOwnerStatus | src/mms/ownership/MmsOwnerLease.ts:411-452 | the owner status, and that only a dead or long unreadable lease is deleted |
| RuntimeFiles.Home.ResolveRuntimeStatus | src/cli/mmsRuntime.ts:303-377 | the status and the new files of resolving |
| RuntimeFiles.ReportedIffLiveOwners | src/cli/mmsRuntime.ts:303-377 | a record is reported exactly when it is readable, the lease is live and holds its token, and its own process is live |
| RuntimeFiles.OwnerLeaseChanges | src/cli/mmsRuntime.ts:191-377 | publishing and removing never touch the owner lease; resolving deletes it exactly when it is dead or unreadable for too long |
| RuntimeFiles.ResolvingDropsDeadLease | src/cli/mmsRuntime.ts:298-377 | a dead lease that resolving deletes |
| RuntimeFiles.RemovalSparesOthers | src/cli/mmsRuntime.ts:277-296 | removing never deletes a valid record of another token |
| RuntimeFiles.RemovalRemoves | src/cli/mmsRuntime.ts:277-296 | a record under the given token goes, with the old pid file, whenever the deletion works |
| RuntimeFiles.RemovedIffNoneLeft | src/cli/mmsRuntime.ts:277-296 | true is answered exactly when no runtime file is left; otherwise nothing has changed |
| RuntimeFiles.PublishesIff | src/cli/mmsRuntime.ts:191-255 | a record is published exactly when the process holds the lease under the token and the runtime file is nobody else's; then it names the process, and otherwise nothing changes |
| RuntimeFiles.OneLookSettles | src/cli/mmsRuntime.ts:303-377 | one look leaves no dead lease and no record but the live owner's; a second look says the same and changes nothing |
| RuntimeFiles.AnswerMeans | src/cli/mmsRuntime.ts:303-377 | what `running`, `heldUnreadable` and `staleRemoved` say of the files |
| RuntimeFiles.YoungUnreadableIsHeld | src/cli/mmsRuntime.ts:120-125 | a record that became unreadable a moment ago is left alone by every function and reported as held |
| RuntimeRuns.VisibleInEveryRun | src/cli/mmsRuntime.ts:191-377 | in every run a published record stays visible, and is what every process sees, until its owner dies, loses the lease or removes it |
| RuntimeRuns.PublishingShows | src/cli/mmsRuntime.ts:191-255 | a successful publication makes the record visible |
| RuntimeRuns.HolderPublishes | src/cli/mmsRuntime.ts:191-255 | a holder that publishes while the runtime file is nobody else's becomes visible |
| RuntimeRuns.RemovedInEveryRun | src/cli/mmsRuntime.ts:277-377 | once a removal under a token has worked, in every run no process is told of a record under it until it is published under it again |
| RuntimeRuns.AcquiresIff | src/mms/ownership/MmsOwnerLease.ts:207-276 | the lease is acquired exactly when there is none, or a dead or stale one that can be deleted |
| RuntimeRuns.ReleaseFrees | src/mms/ownership/MmsOwnerLease.ts:393-409 | a release under the holder's token frees the lease, and one under another does nothing |
| RuntimeRuns.LeaseInEveryRun | src/cli/mmsRuntime.ts:191-377 | in every run the lease stays with its running holder until it dies or releases it, and nobody else holds it meanwhile |
| RuntimeRuns.LeaseChangesOnlyWhenDead | src/cli/mmsRuntime.ts:191-377 | without acquiring, releasing and dying in the middle of a write, the lease file of a run changes only by a look that finds its owner dead or the file stale |
| RuntimeRuns.UnreadableHeldInEveryRun | src/cli/mmsRuntime.ts:120-125 | in every run an unreadable runtime file stays as it is until it is old enough to be reclaimed |
| RuntimeRuns.ReportInEveryRun | src/cli/mmsRuntime.ts:303-377 | in every run in which tokens are made fresh, a reported record is the owner's own: the lease and the runtime file hold that one record, and a process is alive under its pid |
| RuntimeRuns.DeadDaemonReportedIffPidReused | src/cli/mmsRuntime.ts:180-186 | a dead daemon is still reported exactly when another process reuses its pid |
| RuntimeRuns.DeadDaemonInEveryRun | src/cli/mmsRuntime.ts:180-377 | at the end of every run a daemon that was ready and is gone is still reported exactly when both its records are there and another process runs under its pid, and the run itself started that process |
| RuntimeRuns.PidReuseMisleads | src/cli/mmsRuntime.ts:180-186 | a run in which that happens |
| RuntimeRuns.PollUntilRuntimeStopped | src/cli/mmsRuntime.ts:450-479 | the poll loop returns at the first poll that decides or is late, with what that poll says, whatever the polls are told |
| RuntimeRuns.StoppedMeansUnowned | src/cli/mmsRuntime.ts:450-479 | a poll that says stopped saw no live lease; one that says replaced saw a live lease of another token |
| RuntimeRuns.WaitEndsOnlyWithDaemon | src/cli/mmsRuntime.ts:444-480 | in every run a wait for a daemon that was ready ends before its deadline only because the daemon died, released its lease or lost its record before the poll that ended it |
| RuntimeRuns.AnswerHoldsInRun | src/cli/mmsRuntime.ts:444-480 | in every run "stopped" means that nobody alive held the lease at the poll that ended the wait, and "replaced" that the owner under another token did and that its own record is the answer |
| DaemonTeardown.DaemonLifecycle.Shutdown | src/cli/daemonShutdown.ts:109-125 | a call queues one more pass behind the others and marks the state as shutting down |
| DaemonTeardown.DaemonLifecycle.BeginPass | src/cli/daemonShutdown.ts:127-140 | a pass that starts clears the timer and takes the server off the state |
| DaemonTeardown.DaemonLifecycle.AfterServer | src/cli/daemonShutdown.ts:140-148 | once the server has stopped it takes the backend off the state |
| DaemonTeardown.DaemonLifecycle.AfterMms | src/cli/daemonShutdown.ts:148-166 | once the backend has stopped the runtime record goes, and the pass is done |
| DaemonTeardown.InvKept | src/cli/daemonShutdown.ts:109-166 | every step of calls, passes and a startup that keeps adding handles keeps the invariant |
| DaemonTeardown.TeardownInEveryRun | src/cli/daemonShutdown.ts:109-166 | in every run passes never overlap, a handle is on the state exactly until it is stopped, none is stopped twice, and shutting down stays set |
| DaemonTeardown.CallerReturnsAfterStops | src/cli/daemonShutdown.ts:109-166 | a caller returns only after everything that existed when its pass began, and so everything that existed when it called, has been stopped |
| DaemonTeardown.RunProgresses | src/cli/daemonShutdown.ts:109-166 | no run takes back a stop, a pass or the shutting-down mark |
| DaemonTeardown.SomePassCanGoOn | src/cli/daemonShutdown.ts:109-166 | while a pass is not done, some pass has a step it can take |
| DaemonTeardown.PassesEnd | src/cli/daemonShutdown.ts:109-166 | in whatever order, a bounded number of steps is left, and after exactly that many every pass is done |
| DaemonStartup.ShutdownLeavesNothing | src/cli/commands/service.ts:90-251 | in every run in which a shutdown was called, once startup has ended and every pass is done nothing is left on the state and every handle was stopped |
| WindowShape.RoundedWindowShape | src/main/linuxWindowShape.ts:4-14 | the loop returns the specified rows |
| WindowShape.InsetIsCeiling | src/main/linuxWindowShape.ts:9-10 | the integer inset is the ceiling of the radius less the real square root at the row's centre |
| WindowShape.CoversExactlyTheRoundedWindow | src/main/linuxWindowShape.ts:4-14 | a pixel is covered exactly when it is in the window and its outer edge at row centre is not outside the corner circle |
| WindowShape.ShapeIsTiling | src/main/linuxWindowShape.ts:4-14 | the rectangles are disjoint, not empty and inside the window |
| WindowShape.Symmetric | src/main/linuxWindowShape.ts:4-14 | the shape is its own mirror image both ways |
| WindowShape.InsetsShrink | src/main/linuxWindowShape.ts:9-10 | insets never grow toward the middle |
| TaskLineage.TasksBelow | src/mms/MmsProfileServices.ts:971-981 | the growing set ends as exactly the tasks whose parent chain reaches the root, cyclic links included |
| TaskLineage.WalkUp | src/mms/MmsProfileServices.ts:982-994 | the upward loop terminates and gives the verdict of the chain |
| TaskLineage.WalkDecides | src/mms/MmsProfileServices.ts:982-994 | which verdict the walk gives: included exactly when the whole chain is active, and each error exactly in its case |
| TaskLineage.LifecycleOwnedTasks | src/mms/MmsProfileServices.ts:968-997 | what is returned is the records whose whole chain below the root is active, in order; each error comes only in its own case |
| TaskLineage.OwnedIsClosedUpward | src/mms/MmsProfileServices.ts:968-997 | with a task its parent is owned too |
| TaskLineage.CyclesAreNotOwned | src/mms/MmsProfileServices.ts:968-997 | a task on a cycle of any length, or one whose parents lead into one, is never below a root outside it: it is not owned and stops no operation |
| AppletFences.ExtractAppletParts | src/shared/applets.ts:104-143 | the scanning loop terminates and returns the specified parts |
| AppletFences.PartsCoverMessage | src/shared/applets.ts:104-143 | the parts stand, one for one, for spans that cover the message once and in order: a text part is its span, a submission is what its fence was read as, an error carries its whole fence; a fence becomes a submission exactly when it can be read and is one of the first three |
| AppletFences.IncompleteIsOneText | src/shared/applets.ts:104-106 | an incomplete message is one unchanged text part |
| AppletFences.AtMostThreeSubmissions | src/shared/applets.ts:104-143 | there are at most three submissions |
| AppletFences.FencesAreApart | src/shared/applets.ts:104-143 | the fences found lie apart and in order |
| AppletFences.FoundIffTopLevel | src/shared/applets.ts:104-143 | the scan finds exactly the closed fences at top level |
| AppletFences.FenceEndsAtFirstClosing | src/shared/applets.ts:104-143 | a fence ends at the first place after its opening line that can close it, and one that is never closed has no such place |
| AppletFences.OpeningsAreAccountedFor | src/shared/applets.ts:104-143 | every opening is at top level or inside an earlier top-level one, never both |
| AppletFences.NestedNeverExtracted | src/shared/applets.ts:104-143 | a fence that starts inside another top-level one is never extracted: before the end of a closed one, or anywhere after one that is never closed |
| AppletFences.NothingAfterUnclosed | src/shared/applets.ts:104-143 | after an opening that is never closed, and that no found fence covers, nothing is extracted |
| AppletFences.ExtractedIffTopLevelApplet | src/shared/applets.ts:104-143 | extracted are exactly the closed applet fences at top level, that is those over which no earlier top-level opening reaches |
| FenceLines.OpeningIff | src/shared/applets.ts:108 | an opening is read exactly where one is written: three or more markers at a line start, the rest of the line, and a line feed |
| FenceLines.ClosingIff | src/shared/applets.ts:113-118 | a closing is read exactly where one is written: as many markers or more, blanks, and the end of the line |
| FenceLines.AppletIff | src/shared/applets.ts:120 | a fence holds an applet exactly when its line names it, with any white space around the name |
| PermissionModes.StricterAllowsLess | src/shared/permissionMode.ts:39-62 | a stricter mode allows nothing that a wider one refuses, and Auto allows what Auto-accept edits does |
| PermissionModes.AllowsFromLeastMode | src/shared/permissionMode.ts:58-62 | each action has a least mode: edits Auto-accept edits, commands and tools full access |
| PermissionModes.NarrowPermissionMode | src/shared/permissionMode.ts:44-51 | the loop returns the narrowest given mode, or the default when none is given |
| PermissionModes.EffectiveIsWidestSupported | src/shared/permissionMode.ts:111-133 | the effective mode is the widest supported one no wider than the request, and a refusal means there is none |
| PermissionModes.UnsupportedAutoIsAcceptEdits | src/shared/permissionMode.ts:111-133 | an unsupported Auto resolves as Auto-accept edits does |
| PermissionModes.PermissionCeilingOf | src/shared/permissionMode.ts:148-164 | the upward loop with its seen set terminates on every lineage and gives the ceiling |
| PermissionModes.CeilingIsGreatestLowerBound | src/shared/permissionMode.ts:148-164 | a mode is within the ceiling exactly when it is within the mode of every ancestor, on cyclic and broken lineage too |
| PermissionModes.CeilingOfChild | src/shared/permissionMode.ts:148-164 | a child's ceiling is its parent's mode narrowed by its parent's ceiling |
| LineEditStats.CountLineEdits | src/shared/lineEditStats.ts:83-92 | the count is the number of positions at which the two texts' lines differ, missing lines included |
| LineEditStats.LineDistanceIsMetric | src/shared/lineEditStats.ts:83-92 | it is zero only for equal texts, symmetric, and never shortened by a detour |
| LineEditStats.LineDistanceIsNumber | src/shared/lineEditStats.ts:83-92 | it is the number of positions at which the lines differ |
| LineEditStats.ComputeStreaks | src/shared/lineEditStats.ts:131-161 | longest is the length of the longest run of consecutive active days, current the run that ends on the reference day |
| LineEditStats.CurrentWithinLongest | src/shared/lineEditStats.ts:131-161 | the current streak is never longer than the longest one |
| LineEditStats.RecordingConserves | src/shared/lineEditStats.ts:287-302 | however lines are recorded, the days hold exactly the recorded lines of each source |
| LineEditStats.RecordedOnItsDay | src/shared/lineEditStats.ts:287-302 | every line is booked on its own day under its own source, and a day is added exactly when a line was recorded for it |
| LineEditStats.SnapshotTotals | src/shared/lineEditStats.ts:163-190 | totals are the sums over the days that count, those days are the ones with lines, and the best day has the most |
| LineEditStats.NothingSkipped | src/shared/lineEditStats.ts:175-181 | on recorded days skipping loses nothing |
| LineEditStats.UsageSnapshot | src/shared/lineEditStats.ts:45-70 | usage totals are the sums over the days and each day holds exactly its own turns |
| LineEditStats.DayFigures | src/shared/lineEditStats.ts:45-70 | each figure of a day is the sum of that figure over the day's turns |
| ThreadBranches.WordsKeepUsable | src/shared/mousseBranches.ts:50-58 | the words hold every usable character once and in order |
| ThreadBranches.WordsAreRuns | src/shared/mousseBranches.ts:50-58 | the words are the maximal runs: each begins at the first usable character left and ends at an unusable one or at the end |
| ThreadBranches.ValidNameIff | src/shared/mousseBranches.ts:23-27 | a name is valid exactly when its characters are allowed, each part between slashes is not empty, hidden or a lock, no two dots follow each other and none is last: the other refusals follow |
| ThreadBranches.IdNamedIff | src/shared/mousseBranches.ts:14-44 | a valid name is id-named exactly when it lies in a folder of a reserved slug |
| ThreadBranches.FallbackNames | src/shared/mousseBranches.ts:90-92 | without a usable word the first eight letters and digits of the id name the branch, or "new" |
| ThreadBranches.NamesAre | src/shared/mousseBranches.ts:93-100 | the first name is bare, the others carry their number in plain decimal |
| ThreadBranches.ThreadBranchSlug | src/shared/mousseBranches.ts:50-69 | the slug is as many whole words as fit 40 characters (a longer first word is cut), with single inner hyphens, and empty exactly when nothing is usable |
| ThreadBranches.TriedIff | src/shared/mousseBranches.ts:89-101 | of the 999 names exactly a reserved base without suffix is skipped: Git accepts all the others |
| ThreadBranches.CountCandidates | src/shared/mousseBranches.ts:89-101 | the names tried are all different: 999 of them, or 998 for a reserved base |
| ThreadBranches.ThreadBranchName | src/shared/mousseBranches.ts:76-80 | the first candidate not taken; always a Mousse branch, never id-named, and no folder of an id-named one |
| ThreadBranches.FailureNeeds998 | src/shared/mousseBranches.ts:76-101 | naming fails only when at least 998 names are taken, 999 for a base that is not reserved |
| Bindings.ParseBinding | src/shared/commands.ts:600-617 | the token loop with its early exits computes the specified reading |
| Bindings.ParsedKeyIsCanonical | src/shared/commands.ts:581-594 | every key that a token gives is in the one spelling that parses to itself |
| Bindings.ParseSerialize | src/shared/commands.ts:619-629 | parsing a serialized binding gives the binding back |
| Bindings.ParsedIsCanonical | src/shared/commands.ts:600-629 | writing a parsed binding and parsing it again changes nothing |
| BindingTexts.TokensAre | src/shared/commands.ts:600-603 | the tokens are the trimmed pieces between plus signs |
| BindingTexts.ParsesIff | src/shared/commands.ts:600-617 | a text is a binding exactly when all its tokens but one name modifiers and that one names a key; it has the key and exactly the modifiers named, in any order and however often |
| BindingTexts.ModifierNames | src/shared/commands.ts:547-557 | the names of each modifier |
| BindingTexts.KeyNames | src/shared/commands.ts:559-577 | a named key goes by its name in lower case; Delete and Enter have a second one |
| BindingTexts.FunctionKeysAre | src/shared/commands.ts:579-584 | function keys are F1 to F24 |
| BindingTexts.SingleKeys | src/shared/commands.ts:581-594 | a printable ASCII character is a key, letters in either case |
| BindingTexts.SpellingIs | src/shared/commands.ts:619-629 | a binding is spelled with its modifiers in one order and under one name each, then its key |
| Bindings.ResolvedReadsBack | src/shared/commands.ts:631-648 | a resolved binding reads back as what it resolves to; resolving twice is resolving once |
| Bindings.SameTextIffSameKeys | src/shared/commands.ts:644-648 | two bindings resolve to one text exactly when they press the same keys |
| Bindings.BindingFromKey | src/shared/commands.ts:765-803 | the binding of a key press |
| Bindings.PressIsParseable | src/shared/commands.ts:765-803 | every key press that yields a binding yields one that parses to the press |
| BindingTexts.PressAnswersIff | src/shared/commands.ts:631-803 | a press answers a binding exactly when it is its key with its modifiers as the platform has them; off macOS a binding with Cmd is never pressed |
| BindingTexts.PressStandsIff | src/shared/commands.ts:757-803 | when a press stands for no binding: composing, no key, the system's own key, or text typed with AltGr |
| BindingTexts.EventNamesAre | src/shared/commands.ts:718-732 | a named key is called in an event as in a binding, arrows with "Arrow" before it |
| BindingTexts.PhysicalTokensAre | src/shared/commands.ts:749-755 | a physical key has a letter or digit exactly when its code is that of a letter, digit or number-pad key |
| BindingTexts.TypedAlnum | src/shared/commands.ts:775-784 | a letter or digit typed is the key, whatever the layout |
| BindingTexts.TypedOnLetterKey | src/shared/commands.ts:785-792 | any other character typed on a letter or digit key is that key |
| BindingTexts.TypedMark | src/shared/commands.ts:734-792 | a shifted mark typed on another key stands for Shift and the key below it |
| BindingTexts.MarksSitOn | src/shared/commands.ts:734-747 | which mark sits on which key |
| Commands.ResolveBindings | src/shared/commands.ts:810-822 | each resolved key maps to its commands in table order |
| Commands.BeatsIsStrictOrder | src/shared/commands.ts:962-966 | `beats` is a strict total order on the commands |
| Commands.ResolveCommand | src/shared/commands.ts:849-870 | for every overrides, context and set of handlers: nothing runs exactly when no command on the key is enabled, else the one that beats every other enabled one |
| Commands.DispatchIsUnique | src/shared/commands.ts:845-870 | a key press has one such command |
| CommandContexts.OpenAllows | src/shared/commands.ts:829-843 | with nothing in the way every command may run that is not handled by its owner and picks no model |
| CommandContexts.NoRunLoses | src/shared/commands.ts:829-843 | without a run exactly Stop is lost |
| CommandContexts.NoThreadLoses | src/shared/commands.ts:829-843 | without a thread exactly the commands on it are |
| CommandContexts.OutsideFilesLoses | src/shared/commands.ts:829-843 | outside the files panel exactly its two searches are |
| CommandContexts.SurfaceKeysNeedMainArea | src/shared/commands.ts:113-131 | a key, unlike a menu, opens a surface only in the main area of a project |
| CommandContexts.TypingLoses | src/shared/commands.ts:829-843 | while typing exactly the keys that are text are lost, and approvals outside the composer |
| CommandContexts.TerminalLoses | src/shared/commands.ts:840 | in a terminal all but Stop and the way back to the composer |
| CommandContexts.OverlayLoses | src/shared/commands.ts:831-839 | under a dialog all but Stop, under the palette all but Stop and its own command |
| CommandContexts.ModelPickerLoses | src/shared/commands.ts:831-839 | the picks of a model run exactly under the model picker |
| CommandContexts.DialogRunsOnlyStop | src/shared/commands.ts:829-867 | with a dialog open no key runs anything but Stop, and Stop only while a run is active |
| CommandConflicts.WinnerIsBest | src/shared/commands.ts:989 | the reduction finds the command that beats all the others |
| CommandConflicts.WinnerRunsIff | src/shared/commands.ts:969-1003 | of any list of commands on a key: an enabled winner is what runs, exactly unless an enabled command that overlaps no other one on the key beats it |
| CommandConflicts.WinnerRunsWithGlobal | src/shared/commands.ts:958-1003 | so it always runs when a global command shares the key |
| CommandConflicts.NamedWinnerDoesNotRun | src/shared/commands.ts:969-1003 | with two workflow commands on B, the settings name one of them and B opens the browser |
| CommandConflicts.LoserRunsOnlyAlone | src/shared/commands.ts:985-988 | a reported loser runs only when no command that beats it is enabled |
| CommandConflicts.FindConflicts | src/shared/commands.ts:969-1003 | the loops report, key by key in order of first use, the shared and the reserved conflicts |
| CommandConflicts.SharedReports | src/shared/commands.ts:969-1003 | a shared conflict is reported exactly when it is that of the overlapping commands on its key |
| CommandConflicts.SharedIffTwoOverlap | src/shared/commands.ts:958-1003 | one is reported for a key exactly when two commands with overlapping scopes are bound to it |
| CommandConflicts.ReportAgreesWithDispatch | src/shared/commands.ts:849-1003 | a press of a reported key runs the reported winner, if enabled, exactly unless an enabled command on the key that is not reported beats it, and runs a reported loser only when nothing on the key that beats it is enabled |
| CommandConflicts.ReportedWinnerRunsWithGlobal | src/shared/commands.ts:849-1003 | with a global command on the key the reported winner, if enabled, always runs |
| CommandConflicts.ReservedReports | src/shared/commands.ts:926-936 | a chord is reported as reserved exactly when a command uses it and it hits an entry |
| StoredShortcuts.HardReservedIff | src/shared/commands.ts:882-936 | a text is hard reserved exactly when its keys are those of undo, redo, cut, copy, paste, select all, close, quit, hide, hide others or zoom, for every command alike |
| StoredShortcuts.WarnedIff | src/shared/commands.ts:902-936 | a binding is warned of exactly when its keys are reload, the developer tools, or a chord left to another command |
| CommandConflicts.DefaultsAreFine | src/shared/commands.ts:147-517 | every default parses as it is written, and none of a command that can be rebound is hard reserved |
| CommandConflicts.NormalizeShortcuts | src/shared/commands.ts:1010-1028 | the loop keeps exactly the cleaned entries, in any order |
| CommandConflicts.NormalizingTwice | src/shared/commands.ts:1005-1028 | cleaning twice is cleaning once |
| CommandConflicts.NormalizingKeepsKeys | src/shared/commands.ts:1005-1028 | cleaning moves no command whose override is a usable binding |
| StoredShortcuts.KeptIff | src/shared/commands.ts:1010-1028 | a stored entry is kept exactly when its command is not fixed and it unbinds a command with a default, or is a binding whose keys are not hard reserved and not the default's; a kept text reads as the same binding |
| StoredShortcuts.DroppedEntryDoesNothing | src/shared/commands.ts:1005-1028 | a command whose entry is not kept has the key it has without any override |
| StoredShortcuts.KeptEntryDecides | src/shared/commands.ts:1005-1028 | a kept unbinding leaves the command without a key, and a kept binding gives it the keys it presses |
| StoredShortcuts.KeptIffKeyMoves | src/shared/commands.ts:1005-1028 | after cleaning exactly the commands with an entry left have another key than they ship with |
| CommandConflicts.NoHardConflict | src/shared/commands.ts:969-1028 | after cleaning no hard-reserved chord is reported |

## Left out

- The rest of activity items: tool calls, results, records capped as JSON, and `boundActivity` on kinds other than commands.
- How tool output text becomes a diff (`diffAsPatch`, `fileChangeFromTexts`) and how shell wrappers are taken off commands.
- The sections of a pull request seed and its trust rules; only the quoting and the final cut are modelled.
- Lower-casing of paths that changes their length: the fuzzy models take a path and its lower case of equal length, as the
  source's own helper makes them.
- Links to files, joined paths and file identity in chat references; they are short and pure.
- JSON and URI encoding themselves, and Unicode tables: parameters with laws.
- The gap between reading the owner lease and deleting the runtime file: every function is one step, as the code assumes.
- Stop requests, their file, and `stopRunningDaemon`: thin callers of the poll loops.
- PollUntilRuntimeStopped: the readiness loop beside it has the same shape and is not modelled.
- MmsProfileServices beyond owned tasks, and the stop of MousseMainService: retries over code that is not part of this model.
- Months, labels, heat maps and levels of the statistics: presentation.
- ComputeStreaks: takes the active days in order as numbers; sorting date keys and daylight saving are outside.
- ThreadBranches.ThreadBranchSlug: starts from the folded text; decomposition and lower case are Unicode tables.
- The display form of bindings and the palette's search terms.
- Window resize gestures, the shape listener, attention counts, sign-in callbacks, dictation vocabulary, the model catalog,
  provider instances and remote editors: each would add easier members of kinds already here.
