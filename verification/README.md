# A verified model of the workflow worker and manager

The worker takes a recorded session apart: it decodes the video into a ring buffer and
fans the frames out to analysis modules, tracks people and texts over time, and compares
recognised text with what should have been shown or said. The manager keeps a table of jobs
and hands them out to workers, again when they fail. This project models the logic of those
parts in Dafny and proves what they promise, on all inputs, runs and interleavings. All
sources are read as Python: integers are unbounded, `//` floors, slices clamp.

**The diff engine** (`Texts`, `Diffs`, `Merging`, `Dropping`, `Simplify`, `Frontier`,
`Costs`, `Shortest`, `Collision`, `Bisecting`, `LineCodes`, `HalfMatching`, `Minimal`,
`Engine`, `Levenshtein`, `Encoding`, `Deltas`). A diff denotes a pair of texts. The driver,
its shortcuts, the line mode, the middle-snake search on two arrays and the four clean-up
passes that rewrite the list they walk all keep that pair, whichever deadline check fires,
and the recursion ends. A middle snake lies on a shortest edit path in spite of the pruning,
and without a time limit the diff is as short as any. With one, a half-match is taken exactly
when there is one, and the diff keeps at least what it found; the line mode redoes every
replacement of a line-level diff. Texts are sequences of code points. With a time limit the
clock is an arbitrary answer to each deadline check; a call is `patient` when no check in it
fires, and both kinds of call are covered by every statement.

**The subtitle checker** (`Subsequence`, `Masks`, `ContinuousRuns`). Masks made from diffs,
their longest stretch, rotated templates, the `lcs` helper, and the search for long enough
stretches of frames.

**The media pipeline** (`RingBuffer`, `Pipeline`, `Draining`, `Sampling`, `MediaStreams`,
`FrameRates`). `Pipeline` is a state machine whose actions are what the parties do between
two points where the others can interleave; a run is any sequence of actions. The methods
of `MediaStreams` are proved to be these actions on the objects. `Sampling` says in plain
arithmetic which frames reach a channel.

**Time patches, people and texts** (`Intervals`, `GapMerging`, `Sweeping`, `TimePatches`,
`Boxes`, `FaceBody`, `Identities`, `Segmenting`, `OcrTracking`, `Sorting`). Complement, gap
merge and sweep-line count of time patches; the greedy pairing of faces with bodies; the
naming of tracked people; the cutting of a frame stream into patches by the OCR manager.
Times, scores and ratios are real numbers. `Sorting` is Python's stable sort; `Sequences`
holds what concerns any sequence.

**Jobs** (`Dispatching`, `JobManager`). `Dispatching` has one action for each database
transaction or external call of each call in progress; the methods of `JobManager` are
proved to be runs of it.

Several documented or natural promises do not hold of the code. Each has a concrete input
that breaks it and the condition under which it holds; all but the first and the last
condition are exact:

- with a time limit that never runs out the diff is as short as any when no part of the one
  text shares half with a part of the other; a half-match may cost edits
  (`Engine.DiffMain`, `Engine.HalfMatchCosts`);
- a rotated mask has the template's length exactly when the rotated template has no white
  space at its ends (`Masks.RecoverFits`, `Masks.RecoverMisfit`);
- every channel's step is usable exactly when the highest rate asked for is a whole number
  that the metadata reaches (`FrameRates.AllStepsPositiveIff`, `FrameRates.FractionalRate`);
- complementing patches twice gives them back exactly when they are restorable
  (`Intervals.ComplementTwice`, `Intervals.TouchingLost`);
- every tracking sequence is sure of a name exactly when no participant has the id of a
  sequence, or that sequence is the only one (`Identities.AlwaysNamedIff`,
  `Identities.NameLost`);
- the run search fails exactly when the required number of frames is not positive and a
  miss has no hit before it (`ContinuousRuns.FindRuns`, `ContinuousRuns.MissFirst`);
- the minimum similarity it reports is always 0, and so the smallest one of a hit exactly
  when some hit has none (`ContinuousRuns.LowestIsLeastIff`, `ContinuousRuns.LowestMissed`);
- a channel closed at the end of a stream is read to its end exactly when nothing is queued
  by then, or one message that its consumer is already waiting for
  (`Draining.ReadAllIff`, `Draining.LosingRun`);
- matches share a patch by the number of misses between them only with a positive tolerance
  (`Segmenting.SharePatch`, `Segmenting.NoTolerance`);
- a job is taken at most ten times when no write puts it back without raising its count, as
  when calls on it do not interleave; a stale write breaks that, and there is no bound at
  all then (`Dispatching.RunBounded`, `Dispatching.TakenBounded`,
  `Dispatching.StaleStoreBreaks`, `Dispatching.InterleavedReports`).

## Model

| member | source | states |
|---|---|---|
| `Texts.Find` | workflow-worker/src/workflow_worker/applications/modules/subtitle_matching/diff.py:424-426 | the first occurrence of the pattern at or after the start, or -1 exactly when there is none |
| `Texts.PrefixExact` | workflow-worker/src/workflow_worker/applications/modules/subtitle_matching/diff.py:463-489 | the first n characters agree exactly when n is at most the common prefix length of a linear scan |
| `Texts.SuffixExact` | workflow-worker/src/workflow_worker/applications/modules/subtitle_matching/diff.py:491-520 | the last n characters agree exactly when n is at most the common suffix length of a linear scan |
| `Texts.CommonPrefix` | workflow-worker/src/workflow_worker/applications/modules/subtitle_matching/diff.py:463-489 | the binary search returns the length a linear scan finds |
| `Texts.CommonSuffix` | workflow-worker/src/workflow_worker/applications/modules/subtitle_matching/diff.py:491-520 | the same for suffixes |
| `Texts.CommonOverlap` | workflow-worker/src/workflow_worker/applications/modules/subtitle_matching/diff.py:522-562 | the find-and-skip loop ends with a suffix of the first text that is a prefix of the second, and no longer one exists |
| `Diffs.Text1` | workflow-worker/src/workflow_worker/applications/modules/subtitle_matching/diff.py:1159-1172 | the concatenation of equalities and deletions |
| `Diffs.Text2` | workflow-worker/src/workflow_worker/applications/modules/subtitle_matching/diff.py:1174-1187 | the concatenation of equalities and insertions |
| `Diffs.SpliceSame` | workflow-worker/src/workflow_worker/applications/modules/subtitle_matching/diff.py:1035-1037 | replacing a stretch of a diff by one with the same two texts keeps the two texts of the whole |
| `Engine.DiffMain` | workflow-worker/src/workflow_worker/applications/modules/subtitle_matching/diff.py:78-136 | for all texts, settings and deadline behaviour: a fresh diff of exactly these two texts, normal and with nothing left to slide; one equality when the texts are equal. Otherwise common ends are cut off and it edits no more than diff_compute does for the rest: a text inside the other is kept whole, and with a time limit as much is kept as the longest stretch of at least half the longer text that both share, late or not. When the deadline is not felt and line mode not used: any two texts that share a character keep one, and without a half-match in the way as few characters are edited as any diff edits, which is what a longest common subsequence leaves over. The mutual recursion ends |
| `Engine.Trim` | workflow-worker/src/workflow_worker/applications/modules/subtitle_matching/diff.py:112-125 | cuts off the whole common prefix and then the whole common suffix; nothing common is left at either end |
| `Engine.DiffCompute` | workflow-worker/src/workflow_worker/applications/modules/subtitle_matching/diff.py:138-198 | every branch gives a diff of the two texts and is the one the source takes: a nested text is kept whole at its first place; with a time limit a shared half is kept as the half-match cuts it and both sides are diffed as diff_main promises, late or not; else line mode, or a cut at a point of a cheapest way whose parts are diffed so |
| `Engine.NoFewerEdits` | workflow-worker/src/workflow_worker/applications/modules/subtitle_matching/diff.py:165-177 | no diff edits fewer characters than its texts' lengths differ by, so the containment shortcut is optimal |
| `Engine.PromisedWhole` | workflow-worker/src/workflow_worker/applications/modules/subtitle_matching/diff.py:112-136 | what is promised of the texts without their common ends bounds the edits of the whole texts in the same way |
| `Engine.AnyShared` | workflow-worker/src/workflow_worker/applications/modules/subtitle_matching/diff.py:257-261 | two texts cost fewer edits than they have characters exactly when they share a character |
| `Engine.HalfMatchCosts` | workflow-worker/src/workflow_worker/applications/modules/subtitle_matching/diff.py:574-576 | of a concrete pair of texts every diff that diff_compute makes with a time limit edits at least 14 characters, where 10 are enough, even if the clock never runs out |
| `Engine.DiffBisect` | workflow-worker/src/workflow_worker/applications/modules/subtitle_matching/diff.py:257-359 | a diff of the two texts, either all replaced or cut by a middle snake; when no deadline check fires, less is edited than everything as soon as a character is shared, and nothing is cheaper if there is no time limit or no part of the texts shares half with another |
| `Engine.DiffBisectSplit` | workflow-worker/src/workflow_worker/applications/modules/subtitle_matching/diff.py:361-384 | both halves are diffed as diff_main promises, and put together are a diff of the whole with the same promises; both halves are smaller |
| `Engine.DiffLineMode` | workflow-worker/src/workflow_worker/applications/modules/subtitle_matching/diff.py:200-255 | from a diff of the line codes, as good as any is promised to be, decoded and semantically cleaned up, every run with both kinds of edit is replaced by a diff of its two texts, and everything else stays |
| `Engine.Rediff` | workflow-worker/src/workflow_worker/applications/modules/subtitle_matching/diff.py:224-253 | each run between two equalities that has deletions and insertions becomes a diff of its two texts that meets what is promised of DiffMain for them; the equalities and the other runs stay as they are, and the texts of the list are kept while it is walked |
| `HalfMatching.HalfMatchAt` | workflow-worker/src/workflow_worker/applications/modules/subtitle_matching/diff.py:588-632 | the longest growth of any occurrence of the seed, with the cut of both texts around it; none exactly when every growth stays below half of the longer text |
| `HalfMatching.HalfMatch` | workflow-worker/src/workflow_worker/applications/modules/subtitle_matching/diff.py:564-658 | a half-match is found exactly when there is a time limit and some stretch of at least half the longer text, of four or more characters, stands in both texts; it cuts both texts around a longest common stretch, the first furthest growth of the second quarter's seed unless that of the third is strictly longer |
| `LineCodes.DecodeStable` | workflow-worker/src/workflow_worker/applications/modules/subtitle_matching/diff.py:386-447 | codes keep their meaning when the table of lines grows |
| `LineCodes.LineTable.constructor` | workflow-worker/src/workflow_worker/applications/modules/subtitle_matching/diff.py:399-404 | the table begins with the junk entry |
| `LineCodes.LineTable.Register` | workflow-worker/src/workflow_worker/applications/modules/subtitle_matching/diff.py:436-438 | a new line is appended and numbered; lines stay distinct |
| `LineCodes.LineTable.NextLine` | workflow-worker/src/workflow_worker/applications/modules/subtitle_matching/diff.py:424-427 | the line up to and including the first newline, or the rest of the text |
| `LineCodes.LineTable.EncodeLine` | workflow-worker/src/workflow_worker/applications/modules/subtitle_matching/diff.py:423-439 | one more line encoded, or all that is left once the table is full; what is encoded decodes to the text so far |
| `LineCodes.LineTable.Munge` | workflow-worker/src/workflow_worker/applications/modules/subtitle_matching/diff.py:406-440 | decoding the codes gives the text back, with the bail-out at maxLines; the table grows by appending, to one line over the limit at most, and below it stays free of duplicates and every code stands for one line that ends where the line ends |
| `LineCodes.LinesToChars` | workflow-worker/src/workflow_worker/applications/modules/subtitle_matching/diff.py:386-447 | both texts decode from one table, line by line unless it is full; codes fit in a character and are no more than characters |
| `LineCodes.CharsToLines` | workflow-worker/src/workflow_worker/applications/modules/subtitle_matching/diff.py:449-461 | every entry is replaced by its decoded lines, operations unchanged |
| `LineCodes.DecodeProject` | workflow-worker/src/workflow_worker/applications/modules/subtitle_matching/diff.py:449-461 | decoding a diff decodes its source and its target |
| `LineCodes.ScriptCodes` | workflow-worker/src/workflow_worker/applications/modules/subtitle_matching/diff.py:215-220 | a diff of two code strings holds only codes of the table |
| `Bisecting.FindMiddleSnake` | workflow-worker/src/workflow_worker/applications/modules/subtitle_matching/diff.py:271-359 | on trimmed texts of two or more characters every vector and text index is in range; a split that is found is neither (0, 0) nor (len1, len2) and lies on a shortest edit path, for odd and even length difference; with unlimited time none is found only when the texts share no character |
| `Bisecting.FollowDiagonal` | workflow-worker/src/workflow_worker/applications/modules/subtitle_matching/diff.py:297-307 | a step goes to the better neighbour and follows the diagonal while the characters match |
| `Bisecting.WriteEntry` | workflow-worker/src/workflow_worker/applications/modules/subtitle_matching/diff.py:297-314 | the walk writes the furthest point of the next diagonal and prunes diagonals that ran off the grid |
| `Bisecting.WalkFront` | workflow-worker/src/workflow_worker/applications/modules/subtitle_matching/diff.py:295-322 | one walk of the front path: on a hit a good split on a shortest path, and otherwise the path one edit further, with no entry that meets the other path |
| `Bisecting.WalkReverse` | workflow-worker/src/workflow_worker/applications/modules/subtitle_matching/diff.py:324-355 | the same for the reverse path; without a hit no two facing entries overlap |
| `Bisecting.FrontHitSplits` | workflow-worker/src/workflow_worker/applications/modules/subtitle_matching/diff.py:315-322 | an overlap seen by the front path (odd length difference) is a good split |
| `Bisecting.ReverseHitSplits` | workflow-worker/src/workflow_worker/applications/modules/subtitle_matching/diff.py:346-355 | an overlap seen by the reverse path (even length difference) is a good split: the paths meet before either reaches its far corner |
| `Bisecting.NoOverlapApart` | workflow-worker/src/workflow_worker/applications/modules/subtitle_matching/diff.py:346-355 | paths that have not met lie strictly inside the grid wherever they face each other |
| `Bisecting.NextCovering` | workflow-worker/src/workflow_worker/applications/modules/subtitle_matching/diff.py:288-355 | a round without an overlap proves that the texts are further apart, and both paths have covered every cheapest way as far as their edits go |
| `Bisecting.NothingCommon` | workflow-worker/src/workflow_worker/applications/modules/subtitle_matching/diff.py:288-359 | when the rounds run out the texts cost as many edits as they have characters |
| `Costs.CostThrough` | workflow-worker/src/workflow_worker/applications/modules/subtitle_matching/diff.py:315-322 | through no point is the way from corner to corner cheaper than the cheapest |
| `Costs.CostMirror` | workflow-worker/src/workflow_worker/applications/modules/subtitle_matching/diff.py:324-345 | the edit cost of two texts is the same from the front and from the back |
| `Costs.PassesThrough` | workflow-worker/src/workflow_worker/applications/modules/subtitle_matching/diff.py:315-355 | a cheapest way passes through a point of every cost up to its own |
| `Shortest.FurthestCost` | workflow-worker/src/workflow_worker/applications/modules/subtitle_matching/diff.py:296-308 | an entry of round d is reached by at most d edits, on the grid or off it |
| `Shortest.PointCovered` | workflow-worker/src/workflow_worker/applications/modules/subtitle_matching/diff.py:296-308 | after round d each diagonal has been followed as far as any point of cost d on a cheapest way |
| `Shortest.EarnedNext` | workflow-worker/src/workflow_worker/applications/modules/subtitle_matching/diff.py:309-314 | an entry that ran off the grid proves that no cheapest way needs the diagonals pruned for it, however many entries run off in one walk |
| `Shortest.FrontMeets` | workflow-worker/src/workflow_worker/applications/modules/subtitle_matching/diff.py:315-322 | when 2d - 1 edits are enough, the front walk of round d sees an overlap |
| `Shortest.ReverseMeets` | workflow-worker/src/workflow_worker/applications/modules/subtitle_matching/diff.py:346-355 | when 2d edits are enough, the reverse walk of round d sees one |
| `Shortest.FrontSplitBest` | workflow-worker/src/workflow_worker/applications/modules/subtitle_matching/diff.py:315-322 | the first overlap the front path sees lies on a cheapest way |
| `Shortest.ReverseSplitBest` | workflow-worker/src/workflow_worker/applications/modules/subtitle_matching/diff.py:346-355 | and so does the first one the reverse path sees |
| `Minimal.NoneCheaper` | workflow-worker/src/workflow_worker/applications/modules/subtitle_matching/diff.py:78-94 | no diff edits fewer characters than its two texts cost |
| `Minimal.CheapestIsMinimal` | workflow-worker/src/workflow_worker/applications/modules/subtitle_matching/diff.py:78-94 | a diff that edits no more than that is beaten by no other diff of the same texts |
| `Minimal.CostIsLength` | workflow-worker/src/workflow_worker/applications/modules/subtitle_matching/diff.py:257-261 | the cost is what a longest common subsequence leaves over of both texts |
| `Minimal.WholeOfParts` | workflow-worker/src/workflow_worker/applications/modules/subtitle_matching/diff.py:376-384 | cutting the texts in two costs nothing exactly at the points of a cheapest way |
| `Minimal.SharedPrefix` | workflow-worker/src/workflow_worker/applications/modules/subtitle_matching/diff.py:112-117 | trimming a common prefix loses nothing |
| `Minimal.SharedSuffix` | workflow-worker/src/workflow_worker/applications/modules/subtitle_matching/diff.py:119-126 | nor does trimming a common suffix |
| `Collision.WalkKeepsWave` | workflow-worker/src/workflow_worker/applications/modules/subtitle_matching/diff.py:296-314 | an entry past the shorter text has a neighbour two diagonals on that reached its end; every walk keeps this |
| `Collision.RunsOff` | workflow-worker/src/workflow_worker/applications/modules/subtitle_matching/diff.py:309-314 | only entries past the shorter text, on diagonals away from the other path, leave the grid |
| `Frontier.AdvancedSound` | workflow-worker/src/workflow_worker/applications/modules/subtitle_matching/diff.py:296-314 | after a walk every entry is unset or has non-negative coordinates, and those further out are unset |
| `Merging.FactorPrefix` | workflow-worker/src/workflow_worker/applications/modules/subtitle_matching/diff.py:1003-1019 | a common prefix of a run moves into the equality before it, or into a new one at the front |
| `Merging.FactorSuffix` | workflow-worker/src/workflow_worker/applications/modules/subtitle_matching/diff.py:1020-1028 | a common suffix of a run moves into the equality after it |
| `Merging.MergeRun` | workflow-worker/src/workflow_worker/applications/modules/subtitle_matching/diff.py:1002-1037 | a run of edits becomes its shared ends and at most one deletion and one insertion |
| `Merging.MergedRunKeeps` | workflow-worker/src/workflow_worker/applications/modules/subtitle_matching/diff.py:1002-1037 | that keeps the two texts, and has fewer edited characters or no more entries; the two edits left share no prefix and no suffix |
| `Merging.MergeEdits` | workflow-worker/src/workflow_worker/applications/modules/subtitle_matching/diff.py:985-1054 | the first pass is a left-to-right rewriting of the runs of the list, without an empty equality at the end; it keeps the two texts and leaves any two neighbouring edits a deletion followed by an insertion with nothing in common at their ends |
| `Merging.PassedEqualities` | workflow-worker/src/workflow_worker/applications/modules/subtitle_matching/diff.py:1038-1044 | the first pass joins equalities that stand next to each other into one |
| `Merging.SlideAt` | workflow-worker/src/workflow_worker/applications/modules/subtitle_matching/diff.py:1062-1095 | an edit between two equalities slides over one of them exactly when it ends or begins with it |
| `Merging.SlideEdits` | workflow-worker/src/workflow_worker/applications/modules/subtitle_matching/diff.py:1056-1095 | the shift sweep keeps the texts and the edited characters; it changes nothing exactly when it reports no change, and then nothing can slide |
| `Merging.CleanupMerge` | workflow-worker/src/workflow_worker/applications/modules/subtitle_matching/diff.py:978-1099 | on every diff: same texts, neighbouring edits normal, nothing left to slide, never larger; equalities only become one; the self-call ends because edited characters or entries decrease |
| `Dropping.SplitKeeps` | workflow-worker/src/workflow_worker/applications/modules/subtitle_matching/diff.py:697-703 | turning an equality into a deletion and an insertion keeps both texts |
| `Dropping.DropTrivialEqualities` | workflow-worker/src/workflow_worker/applications/modules/subtitle_matching/diff.py:667-718 | equalities no longer than the edits on both sides are dropped one by one, each trivial when it is dropped, until none is; changes is reported exactly when there was one |
| `Dropping.TrivialMeaning` | workflow-worker/src/workflow_worker/applications/modules/subtitle_matching/diff.py:686-696 | an equality is dropped when it is no longer than the longer of the deleted and the inserted text before it, and likewise after it |
| `Dropping.DropInefficientEqualities` | workflow-worker/src/workflow_worker/applications/modules/subtitle_matching/diff.py:907-973 | the same for equalities that are cheaper to edit away, with the pre and post flags of the scan |
| `Dropping.InefficientMeaning` | workflow-worker/src/workflow_worker/applications/modules/subtitle_matching/diff.py:945-951 | an equality shorter than the edit cost is dropped when there are both kinds of edit on both sides, or when only one of the four is missing and it is shorter than half the cost |
| `Dropping.DropsSnoc` | workflow-worker/src/workflow_worker/applications/modules/subtitle_matching/diff.py:697-718 | the order in which equalities are dropped composes |
| `Dropping.SplitInPlace` | workflow-worker/src/workflow_worker/applications/modules/subtitle_matching/diff.py:960-963 | when both kinds of edit precede a dropped equality, no equality before it becomes inefficient, so the scan need not go back |
| `Simplify.ExtractOverlap` | workflow-worker/src/workflow_worker/applications/modules/subtitle_matching/diff.py:729-777 | the longest overlap of a deletion and an insertion, in either direction, becomes an equality when it is half as long as one of them |
| `Simplify.ExtractedKeeps` | workflow-worker/src/workflow_worker/applications/modules/subtitle_matching/diff.py:729-777 | extracting keeps both texts, and no overlap of at least half a text's length is missed |
| `Simplify.ExtractOverlaps` | workflow-worker/src/workflow_worker/applications/modules/subtitle_matching/diff.py:725-779 | every deletion followed by an insertion is treated, front to back, over the list that grows |
| `Simplify.ExtractedAllKeeps` | workflow-worker/src/workflow_worker/applications/modules/subtitle_matching/diff.py:725-779 | which keeps both texts of any diff |
| `Simplify.BestWindow` | workflow-worker/src/workflow_worker/applications/modules/subtitle_matching/diff.py:847-879 | stepping right from the leftmost position finds the best-scoring position, the last of equally good ones |
| `Simplify.BestUnique` | workflow-worker/src/workflow_worker/applications/modules/subtitle_matching/diff.py:860-879 | there is one such position |
| `Simplify.BestExists` | workflow-worker/src/workflow_worker/applications/modules/subtitle_matching/diff.py:860-879 | it always exists and keeps what the window reads with and without the edit |
| `Simplify.ScoreMeaning` | workflow-worker/src/workflow_worker/applications/modules/subtitle_matching/diff.py:791-838 | the score of a boundary: 6 at an edge, 5 at a blank line, 4 at a line break, 3 at the end of a sentence, 2 at white space, 1 at another character that is no letter or digit |
| `Simplify.CatCame` | workflow-worker/src/workflow_worker/applications/modules/subtitle_matching/diff.py:781-784 | the documented example: an edit in the middle of a word moves to the word boundary |
| `Simplify.WriteWindow` | workflow-worker/src/workflow_worker/applications/modules/subtitle_matching/diff.py:881-893 | the window is written back with empty equalities deleted, and the pointer follows |
| `Simplify.ShiftedKeeps` | workflow-worker/src/workflow_worker/applications/modules/subtitle_matching/diff.py:840-894 | shifting the edits of any diff keeps both texts and every edited character |
| `Simplify.CleanupSemanticLossless` | workflow-worker/src/workflow_worker/applications/modules/subtitle_matching/diff.py:781-894 | each edit between equalities goes to its best position in turn; the pointer stays at 1 or above |
| `Simplify.CleanupSemantic` | workflow-worker/src/workflow_worker/applications/modules/subtitle_matching/diff.py:660-779 | drop, merge if anything was dropped, shift, extract: the result is these four steps on the list, with the texts it started with |
| `Simplify.CleanupEfficiency` | workflow-worker/src/workflow_worker/applications/modules/subtitle_matching/diff.py:900-976 | untouched exactly when no equality is inefficient; otherwise merged after the last inefficient one is gone |
| `Levenshtein.DiffLevenshtein` | workflow-worker/src/workflow_worker/applications/modules/subtitle_matching/diff.py:1189-1213 | at least the edit distance of the two texts, and at least the difference of their lengths |
| `Levenshtein.Subadditive` | workflow-worker/src/workflow_worker/applications/modules/subtitle_matching/diff.py:1189-1213 | edit distance is subadditive over concatenation |
| `Levenshtein.AtLeastLengths` | workflow-worker/src/workflow_worker/applications/modules/subtitle_matching/diff.py:1189-1213 | edit distance is at least the difference of lengths |
| `Levenshtein.ScoreIsEnough` | workflow-worker/src/workflow_worker/applications/modules/subtitle_matching/diff.py:1197-1213 | the score of any diff is enough edits |
| `Levenshtein.DistanceIsAttained` | workflow-worker/src/workflow_worker/applications/modules/subtitle_matching/diff.py:1197-1213 | some diff scores exactly the edit distance, so the bound is tight |
| `Encoding.DecodeEncode` | workflow-worker/src/workflow_worker/applications/modules/subtitle_matching/diff.py:1230-1231 | UTF-8 decoding undoes encoding |
| `Encoding.QuotePlain` | workflow-worker/src/workflow_worker/applications/modules/subtitle_matching/diff.py:1230-1231 | percent-encoding (section 2.1 of RFC 3986) emits ASCII without tabs |
| `Encoding.QuotedByte` | workflow-worker/src/workflow_worker/applications/modules/subtitle_matching/diff.py:1230-1231 | exactly letters, digits, the unreserved marks and the characters named as safe stay; any other byte becomes % and two upper-case hex digits |
| `Encoding.QuoteRoundTrip` | workflow-worker/src/workflow_worker/applications/modules/subtitle_matching/diff.py:1230-1231 | unquoting undoes quoting |
| `Deltas.DecimalRoundTrip` | workflow-worker/src/workflow_worker/applications/modules/subtitle_matching/diff.py:1232-1235 | a length printed in decimal parses back |
| `Deltas.SignedNumber` | workflow-worker/src/workflow_worker/applications/modules/subtitle_matching/diff.py:1267-1270 | a length may have a sign, which counts, and white space around it |
| `Deltas.SplitJoin` | workflow-worker/src/workflow_worker/applications/modules/subtitle_matching/diff.py:1237-1237 | splitting at tabs undoes joining with tabs; no tokens give one empty token |
| `Deltas.ToDelta` | workflow-worker/src/workflow_worker/applications/modules/subtitle_matching/diff.py:1215-1237 | the tokens joined by tabs; an encoding error exactly for lone surrogates in an insertion |
| `Deltas.DeltaExample` | workflow-worker/src/workflow_worker/applications/modules/subtitle_matching/diff.py:1215-1222 | the documented example: keep 3 characters, delete 2, insert "ing" |
| `Deltas.FromDelta` | workflow-worker/src/workflow_worker/applications/modules/subtitle_matching/diff.py:1239-1289 | reads the tokens in order; a diff that is returned uses up exactly the source text |
| `Deltas.BadTokens` | workflow-worker/src/workflow_worker/applications/modules/subtitle_matching/diff.py:1266-1283 | a token that begins with none of the three signs is an invalid operation, and a length that is missing an invalid number |
| `Deltas.NegativeLength` | workflow-worker/src/workflow_worker/applications/modules/subtitle_matching/diff.py:1271-1272 | a length below zero is reported as one |
| `Deltas.ReadIsDiffOfSource` | workflow-worker/src/workflow_worker/applications/modules/subtitle_matching/diff.py:1252-1283 | whatever the tokens, a successful reading is a diff of the rest of the source text |
| `Deltas.DeltaRoundTrip` | workflow-worker/src/workflow_worker/applications/modules/subtitle_matching/diff.py:1215-1289 | reading a diff's delta against its source text gives the diff, empty diffs and empty texts included |
| `Deltas.ThereAndBack` | workflow-worker/src/workflow_worker/applications/modules/subtitle_matching/diff.py:1215-1289 | the two functions called one after the other |
| `Subsequence.NoneLonger` | workflow-worker/src/workflow_worker/shared/utils/text.py:48-55 | no common subsequence is longer than the recurrence says |
| `Subsequence.TraceIsCommon` | workflow-worker/src/workflow_worker/shared/utils/text.py:57-81 | the traceback is strictly increasing in the target, matched by increasing source positions, and as long as the recurrence says, whichever rule each step uses |
| `Subsequence.Table` | workflow-worker/src/workflow_worker/shared/utils/text.py:48-55 | every cell of the table is the length for its prefixes |
| `Subsequence.WalkBack` | workflow-worker/src/workflow_worker/shared/utils/text.py:57-81 | the loop with its two tie-breaking rules yields that traceback |
| `Subsequence.CutPath` | workflow-worker/src/workflow_worker/shared/utils/text.py:82-89 | the cut of the path |
| `Subsequence.CutUnique` | workflow-worker/src/workflow_worker/shared/utils/text.py:84-89 | the cut is the longest prefix with gaps of at most 20 |
| `Subsequence.Lcs` | workflow-worker/src/workflow_worker/shared/utils/text.py:34-89 | the cut traceback; empty when nothing is common |
| `Subsequence.LcsMeaning` | workflow-worker/src/workflow_worker/shared/utils/text.py:34-89 | the path before the cut is a longest common subsequence |
| `Subsequence.EarlierMatch` | workflow-worker/src/workflow_worker/shared/utils/text.py:57-81 | outside the later half of both sequences the next match is the one that needs the fewest elements of the source, and then the fewest of the target |
| `Subsequence.LaterMatch` | workflow-worker/src/workflow_worker/shared/utils/text.py:57-81 | in the later half of both it is the one that needs the fewest elements of the target, and then the fewest of the source |
| `Subsequence.CrossingMatch` | workflow-worker/src/workflow_worker/shared/utils/text.py:57-81 | where that would leave the later half of the target, the walk goes on from its border by the other rule |
| `Subsequence.FirstOfTwo` | workflow-worker/src/workflow_worker/shared/utils/text.py:34-89 | of "ab" and "ba" the walk picks position 0 |
| `Masks.MarksAreCommon` | workflow-worker/src/workflow_worker/applications/modules/subtitle_matching/module.py:343-353 | the marked positions of any diff spell a common subsequence of its texts |
| `Masks.FillMask` | workflow-worker/src/workflow_worker/applications/modules/subtitle_matching/module.py:344-353 | the slice assignments mark exactly the equalities |
| `Masks.LongestStretch` | workflow-worker/src/workflow_worker/applications/modules/subtitle_matching/module.py:355-371 | the first longest chain of marked positions with at most 4 unmarked ones between neighbours |
| `Masks.CutToStretch` | workflow-worker/src/workflow_worker/applications/modules/subtitle_matching/module.py:354-377 | the mask is cleared outside that chain and the template text of the chain is returned |
| `Masks.StretchCovers` | workflow-worker/src/workflow_worker/applications/modules/subtitle_matching/module.py:354-377 | a cut mask still spells a common subsequence |
| `Masks.CoverIsShort` | workflow-worker/src/workflow_worker/applications/modules/subtitle_matching/module.py:343-379 | so no more is marked than the longest common subsequence has |
| `Masks.WholeMarked` | workflow-worker/src/workflow_worker/applications/modules/subtitle_matching/module.py:328-379 | a template that occurs in the recognised text is marked from end to end, whether or not the deadline of the diff is felt |
| `Masks.MatchMask2` | workflow-worker/src/workflow_worker/applications/modules/subtitle_matching/module.py:328-379 | for whitespace-trimmed text the mask is the longest stretch of a diff as good as promised, covers a common subsequence, the similarity is its share and lies in [0, 1]; it is 1 when the text occurs in the other |
| `Masks.MatchMask` | workflow-worker/src/workflow_worker/applications/modules/subtitle_matching/module.py:381-431 | the same for the older matcher with its length guard and its own denominator |
| `Masks.RecoverRotate` | workflow-worker/src/workflow_worker/applications/modules/subtitle_matching/module.py:562-571 | moving back undoes swapping the halves |
| `Masks.RotateRecover` | workflow-worker/src/workflow_worker/applications/modules/subtitle_matching/module.py:562-571 | and the other way round |
| `Masks.RecoverFits` | workflow-worker/src/workflow_worker/applications/modules/subtitle_matching/module.py:562-571 | a recovered mask has the template's length exactly when the rotated template has no white space at its ends, and then its flags are the template's own |
| `Masks.RecoverMisfit` | workflow-worker/src/workflow_worker/applications/modules/subtitle_matching/module.py:562-571 | a template with a space before its middle is one where it does not |
| `Masks.RecoveredAt` | workflow-worker/src/workflow_worker/applications/modules/subtitle_matching/module.py:562-571 | flag k of a rotated mask of the template's length goes to position k plus half the length, counted around the end |
| `Masks.DecideMeaning` | workflow-worker/src/workflow_worker/applications/modules/subtitle_matching/module.py:553-574 | a match exactly when the similarity reaches the threshold or, for partial texts, that of the plain or of the rotated match reaches half of it; the plain match goes first, a rotated one is reported with its own similarity and at the template's own positions |
| `Masks.MatchTemplate` | workflow-worker/src/workflow_worker/applications/modules/subtitle_matching/module.py:553-574 | one template's decision: plain match, rotated second try for partial texts, thresholds, all on the stretch of the recognised text that fits |
| `ContinuousRuns.FindRuns` | workflow-worker/src/workflow_worker/applications/modules/subtitle_matching/module.py:248-283 | exactly the maximal runs of at least the required number of hits, in order, with their averages; an IndexError exactly when the requirement is not positive and a miss has no hit before it |
| `ContinuousRuns.HighestIsMost` | workflow-worker/src/workflow_worker/applications/modules/subtitle_matching/module.py:252-263 | the reported maximum similarity bounds those of all hits and is a hit's own, or 0 |
| `ContinuousRuns.LowestIsZero` | workflow-worker/src/workflow_worker/applications/modules/subtitle_matching/module.py:252-263 | the reported minimum similarity is always 0 |
| `ContinuousRuns.LowestIsLeastIff` | workflow-worker/src/workflow_worker/applications/modules/subtitle_matching/module.py:252-263 | it is the smallest similarity of a hit exactly when some hit has similarity 0 |
| `ContinuousRuns.LowestMissed` | workflow-worker/src/workflow_worker/applications/modules/subtitle_matching/module.py:252-263 | one hit of similarity 0.8: reported is 0 |
| `ContinuousRuns.MissFirst` | workflow-worker/src/workflow_worker/applications/modules/subtitle_matching/module.py:265-278 | a miss in the first frame with no frame required: the IndexError |
| `RingBuffer.CircularQueue.constructor` | workflow-worker/src/workflow_worker/infrastructure/circular_queue.py:7-11 | an empty queue of this capacity, 0 included |
| `RingBuffer.CircularQueue.IsFull` | workflow-worker/src/workflow_worker/infrastructure/circular_queue.py:13-14 | full exactly when it holds as many elements as it has slots; the ZeroDivisionError exactly without slots |
| `RingBuffer.CircularQueue.IsEmpty` | workflow-worker/src/workflow_worker/infrastructure/circular_queue.py:16-17 | empty exactly when it holds nothing |
| `RingBuffer.CircularQueue.Enqueue` | workflow-worker/src/workflow_worker/infrastructure/circular_queue.py:19-34 | appends to a bounded sequence, or refuses exactly when that is full; fails exactly without slots |
| `RingBuffer.CircularQueue.Dequeue` | workflow-worker/src/workflow_worker/infrastructure/circular_queue.py:36-50 | takes the first element of that sequence, or None exactly when there is none |
| `MediaStreams.FrameChannel.Input` | workflow-worker/src/workflow_worker/infrastructure/media_stream/frame_channel.py:30-54 | accepts, refuses as closed or marked, or is full |
| `MediaStreams.FrameChannel.Consume` | workflow-worker/src/workflow_worker/infrastructure/media_stream/frame_channel.py:57-86 | one step of the generator; a message is yielded exactly when one was waiting and the queue open |
| `MediaStreams.FrameChannel.MarkClose` | workflow-worker/src/workflow_worker/infrastructure/media_stream/frame_channel.py:88-90 | the mark is set and nothing else changes |
| `MediaStreams.MediaStream.AddChannel` | workflow-worker/src/workflow_worker/infrastructure/media_stream/stream.py:50-53 | a fresh channel is registered last |
| `MediaStreams.MediaStream.Offer` | workflow-worker/src/workflow_worker/infrastructure/media_stream/stream.py:97-100 | the object's step is the machine's: a message is taken up, or the source told to stop |
| `MediaStreams.MediaStream.Send` | workflow-worker/src/workflow_worker/infrastructure/media_stream/stream.py:101-116 | the same: cached unless full; after it the source ends, goes on, or may go on although it was told to stop |
| `MediaStreams.MediaStream.Poll` | workflow-worker/src/workflow_worker/infrastructure/media_stream/stream.py:134-145 | the same: the oldest cached message goes to the broadcast |
| `MediaStreams.MediaStream.Deliver` | workflow-worker/src/workflow_worker/infrastructure/media_stream/stream.py:154-174 | the same: one channel served, skipped, retried, or removed; an exception force-stops |
| `MediaStreams.MediaStream.Finish` | workflow-worker/src/workflow_worker/infrastructure/media_stream/stream.py:146-152 | the same: after the last message all channels are closed |
| `MediaStreams.MediaStream.ForceStop` | workflow-worker/src/workflow_worker/infrastructure/media_stream/stream.py:66-73 | the same: both tasks end and every open channel is marked |
| `MediaStreams.MediaStream.CloseAll` | workflow-worker/src/workflow_worker/infrastructure/media_stream/stream.py:232-234 | every registered channel is marked and none stays registered |
| `MediaStreams.MediaStream.Remove` | workflow-worker/src/workflow_worker/infrastructure/media_stream/stream.py:236-238 | one channel is marked and unregistered |
| `Pipeline.StepKeeps` | workflow-worker/src/workflow_worker/infrastructure/media_stream/stream.py:97-174 | every action of every party keeps the invariant |
| `Pipeline.RunKeeps` | workflow-worker/src/workflow_worker/infrastructure/media_stream/stream.py:97-174 | so does every interleaving |
| `Pipeline.CacheConserves` | workflow-worker/src/workflow_worker/infrastructure/media_stream/stream.py:97-152 | in every run, accepted messages are the dispatched ones followed by the cached ones, and the cache never exceeds its size |
| `Pipeline.ChannelsConserve` | workflow-worker/src/workflow_worker/infrastructure/media_stream/stream.py:154-174 | in every run, an open channel has received exactly the messages it wants of those dispatched past it, in order; a consumer has a beginning of them, at most 100 wait, and at most one comes after the closing mark |
| `Pipeline.LastMessageReachesOpenChannels` | workflow-worker/src/workflow_worker/infrastructure/media_stream/stream.py:145-149 | in every run, when the last message has been broadcast the cache is empty, the source hands over no more, and each channel still open has received exactly what it wants of all accepted messages |
| `Sampling.ChannelSampled` | workflow-worker/src/workflow_worker/infrastructure/media_stream/stream.py:154-174 | in every run, an open channel of a step of at least 1 has received exactly the messages dispatched past it that have no image or one whose number the step divides, in order |
| `Sampling.StreamSampled` | workflow-worker/src/workflow_worker/infrastructure/media_stream/stream.py:145-174 | when the last message has been broadcast, exactly those of the whole stream |
| `Sampling.StepOneWantsAll` | workflow-worker/src/workflow_worker/infrastructure/media_stream/stream.py:173-174 | a channel of step 1 skips nothing |
| `Sampling.ConsecutiveWanted` | workflow-worker/src/workflow_worker/infrastructure/media_stream/stream.py:173-174 | of consecutive images a channel of step k gets every k-th: one of any k, and of n images n / k rounded down or up |
| `Sampling.SecondDelivered` | workflow-worker/src/workflow_worker/infrastructure/media_stream/stream.py:173-228 | a second of decoded frames brings a channel its rate, at most one frame short, and less than one frame more than twice its rate |
| `Draining.ReadAllIff` | workflow-worker/src/workflow_worker/infrastructure/media_stream/frame_channel.py:57-90 | whatever happens then, a consumer that has ended has read all its channel wants of the stream exactly when nothing was queued at the close, or one message that it was already waiting for and then reads; else it misses at most 100 |
| `Draining.LosingRun` | workflow-worker/src/workflow_worker/infrastructure/media_stream/frame_channel.py:60-64 | for every number up to 100 some run ends with that many queued messages unread |
| `Draining.OverStays` | workflow-worker/src/workflow_worker/infrastructure/media_stream/stream.py:97-174 | once both tasks are over and the channels closed, only consumers move |
| `Draining.DrainsIff` | workflow-worker/src/workflow_worker/infrastructure/media_stream/frame_channel.py:57-86 | a marked channel ends empty exactly in that case |
| `Pipeline.ConsumerKeeps` | workflow-worker/src/workflow_worker/infrastructure/media_stream/frame_channel.py:57-86 | a consumer only moves messages from the queue's front to the end of what it has read |
| `Pipeline.DeliverFailsIff` | workflow-worker/src/workflow_worker/infrastructure/media_stream/stream.py:173-174 | the dispatcher fails on a message exactly when it carries an image and the channel's step is 0 |
| `Pipeline.StoppedStays` | workflow-worker/src/workflow_worker/infrastructure/media_stream/stream.py:66-73 | after a forced stop nothing more is accepted or dispatched, in any run |
| `FrameRates.ChooseDecodeFps` | workflow-worker/src/workflow_worker/infrastructure/media_stream/stream.py:197-222 | the largest whole rate above neither the fastest request nor the metadata; an error exactly when neither is given |
| `FrameRates.RecalcProcessSteps` | workflow-worker/src/workflow_worker/infrastructure/media_stream/stream.py:224-228 | every channel's step |
| `FrameRates.StepPositiveIff` | workflow-worker/src/workflow_worker/infrastructure/media_stream/stream.py:224-228 | a step is at least 1 exactly when the channel asks for no more than is decoded |
| `FrameRates.RateDelivered` | workflow-worker/src/workflow_worker/infrastructure/media_stream/stream.py:224-228 | with such a step the channel gets at least its rate and less than twice it |
| `FrameRates.AllStepsPositiveIff` | workflow-worker/src/workflow_worker/infrastructure/media_stream/stream.py:197-228 | all steps are usable exactly when no rate is asked for, or the highest is whole and the metadata's rate reaches it |
| `FrameRates.FractionalRate` | workflow-worker/src/workflow_worker/infrastructure/media_stream/stream.py:217-226 | 29.97 frames a second alone gives step 0 |
| `FrameRates.DispatchSurvives` | workflow-worker/src/workflow_worker/infrastructure/media_stream/stream.py:154-174 | with usable steps no interleaving makes the dispatcher fail |
| `TimePatches.TimePatch.UpdateEndTime` | workflow-worker/src/workflow_worker/domain/entities/common/time_patch.py:67-76 | only the end moves |
| `TimePatches.TimePatch.OverlapMeaning` | workflow-worker/src/workflow_worker/domain/entities/common/time_patch.py:98-110 | is_overlap says exactly whether two patches share an instant |
| `Intervals.ComplementPartitions` | workflow-worker/src/workflow_worker/applications/modules/person_tracking/processor.py:158-185 | for any list, ordered or not: list and complement count every instant up to the finish once, and their durations add up |
| `Intervals.ComplementPointwise` | workflow-worker/src/workflow_worker/applications/modules/person_tracking/processor.py:158-185 | for patches in order every instant of the video is in the list or in its complement, never in both |
| `Intervals.ComplementTwice` | workflow-worker/src/workflow_worker/applications/modules/person_tracking/processor.py:158-185 | complementing twice gives the list back exactly when no patch is empty, none touches the next, and the last one's end is its own |
| `Intervals.TouchingLost` | workflow-worker/src/workflow_worker/applications/modules/person_tracking/processor.py:158-185 | two patches that touch come back as one |
| `Intervals.OnScreenRatio` | workflow-worker/src/workflow_worker/applications/modules/person_tracking/processor.py:428-432 | one less the lost share is the share on screen |
| `TimePatches.Reversed` | workflow-worker/src/workflow_worker/applications/modules/person_tracking/processor.py:158-185 | the loop computes the complement, as new objects |
| `TimePatches.TrackingSequence.Reverse` | workflow-worker/src/workflow_worker/services/ai/track/manager.py:100-114 | the tracking sequence computes the same complement |
| `TimePatches.GetRatioWarning` | workflow-worker/src/workflow_worker/applications/modules/person_tracking/processor.py:428-433 | warns exactly when the time on screen is short of its part; ZeroDivisionError exactly for duration 0 |
| `Sweeping.CrowdedMeaning` | workflow-worker/src/workflow_worker/applications/modules/person_tracking/processor.py:461-489 | for any patches: the result is in order, without overlap, nothing stays open, and t is covered exactly when more than n patches have begun and not ended |
| `Sweeping.CrowdedCounts` | workflow-worker/src/workflow_worker/applications/modules/person_tracking/processor.py:461-489 | for patches that do not end before they start: exactly when more than n of them cover t |
| `Sweeping.AllClosed` | workflow-worker/src/workflow_worker/applications/modules/person_tracking/processor.py:476-489 | every patch that is opened is closed |
| `Sweeping.MaxNumWarning` | workflow-worker/src/workflow_worker/applications/modules/person_tracking/processor.py:491-508 | composed with the complement: an instant is covered exactly when more than n people are on screen, and the warning is raised exactly when there is such an instant |
| `TimePatches.GetTimePatchCount` | workflow-worker/src/workflow_worker/applications/modules/person_tracking/processor.py:461-489 | the sweep over the sorted time points, with patches opened and closed in place |
| `TimePatches.GetMaxNumWarning` | workflow-worker/src/workflow_worker/applications/modules/person_tracking/processor.py:491-508 | the complements of all lost patches, swept |
| `GapMerging.TogetherIffLinked` | workflow-worker/src/workflow_worker/services/ai/track/manager.py:173-185 | two original patches end up in one output patch exactly when a chain of originals at most gap apart links them |
| `GapMerging.SortMergeSpaced` | workflow-worker/src/workflow_worker/services/ai/track/manager.py:173-185 | the output is in order and pairwise more than gap apart, and merging it again changes nothing |
| `GapMerging.MergeInstants` | workflow-worker/src/workflow_worker/services/ai/track/manager.py:173-185 | no original instant is lost, and one that is added lies within gap after a patch |
| `TimePatches.GuardIsGap` | workflow-worker/src/workflow_worker/services/ai/track/manager.py:178-181 | the guard with is_overlap is a bound on the distance |
| `TimePatches.TrackingSequence.MergeTimePatch` | workflow-worker/src/workflow_worker/services/ai/track/manager.py:173-185 | the loop over the sorted objects extends the first patch of each group in place |
| `TimePatches.TrackingSequence.TakeOver` | workflow-worker/src/workflow_worker/services/ai/track/manager.py:162-167 | the patches of both sequences, merged |
| `TimePatches.MergeIntervals` | workflow-worker/src/workflow_worker/applications/modules/person_tracking/processor.py:442-459 | the same with gap 0, for any patches |
| `Boxes.Intersection` | workflow-worker/src/workflow_worker/shared/utils/image_calculator.py:43-71 | exactly the common pixels of two legal boxes, or none |
| `Boxes.RatiosBounded` | workflow-worker/src/workflow_worker/shared/utils/image_calculator.py:74-120 | both ratios lie in [0, 1], the union's is never larger, and both are positive exactly when the boxes meet |
| `Boxes.LegalIff` | workflow-worker/src/workflow_worker/shared/utils/image_calculator.py:6-40 | a box is legal exactly when it has a pixel with non-negative coordinates |
| `Boxes.AreaCounts` | workflow-worker/src/workflow_worker/shared/utils/image_calculator.py:24-40 | the area of a box is the number of its pixels |
| `Boxes.RatiosCount` | workflow-worker/src/workflow_worker/shared/utils/image_calculator.py:74-120 | IoA times the number of the first box's pixels is the number of common pixels, and so is IoU times the number of pixels in either |
| `Boxes.IoaWholeIff` | workflow-worker/src/workflow_worker/shared/utils/image_calculator.py:97-120 | IoA is 1 exactly when every pixel of the first box lies in the second |
| `FaceBody.Candidates` | workflow-worker/src/workflow_worker/services/ai/track/service.py:63-72 | all pairs that reach the threshold, faces outermost |
| `FaceBody.RowsMeaning` | workflow-worker/src/workflow_worker/services/ai/track/service.py:63-72 | a pair is listed exactly when its overlap reaches the threshold |
| `FaceBody.CandidateIff` | workflow-worker/src/workflow_worker/services/ai/track/service.py:63-72 | a face and a body are a candidate pair exactly when at least four fifths of the face's pixels lie in the body |
| `FaceBody.ChosenMeaning` | workflow-worker/src/workflow_worker/services/ai/track/service.py:63-85 | the chosen pairs are candidates, one-to-one, and every candidate left out clashes with a chosen one of at least its score |
| `FaceBody.HalfOptimal` | workflow-worker/src/workflow_worker/services/ai/track/service.py:63-85 | their total IoA is at least half that of any matching over candidates |
| `FaceBody.Assign` | workflow-worker/src/workflow_worker/services/ai/track/service.py:76-85 | the loop with its sets and dictionary makes these choices |
| `FaceBody.HumanLocalization` | workflow-worker/src/workflow_worker/services/ai/track/service.py:57-97 | faces with their bodies, then the bodies left over; ValueError exactly for a box that is none |
| `FaceBody.EveryBodyOnce` | workflow-worker/src/workflow_worker/services/ai/track/service.py:87-96 | every body is in exactly one human |
| `FaceBody.EveryFaceOnce` | workflow-worker/src/workflow_worker/services/ai/track/service.py:87-96 | the i-th face is in the i-th human and no other |
| `Identities.GivenMeaning` | workflow-worker/src/workflow_worker/applications/modules/person_tracking/processor.py:316-327 | a participant gets the most similar sequence no earlier participant got, and none exactly when they got them all |
| `Identities.OccupiedOnce` | workflow-worker/src/workflow_worker/applications/modules/person_tracking/processor.py:316-327 | a sequence is occupied exactly when one participant got it, and only one |
| `Identities.GetIdentityMapper` | workflow-worker/src/workflow_worker/applications/modules/person_tracking/processor.py:303-335 | the mapper: free sequences under their own ids, participants' choices under theirs |
| `Identities.NamedOnce` | workflow-worker/src/workflow_worker/applications/modules/person_tracking/processor.py:303-335 | a sequence has at most one name, and has one exactly when nobody got it or its participant's id is not that of a free sequence |
| `Identities.AlwaysNamedIff` | workflow-worker/src/workflow_worker/applications/modules/person_tracking/processor.py:303-335 | for given ids, every sequence is named whoever it is matched with exactly when no participant has the id of a sequence, or that sequence is the only one |
| `Identities.ClashLosesName` | workflow-worker/src/workflow_worker/applications/modules/person_tracking/processor.py:329-334 | a participant with the id of a free sequence loses the sequence it was matched with |
| `Identities.NameLost` | workflow-worker/src/workflow_worker/applications/modules/person_tracking/processor.py:303-335 | participant 2 matched with sequence 1 of 1 and 2: sequence 1 has no name |
| `Segmenting.PatchesApart` | workflow-worker/src/workflow_worker/applications/modules/common/ocr/ocr_info_manager.py:267-282 | patches are in order and share no instant |
| `Segmenting.MatchInOnePatch` | workflow-worker/src/workflow_worker/applications/modules/common/ocr/ocr_info_manager.py:267-282 | every matching frame lies in exactly one patch |
| `Segmenting.SharePatch` | workflow-worker/src/workflow_worker/applications/modules/common/ocr/ocr_info_manager.py:267-282 | two consecutive matches share a patch exactly when fewer than ceil(tolerance) misses separate them |
| `Segmenting.NoTolerance` | workflow-worker/src/workflow_worker/applications/modules/common/ocr/ocr_info_manager.py:77-98 | without tolerance that fails |
| `OcrTracking.GetBbox` | workflow-worker/src/workflow_worker/applications/modules/common/ocr/ocr_info_manager.py:197-222 | the info's own box, or else the area and outline of the first largest text block; a positive area, None exactly for an illegal box |
| `OcrTracking.OcrManager.constructor` | workflow-worker/src/workflow_worker/applications/modules/common/ocr/ocr_info_manager.py:53-75 | tolerance is twice the rate; recognition needs detection |
| `OcrTracking.OcrManager.Reinit` | workflow-worker/src/workflow_worker/applications/modules/common/ocr/ocr_info_manager.py:77-98 | nothing is stored and no track runs |
| `OcrTracking.OcrManager.FilteredIs` | workflow-worker/src/workflow_worker/applications/modules/common/ocr/ocr_info_manager.py:136-153 | exactly the infos of an accepted type are looked at, in order, and none without detection |
| `OcrTracking.BoxesAgree` | workflow-worker/src/workflow_worker/applications/modules/common/ocr/ocr_info_manager.py:209-213 | on whole coordinates a box is accepted exactly when it is legal, and its area is the number of its pixels |
| `OcrTracking.OcrManager.Measure` | workflow-worker/src/workflow_worker/applications/modules/common/ocr/ocr_info_manager.py:165-173 | the largest area of any info of any matching frame is kept, with the outline and the frame of the first one that large; any matching frame stores one |
| `OcrTracking.OcrManager.RecognizeField` | workflow-worker/src/workflow_worker/applications/modules/common/ocr/ocr_info_manager.py:240-265 | the most similar block so far is kept, with its frame |
| `OcrTracking.OcrManager.DoRecognition` | workflow-worker/src/workflow_worker/applications/modules/common/ocr/ocr_info_manager.py:224-238 | for every field; what is new comes from this frame |
| `OcrTracking.OcrManager.GenRecogTrackingResult` | workflow-worker/src/workflow_worker/applications/modules/common/ocr/ocr_info_manager.py:301-350 | the first recognition, in the order of contents and key fields, of the highest similarity above its threshold, with its frame and box; None exactly when there is none; the best_frame assertion cannot fail |
| `OcrTracking.OcrManager.GenDetectTrackingResult` | workflow-worker/src/workflow_worker/applications/modules/common/ocr/ocr_info_manager.py:352-393 | the stored detection; the stored_frame assertion cannot fail |
| `OcrTracking.OcrManager.GenTrackingResult` | workflow-worker/src/workflow_worker/applications/modules/common/ocr/ocr_info_manager.py:284-299 | never nothing while a track runs: the first best recognition whenever one qualifies, and otherwise the stored detection |
| `OcrTracking.OcrManager.Generate` | workflow-worker/src/workflow_worker/applications/modules/common/ocr/ocr_info_manager.py:267-282 | one step of the segmenter |
| `OcrTracking.OcrManager.Process` | workflow-worker/src/workflow_worker/applications/modules/common/ocr/ocr_info_manager.py:395-403 | one frame: one step of the segmenter on whether an accepted info is in it; the largest detection and the best recognitions are kept, and a track that ends is reported by what it kept before |
| `OcrTracking.OcrManager.Over` | workflow-worker/src/workflow_worker/applications/modules/common/ocr/ocr_info_manager.py:405-413 | the patch still open ends at the last frame and is reported by what it kept |
| `OcrTracking.TrackAll` | workflow-worker/src/workflow_worker/applications/modules/signature_recognition/module.py:181-191 | over a whole video the results' patches are those of the segmenter |
| `Dispatching.PickExists` | workflow-manager/src/workflow_manager/core/repositories.py:140-150 | there is a job to take exactly when count_pending is not zero |
| `Dispatching.PickIsNext` | workflow-manager/src/workflow_manager/core/repositories.py:152-189 | only PENDING and RETRY jobs are taken, RETRY ones only when no job is PENDING; no job of the same status waited longer nor, of RETRY jobs, had fewer retries |
| `Dispatching.CallsEnd` | workflow-manager/src/workflow_manager/grpc/servicer.py:28-281 | in every interleaving and with any failures, calls take at most six steps each: a rollback is not rolled back |
| `Dispatching.FaultRollsBack` | workflow-manager/src/workflow_manager/grpc/servicer.py:28-281 | a call that fails outside its rollback is rolled back, and a rollback that fails is given up |
| `Dispatching.StepKeeps` | workflow-manager/src/workflow_manager/grpc/servicer.py:28-281 | every database step and external call of every call in progress keeps the invariant |
| `Dispatching.RetriesBounded` | workflow-manager/src/workflow_manager/grpc/servicer.py:28-281 | in every interleaving, with failures before or after any write, retry_times stays in 0..9 and a job is taken at most once more than it is put back |
| `Dispatching.TakenApart` | workflow-manager/src/workflow_manager/grpc/servicer.py:28-281 | once taken, a job is not taken again without a move to RETRY in between, in every interleaving |
| `Dispatching.TakenBounded` | workflow-manager/src/workflow_manager/grpc/servicer.py:28-281 | when calls on one job do not interleave, it is taken at most retry_times + 1 times, at most 10 |
| `Dispatching.RunBounded` | workflow-manager/src/workflow_manager/core/services.py:77-103 | more generally when no write puts a job back to RETRY without raising its count |
| `Dispatching.SequentialRaises` | workflow-manager/src/workflow_manager/core/services.py:77-103 | calls that do not interleave never make such a write |
| `Dispatching.StaleStoreBreaks` | workflow-manager/src/workflow_manager/core/services.py:77-103 | such a write on a job at the bound lets it be taken once too often |
| `Dispatching.InterleavedReports` | workflow-manager/src/workflow_manager/grpc/servicer.py:130-176 | for every n some interleaved run takes one job n + 1 times with one retry counted: no bound holds without an order between calls |
| `Dispatching.CallIsRun` | workflow-manager/src/workflow_manager/grpc/servicer.py:28-281 | a call that runs by itself is a run of the machine |
| `JobManager.Manager.GetById` | workflow-manager/src/workflow_manager/core/repositories.py:42-53 | the row unless it is deleted |
| `JobManager.Manager.UpdateStatus` | workflow-manager/src/workflow_manager/core/repositories.py:120-138 | one row's status changes, deleted or not |
| `JobManager.Manager.Update` | workflow-manager/src/workflow_manager/core/repositories.py:105-118 | the whole row as the caller holds it |
| `JobManager.Manager.CountPending` | workflow-manager/src/workflow_manager/core/repositories.py:140-150 | positive exactly when a job waits |
| `JobManager.Manager.GetOnePendingForUpdate` | workflow-manager/src/workflow_manager/core/repositories.py:152-189 | the oldest pending job, or else the least retried and then oldest, becomes RUNNING; None exactly when there is none |
| `JobManager.Manager.CreateJob` | workflow-manager/src/workflow_manager/core/services.py:16-35 | a pending row with no retries |
| `JobManager.Manager.GetRunnableJob` | workflow-manager/src/workflow_manager/core/services.py:105-116 | a job exactly when one waits |
| `JobManager.Manager.UpdateJob` | workflow-manager/src/workflow_manager/core/services.py:77-103 | reads the row and writes it back with the new count |
| `JobManager.Manager.RollbackToRetry` | workflow-manager/src/workflow_manager/grpc/servicer.py:251-281 | back to RETRY with one more, or FAILED at ten |
| `JobManager.Manager.GetJob` | workflow-manager/src/workflow_manager/grpc/servicer.py:28-98 | a picked job is handed out when both external calls work and put back otherwise |
| `JobManager.Manager.CreateReport` | workflow-manager/src/workflow_manager/grpc/servicer.py:100-224 | the whole call as a run of the machine |
| `JobManager.ReportMeaning` | workflow-manager/src/workflow_manager/grpc/servicer.py:130-224 | a report's effect outright: SUCCESS, RETRY with one more, or FAILED; the status before plays no part |

## Left out

- Engine.DiffMain: with a time limit the diff need not be minimal, as the source says itself; that it is minimal is claimed when no deadline check fires and, if there is a time limit, no part of the texts shares half with another part, and with `checklines` only when one of the texts has at most 100 characters. Exactly which texts with a half-match still get a minimal diff is not stated.
- Merging.CleanupMerge: two equalities may stay next to each other, as they do for a deletion and an insertion of the same text before an equality; the code does not join them either.
- HalfMatching.HalfMatch: diffs built on a half-match need not be minimal, as the source says itself; `Engine.HalfMatchCosts` is an example.
- Deltas.FromDelta: lengths are read as ASCII digits with sign, spaces and underscores; other Unicode digits that Python's int() accepts are not.
- TimePatches.TimePatch.UpdateEndTime: only the default unit, milliseconds, which is the only one the callers use; the other units are scale factors.
- TimePatches.TrackingSequence.MergeTimePatch: what happens to patches that end before they start is not stated, and the objects in the list must be distinct; tracked patches are never reversed, and two sequences never share one.
- TimePatches.GetRatioWarning: one person's check; the report entry and the choice of the requirement are not modelled.
- TimePatches.TrackingSequence.TakeOver: which of the two stored faces is kept is not modelled.
- TimePatches.MergeIntervals: the caller's list is sorted in place by the code and not here; the caller throws that list away.
- Identities.GetIdentityMapper: the relation between participants and sequences, which compares faces, is its input.
- OcrTracking.OcrManager.GenDetectTrackingResult: the parsed contents of the stored info are not modelled.
- FaceBody.HumanLocalization: faces and bodies are identified by position, so one object listed twice is not modelled.
- JobManager.Manager.CreateJob: the texts of the job are not modelled.
- JobManager.Manager.UpdateJob: only the call with status RETRY and a count, the only one the servicer makes.
- JobManager.Manager.GetJob: the call that runs by itself on a working database; failures and interleaving are the subject of `Dispatching`.
- JobManager.Manager.CreateReport: likewise.
- JobManager.Manager.GetOnePendingForUpdate: among jobs with equal sort keys any may be taken, as the database promises no more.
- The match and patch halves of diff.py, `diff_prettyHtml` and `diff_xIndex`: the worker does not call them.
- Whether a character is alphanumeric and how similar two texts are stay parameters: Unicode tables and the `distance` package are not part of this model.
- Floating-point rounding: rates, times, scores and ratios are exact.
- MediaStreams.FrameChannel.Input: `janus` is a bounded FIFO with a close flag, and its swallowed exceptions are not modelled; a `get` that times out is a step that finds nothing.
- Preemption inside a step between two awaits, the statistics task, and the data sources' own code.
- `SequenceManager`: its queue is not the sorted queue its comments describe, and its matching depends on face comparison, which is not part of this model.
- `IDCardOCRInfoManager`, which ranks by confidence and may store no frame, and `DocOCRInfoManager`, which compares the end of a text.
- Burr filtering, report formatting, storage and the detection and recognition engines.
- The manager's REST paging, heartbeats and scheduler, `transition_job_status`, and a job's texts; a report is empty or it is not.
- The database is taken to run each transaction of the repository atomically.
