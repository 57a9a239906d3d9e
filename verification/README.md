# Verified models of Fresh's text and configuration core

A Dafny model of the parts of the Fresh editor that rewrite text and settings, with proofs of what
they promise:

- **The line diff** (`crates/fresh-core/src/diff.rs`): lines are interned to ids, common ends are
  stripped, unique lines are chained by patience sorting into anchors, gaps between anchors recurse,
  anchor-free chunks go through a dense table, and chunks too large for it are replaced whole.
  Two clients sit on top: carrying a cursor through a rewrite, and the byte geometry of a
  side-by-side view.
- **The configuration documents** (`crates/fresh-editor-core/src/config_io.rs`): pointer edits, the two
  strip passes, a whole save, the delta against defaults, and the reconciliation of a syntax tree that
  keeps comments.
- **Text entries** (`crates/fresh-core/src/text_property.rs`): segments, truncation, padding and overlay
  offsets over UTF-8 text.
- **File URIs** (`crates/fresh-core/src/file_uri.rs`): the percent codec and the Unix path round trip,
  after sections 2.1 and 3.3 of RFC 3986.
- **`cfg(...)` predicates** (`scripts/debian.py`): the recursive-descent evaluator.

Loops, the flat table, the tails and back pointers, the shared output vector and the mutable cursors
stay as the programs have them: methods and classes, each proved against a specification function.
The promises are then proved about those functions for all inputs. Text is a sequence of bytes;
a Rust `str` is one that is valid UTF-8 (Table 3-7 of the Unicode Standard). `as u32` casts are written
out as truncation, with "fewer than 2^32 lines" as the precondition under which they are exact.

The modules, bottom up:

| module | holds |
|---|---|
| `Utils`, `EditScript` | hunks and edit scripts: equal gaps, separation, replay, embedding |
| `Lcs`, `LcsTable` | longest common subsequence, minimality; the dense table, backtrack and hunk emission |
| `Patience` | unique matches, the tails/back-pointer search, optimality of the chain |
| `LineDiff` | the recursive diff, its script property, minimality and work bounds |
| `AnchoredDiff` | the anchors of all depths; minimality among the scripts that match them |
| `Lines`, `Interner`, `Utf8` | line tokens, interning, byte scripts; characters and boundaries |
| `OffsetMap`, `ChangedSpans`, `CompareTexts` | the two clients of the diff |
| `Json`, `Pointers`, `ConfigSave`, `ConfigDocument`, `JsonDelta` | configuration documents |
| `CstReconcile`, `ConfigFile` | the syntax tree of a file, and a whole save of it |
| `TextProperty`, `FileUri`, `CfgPredicate`, `CfgText` | the smaller cores |

## Where the code and its description part

- `normalize_widths` is described as idempotent. It is, exactly outside one case: the text fits the
  cut, the pad exceeds the cut, and the cut is wide enough for dots that are not already there
  (`NormalizedTwiceIff`; a witness in `NormalizedOnceIsNotEnough`).
- A saved change is read back exactly when its pointer is not blocked and its value survives against
  what the file held there (`SaveWritesIff`). Empty strings and arrays that are new to the file are
  dropped on purpose (`SaveDropsNewEmptyString`).
- A save "preserves any manual edits not touched by the changes". It keeps an untouched value exactly
  when that value holds no null and no empty object (`SaveKeepsIffClean`; a witness in
  `SaveLosesEmptyObject`). A value under the renamed legacy key is kept exactly when it is explicit
  (`SaveRenamesIff`). Validation admits only a boolean or null there, and a boolean is always kept
  (`SaveKeepsLegacyFlag`).
- Saving again without changes is not always without effect. The second strip pass leaves an object it
  has emptied wherever the file holds something, and the next save drops it. `SaveSettlesIff` says exactly
  when a second save changes nothing, and `SaveDoesNotSettle` shows a change after which it does.
- The delta against defaults loses values its "empty object means no difference" encoding cannot
  express. `DiffIsExactIff` gives the exact condition and `EmptyStringIsLost` a witness.
- Sets at nested pointers depend on the iteration order of the changes: `SaveDependsOnOrder` shows two
  orders with two outcomes, `NestedSetsCommuteIff` says exactly when they agree.
- The reconciliation updates the first property of a name, while the last one counts when the file is
  read. In a file that repeats a name it can miss its target: `BecomesHasValueIff` gives the exact
  condition and `RepeatedNameMisses` a witness. `SaveMissesRepeatedName` is a saved change that is not read
  back for that reason.
- A hunk of the comparison is marked when only line endings differ. Texts with the same line bodies can
  still have unmarked hunks: all are marked exactly when, besides, no hunk changes the number of lines
  (`AllEolOnlyIff`). Two lines whose endings change places are a case (`SwappedEndingsAreNotMarked`,
  `SwappedCrLf`).
- A cursor at a character of the common tail of a rewritten line stays with that character, except where
  the common lead ends right there: it then stays behind the lead, in front of what was inserted
  (`WithinKeepsCharIff`; a witness in `WithinLeavesChar`).
- Truncation adjusts Char overlays and leaves Byte overlays alone. `ByteOverlayLandsIff` says exactly which
  of those stay in the text, and `ByteOverlayLeftBehind` shows one that does not.
- `not()` with nothing inside is an error of the `cfg` evaluator; the equivalence in `EvalSpelled` states it.

## Model

| member | source | states |
|---|---|---|
| LineDiff.DiffInternedLines | crates/fresh-core/src/diff.rs:164-168 | for all id sequences, whichever mix of paths runs: the hunks form a script, replaying them on the old ids gives exactly the new ids, there are none if and only if the sequences are equal; where no line is unique on both sides of what stripping leaves, they change as few lines as any script can if that has at most 1,000,000 cells, and are one block if it has more or only one side has lines; the dense tables computed have at most 1,000,000 * min(old, new) cells in all, and the chunks diffed at all depths have at most 33 * (old + new) lines in all |
| LineDiff.DiffRange | crates/fresh-core/src/diff.rs:173-259 | appends to the shared vector exactly the hunks of the specification, moved to absolute lines, within the cell budget of its chunk, and counts the lines of all chunks diffed; the recursion never passes depth 32 |
| LineDiff.DiffMiddle | crates/fresh-core/src/diff.rs:201-258 | the stripped chunk: one-sided chunks, the anchor path, the table below the cell limit and the coarse replacement above it, all against the specification |
| LineDiff.DiffGaps | crates/fresh-core/src/diff.rs:217-241 | the loop over the gaps between anchors emits each gap's hunks in order, and the cell budgets of the gaps add up to that of the chunk |
| LineDiff.StripEnds | crates/fresh-core/src/diff.rs:184-197 | what remains once the ends are taken off that agree: the lines before and behind them are equal, and the next ones differ or have run out |
| LineDiff.StrippedIffMiddle | crates/fresh-core/src/diff.rs:184-197 | the stripped chunks of the specification are the only ones with that property, so that the prefix goes first and nothing more can go |
| LineDiff.DiffIsScript | crates/fresh-core/src/diff.rs:173-259 | the hunks at every depth are in range, non-empty, strictly ordered, at least one common line apart, with equal lines everywhere else |
| LineDiff.AnchorsAreKept | crates/fresh-core/src/diff.rs:215-242 | no hunk covers an anchor line, on either side |
| LineDiff.NoHunksIffEqual | crates/fresh-core/src/diff.rs:164-168 | nothing is reported if and only if the sequences are equal |
| LineDiff.DiffChangesAtMost | crates/fresh-core/src/diff.rs:173-259 | whatever path runs, no stripped line and no anchor of the chunk is reported as changed: every anchor takes two off the bound |
| LineDiff.DiffIsMinimal | crates/fresh-core/src/diff.rs:173-259 | when the chunk left after stripping is one-sided, or small and without anchors, no script of the two sequences changes fewer lines: stripping the ends costs nothing |
| LineDiff.WithoutAnchors | crates/fresh-core/src/diff.rs:244-258 | at any depth, where no line occurs exactly once on each side: up to 1,000,000 cells no script changes fewer lines, above that and for one-sided chunks the chunk is replaced at once |
| LineDiff.LinesBounded | crates/fresh-core/src/diff.rs:6-13 | never quadratic over the whole file: each depth of the recursion looks at each line once at most |
| AnchoredDiff.DiffIsMinimalAround | crates/fresh-core/src/diff.rs:173-259 | unless a chunk is replaced whole for its size, no script that matches the anchors of all depths changes fewer lines than the diff |
| AnchoredDiff.DiffMatchesAnchors | crates/fresh-core/src/diff.rs:215-242 | the diff itself is such a script: at every depth it leaves the two lines of each anchor opposite each other |
| AnchoredDiff.DiffChanges | crates/fresh-core/src/diff.rs:173-259 | between two neighbouring anchors of any depth the diff changes exactly the lines outside a longest common subsequence, stripped ends included |
| AnchoredDiff.MatchingChangesAtLeast | crates/fresh-core/src/diff.rs:173-259 | any script that matches a chain of equal lines changes at least the lines outside the longest common subsequences of the chain's gaps |
| EditScript.ScriptOrdered | crates/fresh-core/src/api.rs:684-701 | in any script any two hunks are ordered and separated on both sides, non-empty and in range |
| EditScript.ScriptReplays | crates/fresh-core/src/diff.rs:641-662 | copying the gaps and taking the new side of every hunk rebuilds the new sequence from any aligned position |
| EditScript.ScriptAround | crates/fresh-core/src/diff.rs:217-241 | scripts on both sides of a common element compose into one: why anchors may be recursed around |
| EditScript.StrippedScript | crates/fresh-core/src/diff.rs:184-199 | a script of the stripped middles, renumbered, is a script of the whole sequences |
| Patience.PatienceAnchors | crates/fresh-core/src/diff.rs:265-323 | returns the specified longest chain, or nothing when no line is unique on both sides |
| Patience.AnchorsAreLongest | crates/fresh-core/src/diff.rs:265-323 | the anchors are equal lines, each occurring exactly once per side, strictly increasing on both sides, and no such chain is longer; there are none only if no such chain is non-empty |
| Patience.AnchorsAreLatest | crates/fresh-core/src/diff.rs:301-322 | of the longest chains the one is taken that, compared from the back, has the later new line where another first differs, which leaves no choice |
| Patience.CollectPairs | crates/fresh-core/src/diff.rs:273-293 | the occurrence counts yield the candidate pairs in new order |
| Patience.PairsAreAll | crates/fresh-core/src/diff.rs:285-293 | the candidates are exactly the pairs of lines unique on both sides, sorted by new position |
| Patience.SortTails | crates/fresh-core/src/diff.rs:301-313 | after the search each tail is the latest candidate ending a chain of its length, and every back pointer names the latest chain one shorter |
| Patience.InsertionPoint | crates/fresh-core/src/diff.rs:303-312 | the partition point is one less than the length of the longest increasing chain ending at the candidate |
| Patience.ChainIsIncreasing | crates/fresh-core/src/diff.rs:315-322 | the chain the back pointers spell has the claimed length and increases on both sides |
| Patience.FollowBack | crates/fresh-core/src/diff.rs:315-322 | following the back pointers and reversing yields that chain |
| LcsTable.LcsDiff | crates/fresh-core/src/diff.rs:327-403 | appends exactly the hunks of the dense-table diff, computing one cell per pair of lines |
| LcsTable.FillTable | crates/fresh-core/src/diff.rs:330-342 | every flat cell holds the LCS length of its row's and column's prefixes |
| LcsTable.FillRow | crates/fresh-core/src/diff.rs:333-341 | one row extends the filled part of the flat table by a stride and leaves the rest zero |
| LcsTable.CollectSteps | crates/fresh-core/src/diff.rs:352-374 | the three loops collect the backtrack of the table, ties going to Delete, in forward order once reversed |
| LcsTable.EmitHunks | crates/fresh-core/src/diff.rs:376-402 | the walk pushes one hunk per maximal run of changes, in absolute lines |
| Lcs.LcsIsUpperBound | crates/fresh-core/src/diff.rs:331-342 | no common subsequence of two prefixes is longer than the table's value |
| Lcs.LcsIsAttained | crates/fresh-core/src/diff.rs:331-342 | some common subsequence has exactly that length |
| Lcs.BacktrackIsPath | crates/fresh-core/src/diff.rs:352-374 | the backtrack is an alignment of the whole chunk with exactly LCS-many Equal steps |
| Lcs.LastStepIs | crates/fresh-core/src/diff.rs:352-374 | which longest alignment is taken: equal ends are matched, else the old line is deleted if and only if some longest common subsequence does without it |
| Lcs.GroupChanged | crates/fresh-core/src/diff.rs:376-402 | grouping steps into hunks neither loses nor invents a changed line |
| Lcs.ScriptsChangeAtLeast | crates/fresh-core/src/diff.rs:327-403 | every script of the chunk changes at least m + n - 2 * LCS lines |
| Lcs.LcsHunksAreMinimal | crates/fresh-core/src/diff.rs:327-403 | the dense-table hunks are a script, cover exactly m + n - 2 * LCS lines, and no script covers fewer |
| Interner.LineInterner.Intern | crates/fresh-core/src/diff.rs:149-159 | a known line keeps its id, a new one gets the next |
| Interner.LineInterner.InternAll | crates/fresh-core/src/diff.rs:43-53 | interning a side keeps every id given out before and stays injective |
| Interner.InternKeeps | crates/fresh-core/src/diff.rs:149-159 | ids stay injective across both sides: equal ids if and only if equal lines |
| Interner.ComputeLineDiff | crates/fresh-core/src/diff.rs:43-54 | the hunks of two texts are a script of their line tokens and replaying them rebuilds the new tokens |
| Interner.TextHunksAreScript | crates/fresh-core/src/diff.rs:43-54 | the ids' script is the line tokens' script, the final newline included |
| Interner.TextBytesAreScript | crates/fresh-core/src/diff.rs:43-54 | the byte ranges of the hunks form a script of the texts, and replaying them rebuilds the new text byte for byte |
| Lines.ByteScript | crates/fresh-core/src/diff.rs:74-111 | a script of lines is, range by range, a script of the bytes |
| Lines.SplitIsLines | crates/fresh-core/src/diff.rs:36-42 | a text is cut behind every newline and nowhere else: every line but the last ends in one, and none has one before its end |
| Lines.SplitOfLines | crates/fresh-core/src/diff.rs:36-42 | any such lines, written one after the other, are cut into just those lines |
| OffsetMap.MapOffsetThroughDiff | crates/fresh-core/src/diff.rs:74-100 | computes the specified offset, lands in the new text, and takes a character boundary to one |
| OffsetMap.MapThroughHunks | crates/fresh-core/src/diff.rs:79-99 | the walk with its running delta computes the mapping; the final clamp never changes the result |
| OffsetMap.LineStartOffsets | crates/fresh-core/src/diff.rs:105-111 | the start of every line and the length at the end |
| OffsetMap.MapOffsetWithinReplacement | crates/fresh-core/src/diff.rs:118-140 | for every offset, from the two texts alone: in the longest lead they share it stays, in the longest tail behind that it keeps its distance from the end, anywhere else it goes to the end of the lead |
| OffsetMap.EndsOfReplacement | crates/fresh-core/src/diff.rs:118-140 | the common ends are equal byte for byte, do not overlap on either side, and end on a boundary |
| OffsetMap.WithinIs | crates/fresh-core/src/diff.rs:113-140 | the same of the specification, with lead and tail longest among those that end and start on a character boundary of both texts |
| OffsetMap.PrefixIsLongestLead | crates/fresh-core/src/diff.rs:119-125 | the characters counted from the front are the longest such lead |
| OffsetMap.SuffixIsLongestTail | crates/fresh-core/src/diff.rs:129-135 | the characters counted from the back are the longest such tail behind it |
| OffsetMap.WithinKeepsByte | crates/fresh-core/src/diff.rs:118-140 | in the common ends of a rewritten region, but not at the offset where the common lead ends, an offset stays on the byte it pointed at |
| OffsetMap.WithinKeepsCharIff | crates/fresh-core/src/diff.rs:118-140 | an offset at a character of the common ends stays at that character if and only if it is not the offset where the common lead ends |
| OffsetMap.WithinLeavesChar | crates/fresh-core/src/diff.rs:118-140 | a concrete insertion at the end of the common lead that takes the offset off its character |
| OffsetMap.TextOffsetKeepsOrder | crates/fresh-core/src/diff.rs:74-100 | the mapping is monotone, always in the new text, and takes the end to the end |
| OffsetMap.TextOffsetAnchored | crates/fresh-core/src/diff.rs:56-73 | a byte in no hunk goes to an equal byte |
| OffsetMap.TextOffsetTranslates | crates/fresh-core/src/diff.rs:56-73 | between two hunks the mapping is a translation |
| OffsetMap.TextOffsetInHunk | crates/fresh-core/src/diff.rs:56-73 | an offset in rewritten lines stays in their common lead, keeps its distance from the end in their common tail, and snaps to the end of the lead anywhere else |
| OffsetMap.TextOffsetKeepsBoundary | crates/fresh-core/src/diff.rs:56-73 | every character boundary goes to a character boundary, inside rewritten regions too |
| OffsetMap.TextOffsetIdentity | crates/fresh-core/src/diff.rs:74-100 | unchanged text does not move the cursor |
| ChangedSpans.ChangedSpan | crates/fresh-core/src/diff.rs:509-533 | for all bytes: none exactly for equal lines; else both ranges leave the same lead and tail, the longest that cut no character |
| ChangedSpans.SpanIsSmallest | crates/fresh-core/src/diff.rs:505-533 | the same of the specification |
| ChangedSpans.BodyAndTerminator | crates/fresh-core/src/diff.rs:500-504 | every line is its body and a terminator: nothing, a newline, a carriage return and a newline, or a carriage return alone, and all of it |
| ChangedSpans.BodyIs | crates/fresh-core/src/diff.rs:500-504 | a body put before its terminator comes back, so that an unterminated line is its own body |
| Utf8.EncodingIsWellFormed | crates/fresh-core/src/diff.rs:535-537 | the encoding of every Unicode scalar value by RFC 3629 is a well-formed character, its bytes behind the first continuations |
| Utf8.WellFormedIsEncoding | crates/fresh-core/src/diff.rs:535-537 | and every well-formed character is the encoding of one |
| ChangedSpans.SpanEndsAgree | crates/fresh-core/src/diff.rs:509-533 | a span leaves equal, non-overlapping ends, and covers something unless the lines are equal |
| ChangedSpans.SpanCutsNoCharacter | crates/fresh-core/src/diff.rs:505-533 | on valid UTF-8 the span and both ends of the line are valid UTF-8 |
| ChangedSpans.SpanLeadIsLongest | crates/fresh-core/src/diff.rs:509-533 | no equal lead ending on a boundary of both lines is longer |
| ChangedSpans.SpanTailIsLongest | crates/fresh-core/src/diff.rs:509-533 | no equal tail behind that lead starting on a boundary of both lines is longer |
| CompareTexts.Compare | crates/fresh-core/src/diff.rs:415-462 | for all byte strings: the reported ranges form a script of the two texts, so that the bytes outside agree; each names the lines of its hunk on both sides, with a range for each line and a span or none for each pair; none is reported if and only if the texts are equal; every hunk is marked as line endings only if and only if the line bodies are identical throughout and every hunk has as many lines on both sides |
| CompareTexts.ViewShowsSpans | crates/fresh-core/src/api.rs:729-734 | a paired line has a span on each side, or on neither and then the bodies are equal; the span lies in the line, between equal stretches of text, and on character boundaries where the line is valid |
| CompareTexts.ViewSpansAreSmallest | crates/fresh-core/src/api.rs:729-734 | a reported span is the smallest: it leaves out the longest equal lead and the longest equal tail behind it that cut no character |
| CompareTexts.SideShowsLines | crates/fresh-core/src/api.rs:725-728 | each reported line range reads the line without its terminator |
| CompareTexts.SideJumps | crates/fresh-core/src/api.rs:719-724 | a jump goes to the hunk, or on an empty side to the start of the line before the gap |
| CompareTexts.ViewNamesBytes | crates/fresh-core/src/api.rs:713-718 | from and to bound exactly the bytes of the hunk's lines |
| CompareTexts.EolOnlyIffSameBodies | crates/fresh-core/src/api.rs:747-749 | the mark holds if and only if the two sides have the same bodies |
| CompareTexts.AllEolOnlyIff | crates/fresh-core/src/api.rs:747-749 | of any script of two texts: every hunk is line endings only if and only if the bodies are identical and no hunk changes the number of lines |
| CompareTexts.InPlaceIsBalanced | crates/fresh-core/src/api.rs:747-749 | no hunk changes the number of lines when no line of one text occurs at another place of the other |
| CompareTexts.SwappedEndingsAreNotMarked | crates/fresh-core/src/diff.rs:432-460 | any two lines that differ in their endings only and change places: the bodies are identical and some hunk is not marked |
| CompareTexts.SwappedCrLf | crates/fresh-core/src/diff.rs:432-460 | a concrete pair of such lines |
| CompareTexts.ViewHunk | crates/fresh-core/src/diff.rs:432-460 | one hunk's geometry is the specified one, spans and mark included |
| CompareTexts.MeasureSide | crates/fresh-core/src/diff.rs:476-498 | the byte geometry of one side; the clamp of its index never applies |
| Json.StripNullsFixes | crates/fresh-editor-core/src/config_io.rs:19-39 | the pass leaves a value alone if and only if it has no null and no empty object |
| Json.StripNullsCleans | crates/fresh-editor-core/src/config_io.rs:19-39 | what the pass leaves has neither, at any depth |
| Json.NullItemsLeft | crates/fresh-editor-core/src/config_io.rs:33-36 | of a list the pass leaves, in order, what it leaves of each item, and drops just the items of which nothing is left |
| Json.StripDefaultsFixes | crates/fresh-editor-core/src/config_io.rs:53-96 | with nothing on file the pass leaves a value alone if and only if it is explicit |
| Json.ItemsLeft | crates/fresh-editor-core/src/config_io.rs:82-95 | the same of the second pass, each item against the item on file at the same position |
| Json.ExplicitSurvives | crates/fresh-editor-core/src/config_io.rs:53-96 | explicit values survive whatever the file holds |
| Json.OwnSurvivesIffClean | crates/fresh-editor-core/src/config_io.rs:41-96 | against itself on file a value survives if and only if it is clean: empty strings and arrays the user wrote are kept |
| Json.StrippedIff | crates/fresh-editor-core/src/config_io.rs:19-96 | both passes together keep a value if and only if it survives against what the file holds in its place: no null and no empty object, and an empty string or array (but `args`) only where the file has a value |
| Json.HollowFreeIff | crates/fresh-editor-core/src/config_io.rs:53-96 | what the second pass leaves of a clean value is clean if and only if the pass empties no object it keeps, which is read off the value and the file |
| Pointers.KeysOfText | crates/fresh-editor-core/src/config_io.rs:100-108 | splitting a written pointer gives its keys back |
| Pointers.KeysOfSlashed | crates/fresh-editor-core/src/config_io.rs:100-106 | the slashes in front of a pointer with keys, none or many, make no difference |
| Pointers.KeysOfSlashes | crates/fresh-editor-core/src/config_io.rs:100-106 | without keys, none and one name the root, more of them the key "" |
| Pointers.SetReaches | crates/fresh-editor-core/src/config_io.rs:100-128 | a set is read back at its pointer, or a non-object blocks it and nothing changes |
| Pointers.SetLeaves | crates/fresh-editor-core/src/config_io.rs:100-128 | a set changes nothing at incomparable pointers |
| Pointers.RemoveReaches | crates/fresh-editor-core/src/config_io.rs:131-159 | nothing is left at a removed pointer |
| Pointers.RemoveLeaves | crates/fresh-editor-core/src/config_io.rs:131-159 | a removal changes nothing at incomparable pointers |
| Pointers.RemovesCommute | crates/fresh-editor-core/src/config_io.rs:131-159 | removals commute for all pointers |
| Pointers.SetsCommute | crates/fresh-editor-core/src/config_io.rs:100-128 | sets at incomparable pointers commute, creation of shared intermediate objects and silent no-ops included |
| Pointers.SetChangesNothingIff | crates/fresh-editor-core/src/config_io.rs:100-128 | a set changes nothing if and only if it is blocked or its value is already there |
| Pointers.NestedSetsCommuteIff | crates/fresh-editor-core/src/config_io.rs:100-128 | sets at nested pointers commute if and only if a non-object blocks one of them, in the document or in the outer value, or the outer value already holds the inner one |
| ConfigSave.WrittenAt | crates/fresh-editor-core/src/config_io.rs:169-196 | writing acts path by path: the result at a path depends only on the document and the file at that path |
| ConfigSave.SaveKeepsIffClean | crates/fresh-editor-core/src/config_io.rs:648-672 | the frame of a save: an untouched value is unchanged if and only if it is clean |
| ConfigSave.SaveLosesEmptyObject | crates/fresh-editor-core/src/config_io.rs:648-672 | an empty map of languages is not kept by an empty save |
| ConfigSave.SaveWritesIff | crates/fresh-editor-core/src/config_io.rs:648-672 | a change is read back if and only if no non-object blocks its pointer and its value survives against what the file held there |
| ConfigSave.SaveReplacesIff | crates/fresh-editor-core/src/config_io.rs:648-672 | a change of the whole document is read back if and only if it survives against the file or is the empty object |
| ConfigSave.SaveDropsNewEmptyString | crates/fresh-editor-core/src/config_io.rs:1557-1590 | a concrete change that is not read back |
| ConfigSave.SaveDependsOnOrder | crates/fresh-editor-core/src/config_io.rs:662-664 | two nested pointers that read back differently in the two orders |
| ConfigSave.SaveDeletes | crates/fresh-editor-core/src/config_io.rs:648-672 | a deleted pointer holds nothing after the save |
| ConfigSave.SaveRenamesIff | crates/fresh-editor-core/src/config_io.rs:409-423 | whatever validation admits, a value under the legacy key reappears under the new one if and only if it is explicit |
| ConfigSave.SaveKeepsLegacyFlag | crates/fresh-editor-core/src/config_io.rs:409-423 | where the edited document validates, so that only a boolean or null can stand there, a boolean under the legacy key is kept under the new one and a null is dropped |
| ConfigSave.SaveDropsLegacy | crates/fresh-editor-core/src/config_io.rs:409-423 | the legacy key is gone after every save that does not write it |
| ConfigSave.SaveAgainIff | crates/fresh-editor-core/src/config_io.rs:648-672 | a save without changes leaves a file without the legacy key as it is if and only if the file is clean or the empty object |
| ConfigSave.SaveSettlesIff | crates/fresh-editor-core/src/config_io.rs:648-672 | a second save, without changes, changes nothing if and only if the first empties no object of the edited document where the file holds something, short of the whole document |
| ConfigSave.SaveDoesNotSettle | crates/fresh-editor-core/src/config_io.rs:648-672 | a concrete change after which a second save drops a section |
| ConfigSave.RemovalsAnyOrder | crates/fresh-editor-core/src/config_io.rs:659-661 | the iteration order of the deletions does not matter |
| ConfigSave.ChangesAnyOrder | crates/fresh-editor-core/src/config_io.rs:662-664 | the iteration order of the changes does not matter when no pointer is a prefix of another |
| ConfigSave.SavedAnyOrder | crates/fresh-editor-core/src/config_io.rs:648-672 | hence the saved document does not depend on hash order |
| ConfigDocument.Document.SetJsonPointer | crates/fresh-editor-core/src/config_io.rs:100-128 | the walk down and the writing back compute the specified set |
| ConfigDocument.Document.RemoveJsonPointer | crates/fresh-editor-core/src/config_io.rs:131-159 | the walk down computes the specified removal |
| ConfigDocument.Document.RenameLegacyKeys | crates/fresh-editor-core/src/config_io.rs:414-423 | the new key's own value wins over the legacy one |
| ConfigDocument.SaveChanges | crates/fresh-editor-core/src/config_io.rs:648-672 | the loops compute the specified document; nothing is written when validation of the edited document fails |
| JsonDelta.NoDiffWithSelf | crates/fresh-editor-core/src/config_io.rs:882-933 | every document has an empty delta against itself |
| JsonDelta.DiffIsExactIff | crates/fresh-editor-core/src/config_io.rs:882-933 | overlaying the delta on the defaults gives the document back if and only if it is representable |
| JsonDelta.DiffHasSettingIff | crates/fresh-editor-core/src/config_io.rs:882-933 | of any two documents, representable or not: at any path the delta has a boolean, a number or a non-empty string if and only if the document has it there and the defaults do not |
| JsonDelta.DiffAddsNothing | crates/fresh-editor-core/src/config_io.rs:882-933 | nothing is in the delta at a path where the document has nothing |
| JsonDelta.DiffHasList | crates/fresh-editor-core/src/config_io.rs:911-925 | a list at a path the defaults know is in the delta whole if and only if the defaults have another value there |
| JsonDelta.DiffIsLeast | crates/fresh-editor-core/src/config_io.rs:882-933 | the delta is contained in every delta that gives the document back |
| JsonDelta.EmptyStringIsLost | crates/fresh-editor-core/src/config_io.rs:908-915 | a concrete value the encoding cannot express |
| CstReconcile.ReconcilePreservingComments | crates/fresh-editor-core/src/config_io.rs:213-226 | reconciles exactly when both roots are objects; the tree then has the target value if and only if no repeated name stands in the way |
| CstReconcile.ReconcileObject | crates/fresh-editor-core/src/config_io.rs:232-274 | unwanted properties go; of the wanted ones, in order and with their text, the first of each name is brought to its value and repeated ones are left alone; missing ones follow |
| CstReconcile.PropsKeepOrder | crates/fresh-editor-core/src/config_io.rs:232-274 | all wanted properties, and no others, come first, in their order and with their names and comments; behind them stand only names the object did not have |
| CstReconcile.UpdateProp | crates/fresh-editor-core/src/config_io.rs:253-268 | a property that has its value is not touched, an object is reconciled, anything else is replaced |
| CstReconcile.BecomesHasValueIff | crates/fresh-editor-core/src/config_io.rs:232-274 | a reconciled tree has exactly the target value if and only if, wherever a name is repeated, its last property had the value already |
| CstReconcile.UniqueReaches | crates/fresh-editor-core/src/config_io.rs:232-274 | without repeated names every target is reached |
| CstReconcile.RepeatedNameMisses | crates/fresh-editor-core/src/config_io.rs:251-268 | a concrete object with a repeated name that misses its target |
| CstReconcile.EqualNodesStay | crates/fresh-editor-core/src/config_io.rs:232-274 | wherever, at any depth, the tree already had the wanted value, the node of that value is kept verbatim, all trivia inside it included |
| CstReconcile.EqualPropsStay | crates/fresh-editor-core/src/config_io.rs:232-274 | ... and so is the whole property, with the comment that stands before its name |
| CstReconcile.WantedPropsStay | crates/fresh-editor-core/src/config_io.rs:232-274 | at any depth a property that is still wanted keeps its name and its comment, even where its value changes |
| CstReconcile.WantedObjectsStay | crates/fresh-editor-core/src/config_io.rs:232-274 | at any depth an object that is to stay an object keeps the text inside it |
| CstReconcile.UntouchedIff | crates/fresh-editor-core/src/config_io.rs:228-274 | a tree comes out exactly as it went in if and only if no property goes, none is missing, and the first of each name needs nothing done |
| ConfigFile.SaveFile | crates/fresh-editor-core/src/config_io.rs:161-207 | a whole save of a file: nothing is written when the edited document does not validate; else its tree is reconciled or written afresh, and it has exactly the saved document if and only if no repeated name stands in the way |
| ConfigFile.SaveKeepsComments | crates/fresh-editor-core/src/config_io.rs:161-207 | over a whole save every property the saved document still has keeps its comment, whatever happens to its value |
| ConfigFile.SaveKeepsProps | crates/fresh-editor-core/src/config_io.rs:161-207 | over a whole save an untouched property with a clean value that counts stays verbatim: its comment, its name and its value's text |
| ConfigFile.SaveKeepsPropsIff | crates/fresh-editor-core/src/config_io.rs:161-207 | without repeated names an untouched property stays verbatim if and only if its value is clean |
| ConfigFile.SaveMissesRepeatedName | crates/fresh-editor-core/src/config_io.rs:161-207 | a concrete saved change of a repeated name that is not read back |
| TextProperty.TextPropertyEntry.NormalizeWidths | crates/fresh-core/src/text_property.rs:219-318 | the four steps in place compute the specified entry |
| TextProperty.TextPropertyEntry.ResolveSegments | crates/fresh-core/src/text_property.rs:220-258 | the running cursors place every segment's style and overlays behind the entry's own |
| TextProperty.NormalizedLength | crates/fresh-core/src/text_property.rs:219-318 | the resolved text has exactly max(pad, min(truncate, n)) characters, absent hints ignored |
| TextProperty.NormalizedChars | crates/fresh-core/src/text_property.rs:219-318 | the result is valid UTF-8 and its characters are the fitted ones |
| TextProperty.NormalizedAt | crates/fresh-core/src/text_property.rs:260-296 | the resolved text character by character: the source, three dots where it was cut to more than three, and spaces |
| TextProperty.SegmentsKeepOverlays | crates/fresh-core/src/text_property.rs:220-258 | each nested overlay, in either unit, that lies in the text of a segment truncation leaves whole names the bytes it named in the segment |
| TextProperty.SegmentsKeepStyles | crates/fresh-core/src/text_property.rs:220-258 | the style of a segment that is left whole covers exactly the segment's bytes |
| TextProperty.OverlaysAreKept | crates/fresh-core/src/text_property.rs:219-318 | the resolved entry has its own overlays and one for each style and nested overlay of a segment, and no others |
| TextProperty.OwnOverlaysLead | crates/fresh-core/src/text_property.rs:219-258 | the entry's own overlays come first, in order, Byte overlays as they are |
| TextProperty.NestedOverlayMoves | crates/fresh-core/src/text_property.rs:235-253 | a nested overlay, in range or not, moves by the characters or the bytes of the segments before it, whichever it counts in |
| TextProperty.SegmentsKeepText | crates/fresh-core/src/text_property.rs:220-258 | the text of a segment that is left whole stands at its byte cursor |
| TextProperty.WholeWhenNothingCut | crates/fresh-core/src/text_property.rs:260-284 | every segment is left whole when the text fits the cut |
| TextProperty.CharOverlayLands | crates/fresh-core/src/text_property.rs:219-318 | each Char overlay of the resolved entry, truncated or not, is in range and on character boundaries, over the characters it named as far as the text goes, with its style and properties; an ordered one stays ordered |
| TextProperty.ByteOffsetLandsIff | crates/fresh-core/src/text_property.rs:219-318 | length and character boundaries of the resolved text, from the entry as it was |
| TextProperty.ByteOverlayLandsIff | crates/fresh-core/src/text_property.rs:219-318 | a Byte overlay keeps its offsets; it lies in the text and on boundaries if and only if both offsets are within the fitted length and those below the cut were boundaries before |
| TextProperty.ByteOverlayLeftBehind | crates/fresh-core/src/text_property.rs:260-284 | a concrete Byte overlay that truncation leaves behind the end of the text |
| TextProperty.NormalizedTwiceIff | crates/fresh-core/src/text_property.rs:210-318 | running it twice equals running it once if and only if the entry is not in the unstable case |
| TextProperty.NormalizedOnceIsEnough | crates/fresh-core/src/text_property.rs:210-318 | in particular whenever a hint is absent or the pad does not exceed the cut |
| TextProperty.NormalizedOnceIsNotEnough | crates/fresh-core/src/text_property.rs:210-318 | a concrete entry that a second run changes |
| FileUri.PathToFileUri | crates/fresh-core/src/file_uri.rs:25-125 | a URI if and only if the path is absolute and its components are text, and then the one of its components |
| FileUri.FileUriToPath | crates/fresh-core/src/file_uri.rs:130-157 | the path after `file:///` or `file://localhost/`, nothing for other URIs |
| FileUri.PercentEncodeSegment | crates/fresh-core/src/file_uri.rs:170-185 | appends the encoding byte by byte |
| FileUri.DecodeBytes | crates/fresh-core/src/file_uri.rs:187-203 | the index loop computes the decoding and never reads past the end |
| FileUri.DecodeEncoded | crates/fresh-core/src/file_uri.rs:170-212 | decoding undoes encoding for all bytes and whatever follows |
| FileUri.EscapeIsRead | crates/fresh-core/src/file_uri.rs:187-212 | a percent sign and two hex digits of either case are read as the byte they spell |
| FileUri.OthersAreRead | crates/fresh-core/src/file_uri.rs:187-203 | any other byte, and a percent sign that starts no escape, are read as they are |
| FileUri.EncodedIs | crates/fresh-core/src/file_uri.rs:180-185 | a byte that is no path character is written as a percent sign and two upper-case hex digits |
| FileUri.PathCharIff | crates/fresh-core/src/file_uri.rs:9-20 | the path characters are letters, digits and the marks of the `pchar` rule of RFC 3986 |
| FileUri.RoundTrip | crates/fresh-core/src/file_uri.rs:25-157 | the URI of a path leads back to a path with the same components |
| FileUri.NamesRoundTrip | crates/fresh-core/src/file_uri.rs:25-157 | the path of any names that are text has the URI `file://` with a slash and an encoded name for each, and that URI leads back to the path byte for byte |
| FileUri.NamesBelow | crates/fresh-core/src/file_uri.rs:98-118 | the names a path is written with, all but empty ones, `.` and `..`, are its components in order |
| FileUri.PartAdds | crates/fresh-core/src/file_uri.rs:98-118 | anywhere in a path, `..` adds the parent, an empty part and `.` nothing, and any other part its own name |
| FileUri.AbsoluteIsParts | crates/fresh-core/src/file_uri.rs:25-30 | every absolute path is written by its parts with a slash in front of each |
| FileUri.PathOfUri | crates/fresh-core/src/file_uri.rs:130-157 | `file://localhost/` means what `file:///` means, and no other beginning means anything |
| FileUri.SameUriIffSamePath | crates/fresh-core/src/file_uri.rs:25-125 | two paths have the same URI if and only if they have the same components |
| FileUri.UriIsWellFormed | crates/fresh-core/src/file_uri.rs:8-20 | after `file://` only slashes, path characters and complete escapes |
| CfgText.CfgHolds | scripts/debian.py:118-149 | a plain triple holds if and only if it is the target; a predicate written in any spacing has its meaning, or is an error if and only if some `not` is empty |
| CfgText.LexLayout | scripts/debian.py:123 | cutting any layout of tokens gives the tokens back |
| CfgText.WordStartIff | scripts/debian.py:123 | a word starts with a letter or an underscore |
| CfgText.WordCharIff | scripts/debian.py:123 | it goes on with these and digits; the marks are parentheses, comma and equals sign |
| CfgPredicate.Evaluate | scripts/debian.py:124-149 | on the tokens of any predicate: its meaning, or an error if and only if some `not` is empty |
| CfgPredicate.EvalSpelled | scripts/debian.py:126-147 | whatever follows, exactly the predicate's tokens are consumed and its meaning is returned, optional commas anywhere |
| CfgPredicate.UnclosedIsError | scripts/debian.py:131-137 | a group that breaks off anywhere before its closing parenthesis is an error |
| CfgPredicate.GroupsOfKeys | scripts/debian.py:130-142 | token by token: `all` of any keys holds if and only if every key is set, `any` if and only if some key is, `not` if and only if its key is not |
| CfgPredicate.PairOfWords | scripts/debian.py:143-147 | a key with a value holds if and only if the two, joined by an equals sign, are set |
| CfgPredicate.Evaluator.Predicate | scripts/debian.py:126-147 | the shared cursor ends behind the predicate it evaluated; the run ends on every token list |
| CfgPredicate.Evaluator.ReadValues | scripts/debian.py:131-137 | the loop collects the values of a group and passes its closing parenthesis |

## Left out

- Reading, writing and renaming files, path lookup and the layers of the configuration hierarchy: input and output.
- `PartialConfig`, `Merge` and `Config`: validation of an edited document is a parameter of `SaveChanges`.
- The JSONC parser and printer: a foreign library; the model has the property list operations and opaque trivia.
- CstReconcile.ReconcilePreservingComments: property names that cannot be decoded, and array elements as separate nodes, are not modelled. That the last of several properties of one name counts when a file is read, and that a lookup finds the first, is assumed of the JSONC library, whose source is not part of this model.
- ConfigDocument.Document.SetJsonPointer: the mutable reference that walks down the tree is a spine of values put back together at the end, so aliasing of inner nodes is not captured.
- ConfigDocument.Document.RemoveJsonPointer: the same spine stands for the mutable reference.
- CstReconcile.ReconcileObject: the tree is a value that the loops reassign; update of nodes in place is not captured.
- JSON numbers are integers, because no modelled operation looks inside a number; object keys are unordered.
- Interner.ComputeLineDiff: requires fewer than 2^32 lines in both texts together; beyond that the id cast wraps and ids are no longer injective.
- Interner.LineInterner.Intern: requires fewer than 2^32 ids, the range in which the id cast is exact.
- LineDiff.DiffInternedLines: requires fewer than 2^32 lines per side for the same reason.
- `split_inclusive`, `chars`, `partition_point`, `HashMap`, `Path::components`, `str.strip` and `re.findall` are library operations given as functions.
- Capacity hints and the `needs_conversion` shortcut of `normalize_widths`, which skips a step that would change nothing.
- LineDiff.DiffIsMinimal: the anchor and coarse paths trade minimality for speed by design. With anchors the diff is minimal among the scripts that match them (`DiffIsMinimalAround`); for the coarse path `DiffChangesAtMost` gives an upper bound only.
- FileUri.FileUriToPath: the lossy repair of bytes that are not UTF-8 is a parameter.
- Windows prefixes and `lsp_types::Uri` parsing in `file_uri.rs`: platform and library behaviour.
- Out of scope: migrations of old configuration versions other than the key rename, colour conversion, hooks, commands, menus, and the archive and manifest handling of `debian.py`.
