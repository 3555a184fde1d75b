# Runestone text engine: line controller, indent controller, highlighted ranges

A Dafny model of three parts of Runestone's text engine.

- **Line controller** (`line_controller.dfy`, module `LineControl`). It owns one logical line's derived state: the five invalidation flags and their cascade in `prepareString`, and the fragment tree that `updateLineHeight` reconciles with newly typeset fragments. It also owns the memoised line-height estimate, the lookup of the fragment closest to a y-position with the location derived from it, and the completion of an asynchronous syntax highlight.
- **Indent controller** (`indent_controller.dfy`, module `Indent`). It covers shift-left and shift-right over the lines a selection touches, line-break insertion with auto-indent, and the checks that decide whether a backward delete removes one indent unit. The shift and line-break operations return the edit they would ask the delegate to apply, as an `EditRequest`. The two backward-delete checks return the range to delete and a boolean.
- **Highlighted-range service** (`highlight_service.dfy`, module `Highlight`). It splits the highlighted document ranges into line-local pieces and builds a per-line map of them. It clips those pieces further, lazily and memoised per line fragment, and tracks whether each piece holds the true start or end of its range.

`text_types.dfy` (module `TextTypes`) holds the shared values:
- `Option`;
- `Range`, an NSRange-like pair of signed integers with `CappedTo` (intersection) and `LocalTo`;
- `LineNode`;
- `LineFragment`.

Each class whose modelled operations update its fields is a Dafny `class`:
- `LineControl.LineController`;
- `Highlight.HighlightedRangeService`.

These loops of the source are `while` loops, proved against specification functions:
- `updateLineHeight` against `Reconciled`;
- `lineFragment(closestTo:)` against `ClosestFragmentIndex`;
- `shiftLeft` and `shiftRight` against `UnindentAll`/`ShiftLeftSelectionCorrected` and `IndentAll`/`ShiftRightSelection`;
- `createHighlightedRangeFragmentsPerLine` against `PiecesForLine`.

The loop of `reapplyLineFragmentToLineFragmentControllers` is the map comprehension in `Reapplied`.

The properties are proved as lemmas about those functions.

External collaborators become parameters:
- The string view's substring becomes `substring`.
- The line manager's lookups become `lines`, `linesIn`, the optional `line`, and the optional line positions.
- The language mode's decisions become `policy` and `indentLevelOf`.
- The syntax highlighter's `canHighlight` and the result of an asynchronous highlight become the parameters `canHighlight` and `succeeded`.
- The typesetter's best-guess fragment count and the fragments it yields become `bestGuess` and `newFragments`.
- CoreText's string index at a point becomes `stringIndexAt`.

Assumptions where the source is not part of this model:
- `IndentStrategy.string(indentLevel:)` is taken to give `level` tabs, or `length * level` spaces, and the empty string below level 1.
- A fragment-tree node's recorded height is taken to be the stored fragment's scaled height, and 0 for the placeholder.
- The typesetter passed to `init` is taken to have produced nothing yet: no text and no fragments.
- A typesetting pass yields fragments with consecutive indices, the first at most the tree's node count, because a pass continues where the previous one stopped. `ConsecutiveFragmentsPlaceable` shows that such fragments meet `updateLineHeight`'s precondition.
- The estimated line height and the line-height multiplier are fixed when the controller is created and stay so for its lifetime. The source reads both afresh on each call.

## Model

| member | source | states |
|---|---|---|
| TextTypes.Range.CappedTo | Sources/Runestone/TextView/Highlight/HighlightService.swift:48 | The capped range holds exactly the offsets common to both ranges and starts at the larger lower bound. For overlapping ranges it is non-empty and ends at the smaller upper bound. |
| TextTypes.Range.LocalTo | Sources/Runestone/TextView/Highlight/HighlightService.swift:49 | The local range keeps the length and holds x exactly when the original holds the parent's start plus x. |
| LineControl.PlaceEffect | Sources/Runestone/Core/LineController/LineController.swift:292-317 | A fragment whose index is below the node count overwrites that node only. The cached height is cleared exactly when the new height differs from the recorded one. Any other fragment is inserted right after the previous node, or after the node at index-1 when there is none, shifting the later nodes back by one, and always clears the cached height. The touched node becomes the previous one. |
| LineControl.Reconciled | Sources/Runestone/Core/LineController/LineController.swift:290-319 | Placing fragments never shrinks the tree. The result is absent when some fragment reaches for a node that does not exist, where the source would trap. |
| LineControl.ConsecutiveFragmentsPlaceable | Sources/Runestone/Core/LineController/LineController.swift:290-319 | Fragments with consecutive indices, starting at most at the node count, can all be placed without a missing node. Afterwards the previous node is the last fragment's, and the tree has grown exactly to cover the new indices. |
| LineControl.ConsecutiveFragmentsReconcile | Sources/Runestone/Core/LineController/LineController.swift:290-319 | After such fragments are placed, each fragment's index holds that fragment and every node outside the fragments' indices is unchanged. |
| LineControl.KnownHeightOfUniform | Sources/Runestone/Core/LineController/LineController.swift:39 | The summed height of n fragments of equal height h is n·h. |
| LineControl.UniformLineHeight | Sources/Runestone/Core/LineController/LineController.swift:31-47 | When every typeset fragment measures the estimated height, the estimate is the expected count times that height. |
| LineControl.FirstReaching | Sources/Runestone/Core/LineController/LineController.swift:378-384 | Every fragment before the result ends above y, and the result, if in range, reaches down to y. |
| LineControl.ClosestFragmentIndex | Sources/Runestone/Core/LineController/LineController.swift:376-386 | The result is the first fragment reaching down to y, or the last fragment when none does; all earlier fragments end above y. |
| LineControl.ClosestFragmentIndexUnique | Sources/Runestone/Core/LineController/LineController.swift:376-386 | Those three properties determine the chosen index uniquely. |
| LineControl.FragmentWithId | Sources/Runestone/Core/LineController/LineController.swift:358 | A found fragment is among the fragments and has the requested identity. None means no fragment has that identity. |
| LineControl.Reapplied | Sources/Runestone/Core/LineController/LineController.swift:355-362 | Reapplying keeps the set of cached controllers and each controller's fragment identity. A controller whose fragment identity the typesetter still has now shows one of the typesetter's fragments; every other controller is left as it was. |
| LineControl.LineController.constructor | Sources/Runestone/Core/LineController/LineController.swift:62-69 | All five flags start set, with no cached height, no controllers, a one-placeholder tree, and a typesetter with no text and no fragments. |
| LineControl.LineController.InvalidateString | Sources/Runestone/Core/LineController/LineController.swift:93-95 | A string-view change sets the string flag and nothing else. |
| LineControl.LineController.InvalidateSyntaxHighlighting | Sources/Runestone/Core/LineController/LineController.swift:125-128 | Sets the default-attributes and syntax flags and nothing else. |
| LineControl.LineController.PrepareString | Sources/Runestone/Core/LineController/LineController.swift:198-205 | After the five stages the fragment-cache, string, default-attributes and typesetter flags are clear. The syntax flag stays set exactly when an asynchronous highlight was launched. The outcome depends on the old flags: whether controllers are cleared, whether the string is re-sliced, and whether the tree and typesetter are reset. The cached height is untouched. |
| LineControl.LineController.ClearLineFragmentControllersIfNeeded | Sources/Runestone/Core/LineController/LineController.swift:207-212 | Clears the controller cache and the flag when the flag is set; otherwise changes nothing. |
| LineControl.LineController.UpdateStringIfNeeded | Sources/Runestone/Core/LineController/LineController.swift:214-227 | Re-slices the string, which is absent when slicing fails, and re-dirties the three later stages. |
| LineControl.LineController.UpdateDefaultAttributesIfNeeded | Sources/Runestone/Core/LineController/LineController.swift:229-239 | Clears its flag and re-dirties the syntax and typesetter stages. |
| LineControl.LineController.UpdateSyntaxHighlightingIfNeeded | Sources/Runestone/Core/LineController/LineController.swift:262-288 | Without a grammar or a string, only the flag is cleared. A synchronous highlight clears it and re-dirties the typesetter. An asynchronous one leaves it set and reports the launch. |
| LineControl.LineController.UpdateTypesetterIfNeeded | Sources/Runestone/Core/LineController/LineController.swift:251-260 | Resets the tree to one placeholder and the typesetter to the current string, then clears the flag. |
| LineControl.LineController.HighlightCompleted | Sources/Runestone/Core/LineController/LineController.swift:275-281 | A failed highlight changes nothing. A successful one clears the syntax flag, resets and re-reconciles the fragments, drops the cached height and reapplies fragments to the controllers. |
| LineControl.LineController.RedisplayLineFragments | Sources/Runestone/Core/LineController/LineController.swift:344-353 | The typesetter is reset and holds the new fragments. The tree is their reconciliation against a fresh placeholder tree, the cached height is absent, and the other flags are unchanged. |
| LineControl.LineController.ReapplyLineFragmentToLineFragmentControllers | Sources/Runestone/Core/LineController/LineController.swift:355-362 | Each controller shows the typesetter's current fragment with its identity, when one exists. |
| LineControl.LineController.UpdateLineHeight | Sources/Runestone/Core/LineController/LineController.swift:290-319 | The loop leaves the tree as the successive placements define it. The cached height is cleared exactly when some placement calls for it. |
| LineControl.LineController.PlaceFragment | Sources/Runestone/Core/LineController/LineController.swift:293-316 | One pass of the loop leaves the tree and the previous node as one placement defines them. The cached height is cleared exactly when that placement calls for it and is otherwise kept. |
| LineControl.LineController.LineHeight | Sources/Runestone/Core/LineController/LineController.swift:31-47 | Returns the cached height when there is one. Otherwise it returns and caches one estimated fragment height when nothing is typeset, or the known heights plus an estimate for each expected fragment not yet typeset. |
| LineControl.LineController.LineFragmentClosestTo | Sources/Runestone/Core/LineController/LineController.swift:376-386 | Returns nothing for an untypeset line, otherwise the fragment ClosestFragmentIndex picks. |
| LineControl.LineController.LocationClosestTo | Sources/Runestone/Core/LineController/LineController.swift:188-194 | Returns the line start when nothing is typeset, otherwise the line start plus the fragment's string index capped at the line length. It never lies past the line's end. |
| Indent.IndentString | Sources/Runestone/TextView/Indent/IndentController.swift:78 | The indent for a level has unit width × level characters (none below level 1), all tabs or all spaces. |
| Indent.RangeSurrounding | Sources/Runestone/TextView/Indent/IndentController.swift:203-209 | The range starts at the first line and ends at the end of the last line. |
| Indent.SurroundingRangeSpansLines | Sources/Runestone/TextView/Indent/IndentController.swift:203-209 | Over contiguous lines, the surrounding range is as long as the lines together and covers every line. |
| Indent.ShiftRight | Sources/Runestone/TextView/Indent/IndentController.swift:112-133 | The edit replaces the whole span of the lines with every line's text behind one indent. The selection moves one indent later and grows by one indent per line after the first. |
| Indent.ShiftLeft | Sources/Runestone/TextView/Indent/IndentController.swift:73-110 | The edit replaces the whole span with every line's text, minus one indent where the line begins with it and verbatim otherwise. The selection is the corrected one (see Findings): the first line's clamp is as in the source, and a later line takes off only the part of its indent the selection covers. |
| Indent.ShiftLineLeft | Sources/Runestone/TextView/Indent/IndentController.swift:82-104 | One pass of the loop appends the line without its leading indent, or verbatim when it has none. The selection moves as the corrected shift-left selection prescribes for one more line. |
| Indent.ShiftLeftSelectionClosedForm | Sources/Runestone/TextView/Indent/IndentController.swift:91-104 | For the selection as written, only the first line moves the selection's location, which never precedes the first line's start. Each later prefixed line shortens it by exactly one indent. |
| Indent.ShiftLeftUndoesShiftRight | Sources/Runestone/TextView/Indent/IndentController.swift:73-133 | The code as written: shift-left after shift-right restores every line's text and the selection, for a selection starting in the first line. |
| Indent.CorrectedShiftLeftUndoesShiftRight | Sources/Runestone/TextView/Indent/IndentController.swift:73-133 | The corrected shift-left still restores the selection after shift-right, when the shifted selection reaches past every later line's indent. |
| Indent.CorrectionKeepsLocation | Sources/Runestone/TextView/Indent/IndentController.swift:91-104 | The correction changes only the length; the location is the one the code as written computes. |
| Indent.ShiftRightTwoLines | Sources/Runestone/TextView/Indent/IndentController.swift:112-133 | Over "a\n" and "bb" with a two-space indent, the replacement is "  a\n  bb" and the selection (0, 4) becomes (2, 6). |
| Indent.ShiftLeftSelectionCanTurnNegative | Sources/Runestone/TextView/Indent/IndentController.swift:102-104 | As written, shift-left gives the selection (2, 3) over "ab\n" and "    x" with a four-space indent the length -1. |
| Indent.CorrectedSelectionCoversRest | Sources/Runestone/TextView/Indent/IndentController.swift:91-104 | After each line, the corrected length still covers the part of the selection in the lines not yet visited. |
| Indent.CorrectedShiftLeftSelectionNonNegative | Sources/Runestone/TextView/Indent/IndentController.swift:102-104 | With the correction, the selection length is never negative. |
| Indent.CorrectionAgreesPastIndents | Sources/Runestone/TextView/Indent/IndentController.swift:102-104 | The correction changes nothing when the selection reaches past every later prefixed line's indent. |
| Indent.InsertLineBreak | Sources/Runestone/TextView/Indent/IndentController.swift:135-158 | A failed position lookup inserts the bare symbol. Otherwise the edit inserts the symbol with the policy's indent, plus a second line one level shallower with the caret between them when the policy asks for an extra line break. The range is always the given one. |
| Indent.LineBreakCaretOnInnerLine | Sources/Runestone/TextView/Indent/IndentController.swift:145-153 | With an extra line break, the caret lies inside the inserted text, at the end of the first inserted line. The next line break and the shallower indent follow it, with the total length as the levels dictate. |
| Indent.IndentRangeInFrontOfLocation | Sources/Runestone/TextView/Indent/IndentController.swift:162-186 | A range is returned exactly when the line is found and the local offset is at least one unit, within the line's indentation and a multiple of the unit. The range is the unit just before the location. |
| Indent.IsIndentation | Sources/Runestone/TextView/Indent/IndentController.swift:188-199 | True exactly when the line is found and the local offset lies between 0 and the indentation's length, inclusive. |
| Indent.IndentRangeLiesInIndentation | Sources/Runestone/TextView/Indent/IndentController.swift:162-199 | An offered delete range sits at an indentation position, ends at the location and does not reach before the line start. At most as many units fit as the line has indent levels. |
| Highlight.LinePiece | Sources/Runestone/TextView/Highlight/HighlightService.swift:44-58 | The piece is non-empty, lies in the line, and holds exactly the line-local offsets of the range. Its start flag is set exactly when the line holds the range's start, and the same for its end flag. Its colour and corner radius are copied. |
| Highlight.PiecesForLineAppend | Sources/Runestone/TextView/Highlight/HighlightService.swift:41-65 | A line's pieces follow the order of the ranges. |
| Highlight.PiecesInExactly | Sources/Runestone/TextView/Highlight/HighlightService.swift:42-64 | A range's pieces for a line id come exactly from the visited lines with that id that the range overlaps. |
| Highlight.PiecesForLineExactly | Sources/Runestone/TextView/Highlight/HighlightService.swift:39-67 | A line's entry holds exactly the pieces of the positive-length ranges on the reported lines with that id. |
| Highlight.FragmentPiece | Sources/Runestone/TextView/Highlight/HighlightService.swift:77-89 | The clipped piece is non-empty and holds exactly the offsets common to the piece and the fragment. A flag survives only if the fragment also holds that end of the piece. |
| Highlight.FragmentPieces | Sources/Runestone/TextView/Highlight/HighlightService.swift:76-90 | Keeps at most as many pieces as given, each non-empty and inside the fragment's range. |
| Highlight.FragmentPiecesExactly | Sources/Runestone/TextView/Highlight/HighlightService.swift:76-90 | Every clipped piece comes from a given piece that overlaps the fragment, and every such piece yields its clipped piece: pieces that miss the fragment are dropped and none that meets it is lost. |
| Highlight.FragmentPiecesAppend | Sources/Runestone/TextView/Highlight/HighlightService.swift:76-90 | The clipping preserves the order of the pieces. |
| Highlight.TwoLevelClipping | Sources/Runestone/TextView/Highlight/HighlightService.swift:48-82 | Clipping to the line and then to a fragment equals clipping straight to the fragment's document span. The surviving flags say exactly whether the fragment holds the range's first or last offset. |
| Highlight.HighlightedRangeService.constructor | Sources/Runestone/TextView/Highlight/HighlightService.swift:6-19 | The service starts with no ranges and empty caches. |
| Highlight.HighlightedRangeService.CreateHighlightedRangeFragmentsPerLine | Sources/Runestone/TextView/Highlight/HighlightService.swift:39-67 | A line has an entry exactly when some range leaves a piece on it, and the entry lists those pieces in order. |
| Highlight.HighlightedRangeService.InvalidateHighlightedRangeFragments | Sources/Runestone/TextView/Highlight/HighlightService.swift:31-35 | The fragment cache is emptied and the per-line map is rebuilt from the current ranges. |
| Highlight.HighlightedRangeService.SetHighlightedRanges | Sources/Runestone/TextView/Highlight/HighlightService.swift:6-11 | Setting an equal value keeps both caches. Any other value empties the fragment cache and rebuilds the per-line map. |
| Highlight.HighlightedRangeService.CreateHighlightedLineFragments | Sources/Runestone/TextView/Highlight/HighlightService.swift:69-91 | A line with no entry yields nothing. Otherwise the result holds exactly the line's pieces that overlap the fragment, each clipped to it, and no more pieces than the line has. |
| Highlight.HighlightedRangeService.HighlightedRangeFragments | Sources/Runestone/TextView/Highlight/HighlightService.swift:21-29 | A fragment seen before gets its stored answer, whatever line is passed, and nothing changes. Otherwise the answer is computed, stored under the fragment's identity and returned. |

## Left out

- Geometry built on CoreText and CoreGraphics is not modelled: `caretRect`, `firstRect(for:)`, `lineWidth` and the `lineFragmentControllers(in:)` rectangle query. The string index CoreText reports for a point becomes the parameter `stringIndexAt`.
- `prepareToDisplayString` is not modelled as one operation. It composes `prepareString` with the typesetter's incremental typesetting, which is not part of this model, and then `updateLineHeight`; both of those are modelled.
- The syntax highlighter's cancellation, threading and `weak self` capture are not modelled. The asynchronous completion is `HighlightCompleted`, taken to arrive while the controller is alive.
- The fragment tree's red-black structure and its subtree height sums are not modelled. The tree is an ordered sequence of nodes and `previousNode` is an index into it. That index is exact because inserts happen only right after it.
- Attributes are not modelled: default string attributes, the paragraph style with its tab width, and the highlighter's colouring. The attributed string is plain text.
- `setNeedsDisplayOnLineFragmentViews` and other view work are not modelled.
- The indent controller's memoised `tabWidth` (`_tabWidth`) is not modelled: it measures the font's rendering of spaces, which is font geometry. The modelled indent operations never update a field, so `IndentController` is a set of functions and methods rather than a class.
- Convergence of the line-height estimate is not stated: the estimate equals the sum of the measured heights once the typesetter's best-guess count equals its fragment count, and whether and when that happens is a property of the typesetter, which is not part of this model. `UniformLineHeight` is the line-height property proved.
- Fixed-width integers are not modelled: Swift's `Int` is 64-bit and traps on overflow, whereas the model's `int` is unbounded. Examples are the selection arithmetic of the shift operations and `line.location + localLocation` in `location(closestTo:)`.
- Floating point is not modelled: heights are reals, and the epsilon comparison of heights in `updateLineHeight` is exact inequality.
- Combine subscriptions are not modelled. A change of the string view is the call `InvalidateString`. The line manager's current value is passed in as `linesIn`.
- Delegate calls are not modelled as such. A nil delegate swallows an edit, whereas the model always returns it.
- LineControl.LineController.UpdateLineHeight: requires `Reconcilable`. An input that fails it makes the tree look up a node that does not exist, which traps in the source. The same holds for HighlightCompleted and RedisplayLineFragments, which require it of the new fragments against a placeholder tree, and for PlaceFragment, which requires `CanPlace`.
- Indent.ShiftLeft: requires at least one touched line, because `range(surrounding:)` traps on an empty line list. The same holds for Indent.ShiftRight.
- Indent.ShiftLeft: computes the corrected selection of the Findings table, not the one the code produces. The code's selection is `ShiftLeftSelection`.
- Indent.ShiftLeft: a model `char` stands for one Swift `Character` and counts as one UTF-16 unit. So the indent's Character count (`utf8IndentLength`, which is `indentString.count`) and its UTF-16 length coincide, and `hasPrefix` compares characters one by one. Grapheme clusters are not modelled: a leading space followed by a combining mark is one `Character` in Swift.
- Indent.ShiftLineLeft: carries the corrected adjustment for a later line that begins with the indent, shortening the selection only by the part of the indent it covers, where the source subtracts the whole indent (see Findings). The code as written is `ShiftLeftSelection`.
- Indent.InsertLineBreak: measures the caret offset as `|firstLineText|` in characters, where the source counts UTF-16 units. The two agree because a character counts as one UTF-16 unit throughout the model.
- Indent.IndentRangeInFrontOfLocation: excludes the one input that traps, a space width of 0 with the location at the line's start, where the remainder by 0 is reached.

## Findings

| source | as written | input that shows it | evidently intended | confidence | as-written member | corrected member |
|---|---|---|---|---|---|---|
| Sources/Runestone/TextView/Indent/IndentController.swift:102-104 | Every later line that begins with the indent shortens the selection by a whole indent, with no clamp. | Lines "ab\n" at 0 and "    x" at 3, a four-space indent, selection (2, 3) ending inside the second line's indent: the new selection is (2, -1). | A later line shortens the selection only by the part of its indent the selection covers, so the length never goes below 0. | not executed | Indent.ShiftLeftSelectionCanTurnNegative | Indent.CorrectedShiftLeftSelectionNonNegative |
