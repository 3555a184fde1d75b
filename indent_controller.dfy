/** The indent controller: shift-left and shift-right over the lines a
    selection touches, auto-indented line breaks, and the guards that decide
    whether a backward delete removes one unit of indentation. No operation
    changes the buffer; each yields the edit it asks its delegate to apply. */
module Indent {
  import opened TextTypes

  /** Indentation made of tabs, or of runs of `length` spaces. */
  datatype IndentStrategy = Tab(length: int) | Space(length: int)

  /** What the controller asks its delegate for: replace `range` with `text`,
      then, when present, select `selection`. */
  datatype EditRequest = EditRequest(text: string, range: Range, selection: Option<Range>)

  /** A row and column in the document (`LinePosition`). */
  datatype LinePosition = LinePosition(row: int, column: int)

  /** The language mode's decision for a line break (`strategyForInsertingLineBreak`). */
  datatype LineBreakStrategy = LineBreakStrategy(indentLevel: int, insertExtraLineBreak: bool)

  // ---------------------------------------------------------------------------
  // Indent strings
  // ---------------------------------------------------------------------------

  function Repeat(c: char, n: int): (r: string)
    ensures |r| == Max(n, 0)
    ensures forall i :: 0 <= i < |r| ==> r[i] == c
  {
    if n <= 0 then [] else [c] + Repeat(c, n - 1)
  }

  /** The number of characters one indent level adds. */
  function UnitWidth(s: IndentStrategy): nat {
    match s
    case Tab(_) => 1
    case Space(n) => Max(n, 0)
  }

  /** `IndentStrategy.string(indentLevel:)`, whose source is not part of this
      model, taken to be `level` tab characters for a tab strategy and
      `length * level` spaces for a space strategy; empty below level 1. */
  function IndentString(s: IndentStrategy, level: int): (r: string)
    ensures |r| == UnitWidth(s) * Max(level, 0)
    ensures forall i :: 0 <= i < |r| ==> r[i] == (if s.Tab? then '\t' else ' ')
  {
    if level <= 0 then []
    else
      match s
      case Tab(_) => Repeat('\t', level)
      case Space(n) =>
        assert n >= 0 ==> n * level >= 0;
        assert n < 0 ==> n * level < 0;
        Repeat(' ', n * level)
  }

  // ---------------------------------------------------------------------------
  // Lines and their texts
  // ---------------------------------------------------------------------------

  /** `range(surrounding:)`: from the first line's start to the last line's end. */
  function RangeSurrounding(lines: seq<LineNode>): (r: Range)
    requires |lines| > 0
    ensures r.location == lines[0].location
    ensures r.UpperBound() == lines[|lines| - 1].location + lines[|lines| - 1].totalLength
  {
    var firstLine := lines[0];
    var lastLine := lines[|lines| - 1];
    Range(firstLine.location, (lastLine.location - firstLine.location) + lastLine.totalLength)
  }

  /** Each line starts where the previous one ends, as the line index lists them. */
  predicate Contiguous(lines: seq<LineNode>) {
    forall i :: 0 <= i < |lines| - 1 ==> lines[i + 1].location == lines[i].location + lines[i].totalLength
  }

  function TotalLength(lines: seq<LineNode>): int {
    if lines == [] then 0 else TotalLength(lines[..|lines| - 1]) + lines[|lines| - 1].totalLength
  }

  /** Over contiguous lines the surrounding range is exactly as long as the
      lines together, and it covers every one of them. */
  lemma {:induction false} SurroundingRangeSpansLines(lines: seq<LineNode>)
    requires |lines| > 0 && Contiguous(lines)
    ensures RangeSurrounding(lines).length == TotalLength(lines)
    ensures forall i :: 0 <= i < |lines| ==>
      RangeSurrounding(lines).location <= lines[i].location &&
      lines[i].location + lines[i].totalLength <= RangeSurrounding(lines).UpperBound()
  {
    if |lines| > 1 {
      var init := lines[..|lines| - 1];
      assert Contiguous(init);
      SurroundingRangeSpansLines(init);
      assert init[|init| - 1] == lines[|lines| - 2];
    }
  }

  /** The text of a line as the controller reads it: empty when slicing fails. */
  function LineText(substring: Range -> Option<string>, line: LineNode): string {
    substring(line.TotalRange()).GetOr("")
  }

  function LineTexts(lines: seq<LineNode>, substring: Range -> Option<string>): seq<string> {
    seq(|lines|, i requires 0 <= i < |lines| => LineText(substring, lines[i]))
  }

  function Concat(ts: seq<string>): string {
    if ts == [] then [] else Concat(ts[..|ts| - 1]) + ts[|ts| - 1]
  }

  /** Swift's `hasPrefix`. */
  predicate HasPrefix(t: string, p: string) {
    |p| <= |t| && t[..|p|] == p
  }

  function IndentAll(ts: seq<string>, indent: string): seq<string> {
    seq(|ts|, i requires 0 <= i < |ts| => indent + ts[i])
  }

  /** One line's text after shift-left: one indent removed from its front when
      it begins with one, otherwise unchanged. */
  function Unindent(t: string, indent: string): string {
    if HasPrefix(t, indent) then t[|indent|..] else t
  }

  function UnindentAll(ts: seq<string>, indent: string): seq<string> {
    seq(|ts|, i requires 0 <= i < |ts| => Unindent(ts[i], indent))
  }

  function PrefixFlags(ts: seq<string>, indent: string): seq<bool> {
    seq(|ts|, i requires 0 <= i < |ts| => HasPrefix(ts[i], indent))
  }

  function CountTrue(bs: seq<bool>): nat {
    if bs == [] then 0 else CountTrue(bs[..|bs| - 1]) + (if bs[|bs| - 1] then 1 else 0)
  }

  // ---------------------------------------------------------------------------
  // Selections
  // ---------------------------------------------------------------------------

  /** The selection after shift-right over `n` lines with an indent `k` long:
      the location moves by one indent, the length grows by one for every
      line after the first. */
  function ShiftRightSelection(sel: Range, k: int, n: nat): Range {
    Range(sel.location + k, sel.length + k * (n - 1))
  }

  /** One more line after the first lengthens the shift-right selection by one indent. */
  lemma ShiftRightSelectionStep(sel: Range, k: int, n: nat)
    requires n >= 1
    ensures ShiftRightSelection(sel, k, n + 1) ==
      Range(ShiftRightSelection(sel, k, n).location, ShiftRightSelection(sel, k, n).length + k)
  {
    assert k * n == k * (n - 1) + k;
  }

  /** Shift-left's adjustment for a first line that begins with the indent:
      the location moves back one indent but not before the line's start,
      and a move cut short shortens the selection by the shortfall, not
      below 0. */
  function FirstLineShiftLeft(sel: Range, firstLocation: int, k: int): Range {
    var preferredLocation := sel.location - k;
    var newLocation := Max(preferredLocation, firstLocation);
    if newLocation > preferredLocation then
      Range(newLocation, Max(sel.length - (newLocation - preferredLocation), 0))
    else
      Range(newLocation, sel.length)
  }

  /** The selection shift-left has computed after visiting lines whose
      "begins with the indent" flags are `prefixed`: an unprefixed line leaves
      it alone, the first line is adjusted by FirstLineShiftLeft, every later
      prefixed line shortens it by one indent with no clamp. */
  function ShiftLeftSelection(sel: Range, firstLocation: int, k: int, prefixed: seq<bool>): Range {
    if prefixed == [] then sel
    else
      var before := ShiftLeftSelection(sel, firstLocation, k, prefixed[..|prefixed| - 1]);
      if !prefixed[|prefixed| - 1] then before
      else if |prefixed| == 1 then FirstLineShiftLeft(before, firstLocation, k)
      else Range(before.location, before.length - k)
  }

  /** Only the first line moves the selection's location, which never goes
      before the first line's start; each later line that begins with the
      indent shortens the selection by exactly one indent. */
  lemma {:induction false} ShiftLeftSelectionClosedForm(sel: Range, firstLocation: int, k: int, prefixed: seq<bool>)
    requires |prefixed| > 0
    ensures var first := if prefixed[0] then FirstLineShiftLeft(sel, firstLocation, k) else sel;
      ShiftLeftSelection(sel, firstLocation, k, prefixed) ==
        Range(first.location, first.length - k * CountTrue(prefixed[1..]))
    ensures sel.location >= firstLocation ==> ShiftLeftSelection(sel, firstLocation, k, prefixed).location >= firstLocation
  {
    var n := |prefixed|;
    if n > 1 {
      var init := prefixed[..n - 1];
      ShiftLeftSelectionClosedForm(sel, firstLocation, k, init);
      assert init[0] == prefixed[0];
      assert prefixed[1..][..n - 2] == init[1..];
      assert prefixed[1..][n - 2] == prefixed[n - 1];
      var c := CountTrue(init[1..]);
      assert CountTrue(prefixed[1..]) == c + (if prefixed[n - 1] then 1 else 0);
      assert k * (c + 1) == k * c + k;
    } else {
      assert prefixed[1..] == [];
      assert prefixed[..0] == [];
    }
  }

  /** Shift-left undoes shift-right: every shifted line begins with the
      indent, so shift-left strips exactly the indent that was added, and the
      selection is restored whenever it started in the first line. */
  lemma ShiftLeftUndoesShiftRight(ts: seq<string>, indent: string, sel: Range, firstLocation: int)
    requires |ts| > 0 && sel.location >= firstLocation
    ensures UnindentAll(IndentAll(ts, indent), indent) == ts
    ensures Concat(UnindentAll(IndentAll(ts, indent), indent)) == Concat(ts)
    ensures ShiftLeftSelection(ShiftRightSelection(sel, |indent|, |ts|), firstLocation, |indent|,
                               PrefixFlags(IndentAll(ts, indent), indent)) == sel
  {
    var shifted := IndentAll(ts, indent);
    forall i | 0 <= i < |ts|
      ensures Unindent(shifted[i], indent) == ts[i]
    {
      assert shifted[i][..|indent|] == indent;
      assert shifted[i][|indent|..] == ts[i];
    }
    var flags := PrefixFlags(shifted, indent);
    forall i | 0 <= i < |ts|
      ensures flags[i]
    {
      assert shifted[i][..|indent|] == indent;
    }
    AllTrueCount(flags[1..]);
    ShiftLeftSelectionClosedForm(ShiftRightSelection(sel, |indent|, |ts|), firstLocation, |indent|, flags);
  }

  lemma {:induction false} AllTrueCount(bs: seq<bool>)
    requires forall i :: 0 <= i < |bs| ==> bs[i]
    ensures CountTrue(bs) == |bs|
  {
    if bs != [] {
      AllTrueCount(bs[..|bs| - 1]);
    }
  }

  /** Shift-right over the lines "a\n" and "bb" with a two-space indent and
      a selection covering both: every line gains the indent, the selection
      starts two later and is two longer. */
  lemma ShiftRightTwoLines()
    ensures var lines := [LineNode(0, 0, 2), LineNode(1, 2, 2)];
            var substring := (r: Range) => if r.location == 0 then Some("a\n") else Some("bb");
            var indent := IndentString(Space(2), 1);
            && Concat(IndentAll(LineTexts(lines, substring), indent)) == "  a\n  bb"
            && RangeSurrounding(lines) == Range(0, 4)
            && ShiftRightSelection(Range(0, 4), |indent|, |lines|) == Range(2, 6)
  {
    var lines := [LineNode(0, 0, 2), LineNode(1, 2, 2)];
    var substring := (r: Range) => if r.location == 0 then Some("a\n") else Some("bb");
    var indent := IndentString(Space(2), 1);
    assert indent == "  ";
    assert LineTexts(lines, substring) == ["a\n", "bb"];
    var shifted := IndentAll(["a\n", "bb"], indent);
    assert shifted[0] == "  " + "a\n" == "  a\n";
    assert shifted[1] == "  " + "bb" == "  bb";
    assert shifted == ["  a\n", "  bb"];
    assert shifted[..1] == ["  a\n"];
    assert ["  a\n"][..0] == [];
  }

  /** Over the lines "ab\n" at 0 and "    x" at 3 with a four-space indent,
      a selection starting at 2 and three long (ending inside the second
      line's indentation) gets a negative length from shift-left. */
  lemma ShiftLeftSelectionCanTurnNegative()
    ensures var lines := [LineNode(0, 0, 3), LineNode(1, 3, 5)];
            var substring := (r: Range) => if r.location == 0 then Some("ab\n") else Some("    x");
            var indent := IndentString(Space(4), 1);
            ShiftLeftSelection(Range(2, 3), lines[0].location, |indent|, PrefixFlags(LineTexts(lines, substring), indent))
              == Range(2, -1)
  {
    var lines := [LineNode(0, 0, 3), LineNode(1, 3, 5)];
    var substring := (r: Range) => if r.location == 0 then Some("ab\n") else Some("    x");
    var indent := IndentString(Space(4), 1);
    assert indent == "    ";
    var texts := LineTexts(lines, substring);
    assert texts == ["ab\n", "    x"];
    var flags := PrefixFlags(texts, indent);
    assert !HasPrefix("ab\n", indent);
    assert "    x"[..4] == "    ";
    assert flags == [false, true];
    assert flags[..1] == [false];
    assert [false][..0] == [];
  }

  /** The evidently intended shift-left selection: as ShiftLeftSelection,
      except that a later prefixed line shortens the selection only by the
      part of its indent the original selection reaches into. */
  function ShiftLeftSelectionCorrected(sel: Range, lines: seq<LineNode>, k: int, prefixed: seq<bool>): Range
    requires 0 < |lines| && |prefixed| <= |lines|
  {
    if prefixed == [] then sel
    else
      var n := |prefixed|;
      var before := ShiftLeftSelectionCorrected(sel, lines, k, prefixed[..n - 1]);
      if !prefixed[n - 1] then before
      else if n == 1 then FirstLineShiftLeft(before, lines[0].location, k)
      else Range(before.location, before.length - Min(k, Max(0, sel.UpperBound() - lines[n - 1].location)))
  }

  /** One more visited line: the corrected selection after `i + 1` lines is
      the one after `i` lines, adjusted for line `i` alone. */
  lemma ShiftLeftSelectionStep(sel: Range, lines: seq<LineNode>, k: int, prefixed: seq<bool>, i: nat)
    requires i < |prefixed| <= |lines|
    ensures var before := ShiftLeftSelectionCorrected(sel, lines, k, prefixed[..i]);
      ShiftLeftSelectionCorrected(sel, lines, k, prefixed[..i + 1]) ==
        if !prefixed[i] then before
        else if i == 0 then FirstLineShiftLeft(before, lines[0].location, k)
        else Range(before.location, before.length - Min(k, Max(0, sel.UpperBound() - lines[i].location)))
  {
    assert prefixed[..i + 1][..i] == prefixed[..i];
  }

  /** After the first `n` lines the corrected length still covers the part of
      the original selection that lies in the lines not yet visited. */
  lemma {:induction false} CorrectedSelectionCoversRest(sel: Range, lines: seq<LineNode>, k: int, prefixed: seq<bool>, n: nat)
    requires 0 < n <= |prefixed| == |lines|
    requires k >= 0 && sel.length >= 0 && Contiguous(lines)
    requires lines[0].location <= sel.location <= lines[0].location + lines[0].totalLength
    requires forall i :: 0 <= i < |lines| && prefixed[i] ==> k <= lines[i].totalLength
    ensures var r := ShiftLeftSelectionCorrected(sel, lines, k, prefixed[..n]);
      r.length >= (if n < |lines| then Max(0, sel.UpperBound() - lines[n].location) else 0)
  {
    var p := prefixed[..n];
    assert p[..n - 1] == prefixed[..n - 1];
    if n > 1 {
      CorrectedSelectionCoversRest(sel, lines, k, prefixed, n - 1);
    } else {
      assert p[..0] == [];
    }
  }

  /** With the correction, the selection length never becomes negative. */
  lemma CorrectedShiftLeftSelectionNonNegative(sel: Range, lines: seq<LineNode>, k: int, prefixed: seq<bool>)
    requires 0 < |prefixed| == |lines|
    requires k >= 0 && sel.length >= 0 && Contiguous(lines)
    requires lines[0].location <= sel.location <= lines[0].location + lines[0].totalLength
    requires forall i :: 0 <= i < |lines| && prefixed[i] ==> k <= lines[i].totalLength
    ensures ShiftLeftSelectionCorrected(sel, lines, k, prefixed).length >= 0
  {
    CorrectedSelectionCoversRest(sel, lines, k, prefixed, |prefixed|);
    assert prefixed[..|prefixed|] == prefixed;
  }

  /** The correction changes nothing when the selection reaches past the
      indent of every later line that begins with one. */
  lemma {:induction false} CorrectionAgreesPastIndents(sel: Range, lines: seq<LineNode>, k: int, prefixed: seq<bool>)
    requires 0 < |lines| && |prefixed| <= |lines| && k >= 0
    requires forall i :: 1 <= i < |prefixed| && prefixed[i] ==> lines[i].location + k <= sel.UpperBound()
    ensures ShiftLeftSelectionCorrected(sel, lines, k, prefixed) == ShiftLeftSelection(sel, lines[0].location, k, prefixed)
  {
    if prefixed != [] {
      var init := prefixed[..|prefixed| - 1];
      forall i | 1 <= i < |init| && init[i]
        ensures lines[i].location + k <= sel.UpperBound()
      {
        assert prefixed[i] == init[i];
      }
      CorrectionAgreesPastIndents(sel, lines, k, init);
    }
  }

  /** The correction only touches the length: the location is the one the
      code as written computes. */
  lemma {:induction false} CorrectionKeepsLocation(sel: Range, lines: seq<LineNode>, k: int, prefixed: seq<bool>)
    requires 0 < |lines| && |prefixed| <= |lines|
    ensures ShiftLeftSelectionCorrected(sel, lines, k, prefixed).location
         == ShiftLeftSelection(sel, lines[0].location, k, prefixed).location
  {
    if prefixed != [] {
      CorrectionKeepsLocation(sel, lines, k, prefixed[..|prefixed| - 1]);
    }
  }

  /** Shift-left with the correction still undoes shift-right, when the
      shifted selection reaches past the indent of every later shifted line
      (`shiftedLines` are the lines after shift-right). */
  lemma CorrectedShiftLeftUndoesShiftRight(ts: seq<string>, indent: string, sel: Range, shiftedLines: seq<LineNode>)
    requires 0 < |ts| == |shiftedLines| && sel.location >= shiftedLines[0].location
    requires forall i :: 1 <= i < |ts| ==>
      shiftedLines[i].location + |indent| <= ShiftRightSelection(sel, |indent|, |ts|).UpperBound()
    ensures ShiftLeftSelectionCorrected(ShiftRightSelection(sel, |indent|, |ts|), shiftedLines, |indent|,
                                        PrefixFlags(IndentAll(ts, indent), indent)) == sel
  {
    ShiftLeftUndoesShiftRight(ts, indent, sel, shiftedLines[0].location);
    CorrectionAgreesPastIndents(ShiftRightSelection(sel, |indent|, |ts|), shiftedLines, |indent|,
                                PrefixFlags(IndentAll(ts, indent), indent));
  }

  // ---------------------------------------------------------------------------
  // The operations
  // ---------------------------------------------------------------------------

  /** `shiftRight(in:)` over `lines`, the lines the selection touches:
      replaces their whole span with every line's text behind one indent. */
  method ShiftRight(strategy: IndentStrategy, lines: seq<LineNode>, selectedRange: Range, substring: Range -> Option<string>)
    returns (edit: Option<EditRequest>)
    requires |lines| > 0
    ensures var indent := IndentString(strategy, 1);
      edit == Some(EditRequest(
        Concat(IndentAll(LineTexts(lines, substring), indent)),
        RangeSurrounding(lines),
        Some(ShiftRightSelection(selectedRange, |indent|, |lines|))))
  {
    var originalRange := RangeSurrounding(lines);
    var newSelectedRange := selectedRange;
    var replacementString: Option<string> := None;
    var indentString := IndentString(strategy, 1);
    var indentLength := |indentString|;
    ghost var pieces := IndentAll(LineTexts(lines, substring), indentString);
    var lineIndex := 0;
    while lineIndex < |lines|
      invariant 0 <= lineIndex <= |lines|
      invariant replacementString == if lineIndex == 0 then None else Some(Concat(pieces[..lineIndex]))
      invariant newSelectedRange ==
        if lineIndex == 0 then selectedRange else ShiftRightSelection(selectedRange, indentLength, lineIndex)
    {
      var line := lines[lineIndex];
      var lineString := substring(line.TotalRange()).GetOr("");
      assert pieces[..lineIndex + 1][..lineIndex] == pieces[..lineIndex];
      assert pieces[lineIndex] == indentString + lineString;
      assert Concat(pieces[..lineIndex + 1]) == Concat(pieces[..lineIndex]) + pieces[lineIndex];
      ConcatAssociative(replacementString.GetOr(""), indentString, lineString);
      replacementString := Some(replacementString.GetOr("") + indentString + lineString);
      if lineIndex == 0 {
        newSelectedRange := newSelectedRange.(location := newSelectedRange.location + indentLength);
      } else {
        ShiftRightSelectionStep(selectedRange, indentLength, lineIndex);
        newSelectedRange := newSelectedRange.(length := newSelectedRange.length + indentLength);
      }
      lineIndex := lineIndex + 1;
    }
    assert pieces[..|lines|] == pieces;
    if replacementString.Some? {
      edit := Some(EditRequest(replacementString.value, originalRange, Some(newSelectedRange)));
    } else {
      edit := None;
    }
  }

  /** One pass of `shiftLeft`'s loop, for line `lineIndex` whose text is
      `lineString`: appends the line without its leading indent (or verbatim
      when it has none) and moves the selection as the corrected shift-left
      selection prescribes for one more line. */
  method ShiftLineLeft(
    lines: seq<LineNode>, lineIndex: nat, selectedRange: Range, originalRange: Range,
    indentString: string, lineString: string,
    replacementString: Option<string>, newSelectedRange: Range, ghost prefixed: seq<bool>)
    returns (replacement: Option<string>, selection: Range)
    requires lineIndex < |prefixed| <= |lines|
    requires originalRange.location == lines[0].location
    requires prefixed[lineIndex] == HasPrefix(lineString, indentString)
    requires newSelectedRange == ShiftLeftSelectionCorrected(selectedRange, lines, |indentString|, prefixed[..lineIndex])
    ensures replacement == Some(replacementString.GetOr("") + Unindent(lineString, indentString))
    ensures selection == ShiftLeftSelectionCorrected(selectedRange, lines, |indentString|, prefixed[..lineIndex + 1])
  {
    var indentLength := |indentString|;
    ShiftLeftSelectionStep(selectedRange, lines, indentLength, prefixed, lineIndex);
    selection := newSelectedRange;
    if !HasPrefix(lineString, indentString) {
      replacement := Some(replacementString.GetOr("") + lineString);
    } else {
      replacement := Some(replacementString.GetOr("") + lineString[indentLength..]);
      if lineIndex == 0 {
        var preferredLocation := selection.location - indentLength;
        var newLocation := Max(preferredLocation, originalRange.location);
        selection := selection.(location := newLocation);
        if newLocation > preferredLocation {
          var preferredLength := selection.length - (newLocation - preferredLocation);
          selection := selection.(length := Max(preferredLength, 0));
        }
      } else {
        var coveredIndentLength := Min(indentLength, Max(0, selectedRange.UpperBound() - lines[lineIndex].location));
        selection := selection.(length := selection.length - coveredIndentLength);
      }
    }
  }

  /** `shiftLeft(in:)` over `lines`, the lines the selection touches:
      replaces their whole span with every line's text, one indent removed
      from the lines that begin with one and the others copied verbatim. The
      selection is the corrected one: a later line shortens it only by the
      part of its indent the selection covers. */
  method ShiftLeft(strategy: IndentStrategy, lines: seq<LineNode>, selectedRange: Range, substring: Range -> Option<string>)
    returns (edit: Option<EditRequest>)
    requires |lines| > 0
    ensures var indent := IndentString(strategy, 1);
      var texts := LineTexts(lines, substring);
      edit == Some(EditRequest(
        Concat(UnindentAll(texts, indent)),
        RangeSurrounding(lines),
        Some(ShiftLeftSelectionCorrected(selectedRange, lines, |indent|, PrefixFlags(texts, indent)))))
  {
    var originalRange := RangeSurrounding(lines);
    var newSelectedRange := selectedRange;
    var replacementString: Option<string> := None;
    var indentString := IndentString(strategy, 1);
    var indentLength := |indentString|;
    ghost var texts := LineTexts(lines, substring);
    ghost var pieces := UnindentAll(texts, indentString);
    ghost var flags := PrefixFlags(texts, indentString);
    var lineIndex := 0;
    while lineIndex < |lines|
      invariant 0 <= lineIndex <= |lines|
      invariant replacementString == if lineIndex == 0 then None else Some(Concat(pieces[..lineIndex]))
      invariant newSelectedRange == ShiftLeftSelectionCorrected(selectedRange, lines, indentLength, flags[..lineIndex])
    {
      var line := lines[lineIndex];
      var lineString := substring(line.TotalRange()).GetOr("");
      assert pieces[..lineIndex + 1][..lineIndex] == pieces[..lineIndex];
      assert lineString == texts[lineIndex];
      assert Concat(pieces[..lineIndex + 1]) == Concat(pieces[..lineIndex]) + pieces[lineIndex];
      assert flags[lineIndex] == HasPrefix(lineString, indentString);
      replacementString, newSelectedRange :=
        ShiftLineLeft(lines, lineIndex, selectedRange, originalRange, indentString, lineString,
                      replacementString, newSelectedRange, flags);
      lineIndex := lineIndex + 1;
    }
    assert pieces[..|lines|] == pieces;
    assert flags[..|lines|] == flags;
    if replacementString.Some? {
      edit := Some(EditRequest(replacementString.value, originalRange, Some(newSelectedRange)));
    } else {
      edit := None;
    }
  }

  /** `insertLineBreak(in:using:)`. `startPosition` and `endPosition` are the
      line positions of the range's bounds (absent when the lookup fails);
      `policy` is the language mode's line-break decision. */
  function InsertLineBreak(
    strategy: IndentStrategy, range: Range, symbol: string,
    startPosition: Option<LinePosition>, endPosition: Option<LinePosition>,
    policy: (LinePosition, LinePosition) -> LineBreakStrategy): (r: EditRequest)
    ensures r.range == range
    ensures startPosition.None? || endPosition.None? ==> r == EditRequest(symbol, range, None)
    ensures startPosition.Some? && endPosition.Some? ==>
      var decision := policy(startPosition.value, endPosition.value);
      var firstLineText := symbol + IndentString(strategy, decision.indentLevel);
      if decision.insertExtraLineBreak then
        && r.text == firstLineText + symbol + IndentString(strategy, decision.indentLevel - 1)
        && r.selection == Some(Range(range.location + |firstLineText|, 0))
      else
        r.text == firstLineText && r.selection == None
  {
    if startPosition.None? || endPosition.None? then
      EditRequest(symbol, range, None)
    else
      var decision := policy(startPosition.value, endPosition.value);
      if decision.insertExtraLineBreak then
        var firstLineText := symbol + IndentString(strategy, decision.indentLevel);
        var secondLineText := symbol + IndentString(strategy, decision.indentLevel - 1);
        EditRequest(firstLineText + secondLineText, range, Some(Range(range.location + |firstLineText|, 0)))
      else
        EditRequest(symbol + IndentString(strategy, decision.indentLevel), range, None)
  }

  /** With an extra line break, the caret lands at the end of the first
      inserted line, inside the inserted text, and what follows it is the
      second line break with one level less; with a space indent of width w
      at level L >= 1 the insertion is 2 * |symbol| + w * (2 * L - 1) long. */
  lemma LineBreakCaretOnInnerLine(
    strategy: IndentStrategy, range: Range, symbol: string,
    startPosition: LinePosition, endPosition: LinePosition,
    policy: (LinePosition, LinePosition) -> LineBreakStrategy)
    requires policy(startPosition, endPosition).insertExtraLineBreak
    ensures var r := InsertLineBreak(strategy, range, symbol, Some(startPosition), Some(endPosition), policy);
      var level := policy(startPosition, endPosition).indentLevel;
      var caret := r.selection.value.location - range.location;
      && (0 < |symbol| ==> 0 < caret)
      && caret <= |r.text|
      && r.text[..caret] == symbol + IndentString(strategy, level)
      && r.text[caret..] == symbol + IndentString(strategy, level - 1)
      && (level >= 1 ==> |r.text| == 2 * |symbol| + UnitWidth(strategy) * (2 * level - 1))
  {
    var level := policy(startPosition, endPosition).indentLevel;
    var r := InsertLineBreak(strategy, range, symbol, Some(startPosition), Some(endPosition), policy);
    var first := symbol + IndentString(strategy, level);
    var second := symbol + IndentString(strategy, level - 1);
    assert r.text == first + second;
    assert r.selection.value.location - range.location == |first|;
    assert (first + second)[..|first|] == first;
    assert (first + second)[|first|..] == second;
    if level >= 1 {
      TwoLevelsWidth(strategy, level);
    }
  }

  /** An indent at level L followed by one at level L - 1 is 2 * L - 1 units wide. */
  lemma TwoLevelsWidth(strategy: IndentStrategy, level: int)
    requires level >= 1
    ensures |IndentString(strategy, level)| + |IndentString(strategy, level - 1)| == UnitWidth(strategy) * (2 * level - 1)
  {
    var w := UnitWidth(strategy);
    assert w * level + w * (level - 1) == w * (2 * level - 1);
  }

  /** The width `indentRangeInFrontOfLocation` deletes by: 1 for tabs. */
  function TabLength(s: IndentStrategy): int {
    match s
    case Tab(_) => 1
    case Space(n) => n
  }

  /** `indentRangeInFrontOfLocation`: `line` is the line containing
      `location` (absent when the lookup fails), `indentLevelOf` the language
      mode's current indent level of a line. The one input the source traps
      on, a remainder by 0, is excluded. Dafny's `%` is Euclidean and Swift's
      truncates, but the two agree on whether the remainder is 0. */
  function IndentRangeInFrontOfLocation(
    location: int, line: Option<LineNode>, strategy: IndentStrategy, indentLevelOf: LineNode -> int): (r: Option<Range>)
    requires strategy == Space(0) && line.Some? ==> location != line.value.location
    ensures r.Some? <==>
      && line.Some?
      && var localLocation := location - line.value.location;
         && TabLength(strategy) <= localLocation <= |IndentString(strategy, indentLevelOf(line.value))|
         && localLocation % TabLength(strategy) == 0
    ensures r.Some? ==> r.value == Range(location - TabLength(strategy), TabLength(strategy))
  {
    if line.None? then None
    else
      var tabLength := TabLength(strategy);
      var localLocation := location - line.value.location;
      if localLocation < tabLength then None
      else
        var indentString := IndentString(strategy, indentLevelOf(line.value));
        if localLocation > |indentString| then None
        else if localLocation % tabLength != 0 then None
        else Some(Range(location - tabLength, tabLength))
  }

  /** `isIndentation(at:)`: the location lies within the leading indentation
      of its line, its end included. */
  function IsIndentation(location: int, line: Option<LineNode>, strategy: IndentStrategy, indentLevelOf: LineNode -> int): (b: bool)
    ensures b <==> line.Some? && 0 <= location - line.value.location <= |IndentString(strategy, indentLevelOf(line.value))|
  {
    if line.None? then false
    else
      var localLocation := location - line.value.location;
      if localLocation < 0 then false
      else
        var indentString := IndentString(strategy, indentLevelOf(line.value));
        localLocation <= |indentString|
  }

  /** A range to delete backward is only ever offered at an indentation
      position; it ends at the location and does not reach before the line's
      start, and for a space strategy at most as many ranges fit before the
      location as the line has indent levels. */
  lemma IndentRangeLiesInIndentation(location: int, line: Option<LineNode>, strategy: IndentStrategy, indentLevelOf: LineNode -> int)
    requires TabLength(strategy) > 0
    requires IndentRangeInFrontOfLocation(location, line, strategy, indentLevelOf).Some?
    ensures IsIndentation(location, line, strategy, indentLevelOf)
    ensures var r := IndentRangeInFrontOfLocation(location, line, strategy, indentLevelOf).value;
      && line.value.location <= r.location
      && r.UpperBound() == location
      && (location - line.value.location) / TabLength(strategy) <= Max(indentLevelOf(line.value), 0)
  {
    var level := Max(indentLevelOf(line.value), 0);
    var local := location - line.value.location;
    var w := TabLength(strategy);
    assert local <= UnitWidth(strategy) * level;
    assert UnitWidth(strategy) == w;
    DivBound(local, w, level);
  }

  lemma DivBound(a: int, w: int, m: int)
    requires w > 0 && 0 <= a <= w * m
    ensures a / w <= m
  {
  }
}
