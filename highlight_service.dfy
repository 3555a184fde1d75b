/** The highlighted-range service: splits every highlighted document range
    into line-local pieces, one per line it overlaps, and lazily splits those
    further into pieces per line fragment, remembering for each piece whether
    it holds the true start or end of the range it came from. */
module Highlight {
  import opened TextTypes

  /** A range the host asks to decorate, compared by value. */
  datatype HighlightedRange = HighlightedRange(id: string, range: Range, color: int, cornerRadius: real)

  /** A piece of a highlighted range clipped to a line (line-local range) or
      to a line fragment; the flags say whether the piece holds the true
      start and end of the original range. */
  datatype HighlightedRangeFragment = HighlightedRangeFragment(
    range: Range,
    containsStart: bool,
    containsEnd: bool,
    color: int,
    cornerRadius: real)

  // ---------------------------------------------------------------------------
  // Clipping to a line
  // ---------------------------------------------------------------------------

  /** The piece of `h` on `line`, in line-local offsets. */
  function LinePiece(h: HighlightedRange, line: LineNode): (p: HighlightedRangeFragment)
    requires h.range.Overlaps(line.TotalRange())
    ensures p.range.length > 0 && 0 <= p.range.location && p.range.UpperBound() <= line.totalLength
    ensures forall x :: p.range.Contains(x) <==> 0 <= x < line.totalLength && h.range.Contains(line.location + x)
    ensures p.containsStart <==> line.location <= h.range.location
    ensures p.containsEnd <==> h.range.UpperBound() <= line.location + line.totalLength
    ensures p.color == h.color && p.cornerRadius == h.cornerRadius
  {
    var lineRange := line.TotalRange();
    var cappedRange := h.range.CappedTo(lineRange);
    var cappedLocalRange := cappedRange.LocalTo(lineRange);
    assert forall x :: cappedLocalRange.Contains(x) <==> cappedRange.Contains(line.location + x);
    HighlightedRangeFragment(
      cappedLocalRange,
      cappedRange.LowerBound() == h.range.LowerBound(),
      cappedRange.UpperBound() == h.range.UpperBound(),
      h.color,
      h.cornerRadius)
  }

  /** The pieces `h` contributes to line `id` while the loop visits `lines`,
      the lines the line manager reports for `h`'s range, in that order. */
  function PiecesIn(h: HighlightedRange, lines: seq<LineNode>, id: int): seq<HighlightedRangeFragment> {
    if lines == [] then []
    else
      var line := lines[|lines| - 1];
      PiecesIn(h, lines[..|lines| - 1], id)
        + (if line.id == id && h.range.Overlaps(line.TotalRange()) then [LinePiece(h, line)] else [])
  }

  /** The entry the rebuild leaves for line `id`: the pieces of every range
      of positive length, in the order of the ranges. `linesIn` is the line
      manager's `lines(in:)`. */
  function PiecesForLine(ranges: seq<HighlightedRange>, linesIn: Range -> seq<LineNode>, id: int): seq<HighlightedRangeFragment> {
    if ranges == [] then []
    else
      var h := ranges[|ranges| - 1];
      PiecesForLine(ranges[..|ranges| - 1], linesIn, id)
        + (if h.range.length > 0 then PiecesIn(h, linesIn(h.range), id) else [])
  }

  /** The pieces of a line follow the order of the ranges: the entry for a
      concatenation of range lists is the concatenation of their entries. */
  lemma {:induction false} PiecesForLineAppend(a: seq<HighlightedRange>, b: seq<HighlightedRange>, linesIn: Range -> seq<LineNode>, id: int)
    ensures PiecesForLine(a + b, linesIn, id) == PiecesForLine(a, linesIn, id) + PiecesForLine(b, linesIn, id)
  {
    if b == [] {
      assert a + b == a;
    } else {
      var b' := b[..|b| - 1];
      assert (a + b)[..|a + b| - 1] == a + b';
      assert (a + b)[|a + b| - 1] == b[|b| - 1];
      PiecesForLineAppend(a, b', linesIn, id);
      var h := b[|b| - 1];
      ConcatAssociative(PiecesForLine(a, linesIn, id), PiecesForLine(b', linesIn, id),
        if h.range.length > 0 then PiecesIn(h, linesIn(h.range), id) else []);
    }
  }

  /** Every piece `h` leaves for line `id` comes from a visited line with
      that id which `h` overlaps; and every such line yields its piece. */
  lemma {:induction false} PiecesInExactly(h: HighlightedRange, lines: seq<LineNode>, id: int)
    ensures forall p :: p in PiecesIn(h, lines, id) ==>
      exists line :: line in lines && line.id == id && h.range.Overlaps(line.TotalRange()) && p == LinePiece(h, line)
    ensures forall line :: line in lines && line.id == id && h.range.Overlaps(line.TotalRange()) ==>
      LinePiece(h, line) in PiecesIn(h, lines, id)
  {
    if lines != [] {
      var init := lines[..|lines| - 1];
      PiecesInExactly(h, init, id);
      assert forall line :: line in lines ==> line in init || line == lines[|lines| - 1];
      assert forall line :: line in init ==> line in lines;
    }
  }

  /** The entry for line `id` holds exactly the pieces of the ranges of
      positive length on the lines with that id the line manager reports
      for them. */
  lemma {:induction false} PiecesForLineExactly(ranges: seq<HighlightedRange>, linesIn: Range -> seq<LineNode>, id: int)
    ensures forall p :: p in PiecesForLine(ranges, linesIn, id) ==>
      exists h, line :: h in ranges && h.range.length > 0 && line in linesIn(h.range) && line.id == id
        && h.range.Overlaps(line.TotalRange()) && p == LinePiece(h, line)
    ensures forall h, line ::
      (h in ranges && h.range.length > 0 && line in linesIn(h.range) && line.id == id && h.range.Overlaps(line.TotalRange()))
        ==> LinePiece(h, line) in PiecesForLine(ranges, linesIn, id)
  {
    if ranges != [] {
      var init := ranges[..|ranges| - 1];
      var last := ranges[|ranges| - 1];
      PiecesForLineExactly(init, linesIn, id);
      PiecesInExactly(last, linesIn(last.range), id);
      assert forall h :: h in ranges ==> h in init || h == last;
      assert forall h :: h in init ==> h in ranges;
    }
  }

  // ---------------------------------------------------------------------------
  // Clipping to a line fragment
  // ---------------------------------------------------------------------------

  /** A line piece clipped to a fragment's line-local range; a flag survives
      only when the fragment also holds that end of the piece. */
  function FragmentPiece(p: HighlightedRangeFragment, fragmentRange: Range): (q: HighlightedRangeFragment)
    requires p.range.Overlaps(fragmentRange)
    ensures q.range.length > 0
    ensures forall x :: q.range.Contains(x) <==> p.range.Contains(x) && fragmentRange.Contains(x)
    ensures q.containsStart <==> p.containsStart && fragmentRange.location <= p.range.location
    ensures q.containsEnd <==> p.containsEnd && p.range.UpperBound() <= fragmentRange.UpperBound()
    ensures q.color == p.color && q.cornerRadius == p.cornerRadius
  {
    var cappedRange := p.range.CappedTo(fragmentRange);
    HighlightedRangeFragment(
      cappedRange,
      p.containsStart && cappedRange.LowerBound() == p.range.LowerBound(),
      p.containsEnd && cappedRange.UpperBound() == p.range.UpperBound(),
      p.color,
      p.cornerRadius)
  }

  /** The compactMap over a line's pieces: the pieces overlapping the
      fragment, clipped to it, in their original order. */
  function FragmentPieces(ps: seq<HighlightedRangeFragment>, fragmentRange: Range): (r: seq<HighlightedRangeFragment>)
    ensures |r| <= |ps|
    ensures forall i :: 0 <= i < |r| ==>
      && r[i].range.length > 0
      && fragmentRange.location <= r[i].range.location
      && r[i].range.UpperBound() <= fragmentRange.UpperBound()
  {
    if ps == [] then []
    else
      var p := ps[|ps| - 1];
      FragmentPieces(ps[..|ps| - 1], fragmentRange)
        + (if p.range.Overlaps(fragmentRange) then [FragmentPiece(p, fragmentRange)] else [])
  }

  /** Clipping keeps the order of the pieces: it maps a concatenation to the
      concatenation of the clipped parts. */
  lemma {:induction false} FragmentPiecesAppend(a: seq<HighlightedRangeFragment>, b: seq<HighlightedRangeFragment>, fragmentRange: Range)
    ensures FragmentPieces(a + b, fragmentRange) == FragmentPieces(a, fragmentRange) + FragmentPieces(b, fragmentRange)
  {
    if b == [] {
      assert a + b == a;
    } else {
      var b' := b[..|b| - 1];
      assert (a + b)[..|a + b| - 1] == a + b';
      assert (a + b)[|a + b| - 1] == b[|b| - 1];
      FragmentPiecesAppend(a, b', fragmentRange);
    }
  }

  /** Every clipped piece comes from a piece overlapping the fragment, and
      every piece overlapping the fragment yields its clipped piece. */
  lemma {:induction false} FragmentPiecesExactly(ps: seq<HighlightedRangeFragment>, fragmentRange: Range)
    ensures forall q :: q in FragmentPieces(ps, fragmentRange) ==>
      exists p :: p in ps && p.range.Overlaps(fragmentRange) && q == FragmentPiece(p, fragmentRange)
    ensures forall p :: p in ps && p.range.Overlaps(fragmentRange) ==>
      FragmentPiece(p, fragmentRange) in FragmentPieces(ps, fragmentRange)
  {
    if ps != [] {
      var init := ps[..|ps| - 1];
      FragmentPiecesExactly(init, fragmentRange);
      assert forall p :: p in ps ==> p in init || p == ps[|ps| - 1];
      assert forall p :: p in init ==> p in ps;
    }
  }

  /** Clipping to the line and then to the fragment is clipping straight to
      the fragment's span in the document, and the surviving flags say
      exactly whether the fragment holds the range's first or last offset,
      which is what decides the rounded corners. */
  lemma TwoLevelClipping(h: HighlightedRange, line: LineNode, fragmentRange: Range)
    requires h.range.Overlaps(line.TotalRange())
    requires 0 <= fragmentRange.location && fragmentRange.UpperBound() <= line.totalLength
    ensures var span := Range(line.location + fragmentRange.location, fragmentRange.length);
      LinePiece(h, line).range.Overlaps(fragmentRange) <==> h.range.Overlaps(span)
    ensures var span := Range(line.location + fragmentRange.location, fragmentRange.length);
      var p := LinePiece(h, line);
      p.range.Overlaps(fragmentRange) ==>
        var q := FragmentPiece(p, fragmentRange);
        && q.range == h.range.CappedTo(span).LocalTo(line.TotalRange())
        && (q.containsStart <==> span.Contains(h.range.location))
        && (q.containsEnd <==> span.Contains(h.range.UpperBound() - 1))
  {
  }

  // ---------------------------------------------------------------------------
  // The service
  // ---------------------------------------------------------------------------

  /** The map holds the entries a rebuild over `ranges` produces. */
  ghost predicate BuiltFrom(m: map<int, seq<HighlightedRangeFragment>>, ranges: seq<HighlightedRange>, linesIn: Range -> seq<LineNode>) {
    forall id ::
      && (id in m ==> m[id] == PiecesForLine(ranges, linesIn, id) && m[id] != [])
      && (id !in m ==> PiecesForLine(ranges, linesIn, id) == [])
  }

  /** The map holds the entries of a rebuild over `ranges` followed by the
      pieces `h` leaves on the first `j` of `lines`. */
  ghost predicate BuiltPartly(
    m: map<int, seq<HighlightedRangeFragment>>, ranges: seq<HighlightedRange>, linesIn: Range -> seq<LineNode>,
    h: HighlightedRange, lines: seq<LineNode>, j: nat)
    requires j <= |lines|
  {
    forall id ::
      && (id in m ==> m[id] == PiecesForLine(ranges, linesIn, id) + PiecesIn(h, lines[..j], id) && m[id] != [])
      && (id !in m ==> PiecesForLine(ranges, linesIn, id) + PiecesIn(h, lines[..j], id) == [])
  }

  lemma StartRange(m: map<int, seq<HighlightedRangeFragment>>, ranges: seq<HighlightedRange>, linesIn: Range -> seq<LineNode>,
    h: HighlightedRange, lines: seq<LineNode>)
    requires BuiltFrom(m, ranges, linesIn)
    ensures BuiltPartly(m, ranges, linesIn, h, lines, 0)
  {
    assert lines[..0] == [];
  }

  lemma StepLine(m: map<int, seq<HighlightedRangeFragment>>, ranges: seq<HighlightedRange>, linesIn: Range -> seq<LineNode>,
    h: HighlightedRange, lines: seq<LineNode>, j: nat)
    requires j < |lines| && BuiltPartly(m, ranges, linesIn, h, lines, j)
    ensures var line := lines[j];
      BuiltPartly(
        if h.range.Overlaps(line.TotalRange()) then
          m[line.id := if line.id in m then m[line.id] + [LinePiece(h, line)] else [LinePiece(h, line)]]
        else m,
        ranges, linesIn, h, lines, j + 1)
  {
    assert lines[..j + 1][..j] == lines[..j];
  }

  lemma FinishRange(m: map<int, seq<HighlightedRangeFragment>>, ranges: seq<HighlightedRange>, linesIn: Range -> seq<LineNode>, i: nat)
    requires i < |ranges|
    requires ranges[i].range.length > 0 ==>
      BuiltPartly(m, ranges[..i], linesIn, ranges[i], linesIn(ranges[i].range), |linesIn(ranges[i].range)|)
    requires ranges[i].range.length <= 0 ==> BuiltFrom(m, ranges[..i], linesIn)
    ensures BuiltFrom(m, ranges[..i + 1], linesIn)
  {
    assert ranges[..i + 1][..i] == ranges[..i];
    var lines := linesIn(ranges[i].range);
    assert lines[..|lines|] == lines;
  }

  class HighlightedRangeService {
    var highlightedRanges: seq<HighlightedRange>
    var highlightedRangeFragmentsPerLine: map<int, seq<HighlightedRangeFragment>>
    var highlightedRangeFragmentsPerLineFragment: map<int, seq<HighlightedRangeFragment>>

    constructor()
      ensures highlightedRanges == []
      ensures highlightedRangeFragmentsPerLine == map[]
      ensures highlightedRangeFragmentsPerLineFragment == map[]
    {
      highlightedRanges := [];
      highlightedRangeFragmentsPerLine := map[];
      highlightedRangeFragmentsPerLineFragment := map[];
    }

    /** The per-line entries are those of a rebuild over the current ranges
        with the line manager's `linesIn`. */
    ghost predicate PerLineMatches(linesIn: Range -> seq<LineNode>)
      reads this
    {
      forall id ::
        && (id in highlightedRangeFragmentsPerLine <==> PiecesForLine(highlightedRanges, linesIn, id) != [])
        && (id in highlightedRangeFragmentsPerLine ==>
              highlightedRangeFragmentsPerLine[id] == PiecesForLine(highlightedRanges, linesIn, id))
    }

    /** `createHighlightedRangeFragmentsPerLine`: a line has an entry exactly
        when some range leaves a piece on it, and the entry lists those
        pieces in order. */
    method CreateHighlightedRangeFragmentsPerLine(linesIn: Range -> seq<LineNode>)
      returns (result: map<int, seq<HighlightedRangeFragment>>)
      ensures forall id :: id in result <==> PiecesForLine(highlightedRanges, linesIn, id) != []
      ensures forall id :: id in result ==> result[id] == PiecesForLine(highlightedRanges, linesIn, id)
    {
      result := map[];
      var ranges := highlightedRanges;
      var rangeIndex := 0;
      while rangeIndex < |ranges|
        invariant 0 <= rangeIndex <= |ranges|
        invariant BuiltFrom(result, ranges[..rangeIndex], linesIn)
      {
        var highlightedRange := ranges[rangeIndex];
        if highlightedRange.range.length > 0 {
          var lines := linesIn(highlightedRange.range);
          StartRange(result, ranges[..rangeIndex], linesIn, highlightedRange, lines);
          var lineIndex := 0;
          while lineIndex < |lines|
            invariant 0 <= lineIndex <= |lines|
            invariant BuiltPartly(result, ranges[..rangeIndex], linesIn, highlightedRange, lines, lineIndex)
          {
            var line := lines[lineIndex];
            StepLine(result, ranges[..rangeIndex], linesIn, highlightedRange, lines, lineIndex);
            var lineRange := line.TotalRange();
            if highlightedRange.range.Overlaps(lineRange) {
              var highlightedRangeFragment := LinePiece(highlightedRange, line);
              if line.id in result {
                result := result[line.id := result[line.id] + [highlightedRangeFragment]];
              } else {
                result := result[line.id := [highlightedRangeFragment]];
              }
            }
            lineIndex := lineIndex + 1;
          }
        }
        FinishRange(result, ranges, linesIn, rangeIndex);
        rangeIndex := rangeIndex + 1;
      }
      assert ranges[..|ranges|] == ranges;
    }

    /** `invalidateHighlightedRangeFragments`: both caches are dropped and the
        per-line entries are rebuilt from the current ranges. */
    method InvalidateHighlightedRangeFragments(linesIn: Range -> seq<LineNode>)
      modifies this
      ensures highlightedRanges == old(highlightedRanges)
      ensures highlightedRangeFragmentsPerLineFragment == map[]
      ensures PerLineMatches(linesIn)
    {
      highlightedRangeFragmentsPerLine := map[];
      highlightedRangeFragmentsPerLineFragment := map[];
      highlightedRangeFragmentsPerLine := CreateHighlightedRangeFragmentsPerLine(linesIn);
    }

    /** The `highlightedRanges` setter with its observer: a value equal to
        the current one keeps both caches as they are; any other value drops
        them and rebuilds the per-line entries. */
    method SetHighlightedRanges(newValue: seq<HighlightedRange>, linesIn: Range -> seq<LineNode>)
      modifies this
      ensures highlightedRanges == newValue
      ensures newValue == old(highlightedRanges) ==>
        && highlightedRangeFragmentsPerLine == old(highlightedRangeFragmentsPerLine)
        && highlightedRangeFragmentsPerLineFragment == old(highlightedRangeFragmentsPerLineFragment)
      ensures newValue != old(highlightedRanges) ==>
        && highlightedRangeFragmentsPerLineFragment == map[]
        && PerLineMatches(linesIn)
    {
      var oldValue := highlightedRanges;
      highlightedRanges := newValue;
      if highlightedRanges != oldValue {
        InvalidateHighlightedRangeFragments(linesIn);
      }
    }

    /** `createHighlightedLineFragments`: the pieces of the line's entry
        clipped to the fragment; nothing when the line has no entry. */
    function CreateHighlightedLineFragments(lineFragment: LineFragment, lineId: int): (r: seq<HighlightedRangeFragment>)
      reads this
      ensures lineId !in highlightedRangeFragmentsPerLine ==> r == []
      ensures lineId in highlightedRangeFragmentsPerLine ==> |r| <= |highlightedRangeFragmentsPerLine[lineId]|
      ensures lineId in highlightedRangeFragmentsPerLine ==>
        forall q :: q in r ==>
          exists p :: p in highlightedRangeFragmentsPerLine[lineId] && p.range.Overlaps(lineFragment.range)
            && q == FragmentPiece(p, lineFragment.range)
      ensures lineId in highlightedRangeFragmentsPerLine ==>
        forall p :: p in highlightedRangeFragmentsPerLine[lineId] && p.range.Overlaps(lineFragment.range) ==>
          FragmentPiece(p, lineFragment.range) in r
    {
      if lineId in highlightedRangeFragmentsPerLine then
        FragmentPiecesExactly(highlightedRangeFragmentsPerLine[lineId], lineFragment.range);
        FragmentPieces(highlightedRangeFragmentsPerLine[lineId], lineFragment.range)
      else
        []
    }

    /** `highlightedRangeFragments(for:inLineWithID:)`: a fragment seen before
        gets its remembered answer, whatever line is passed; otherwise the
        answer is computed, remembered under the fragment's id and returned. */
    method HighlightedRangeFragments(lineFragment: LineFragment, lineId: int) returns (r: seq<HighlightedRangeFragment>)
      modifies this
      ensures highlightedRanges == old(highlightedRanges)
      ensures highlightedRangeFragmentsPerLine == old(highlightedRangeFragmentsPerLine)
      ensures lineFragment.id in old(highlightedRangeFragmentsPerLineFragment) ==>
        && r == old(highlightedRangeFragmentsPerLineFragment[lineFragment.id])
        && highlightedRangeFragmentsPerLineFragment == old(highlightedRangeFragmentsPerLineFragment)
      ensures lineFragment.id !in old(highlightedRangeFragmentsPerLineFragment) ==>
        && r == old(CreateHighlightedLineFragments(lineFragment, lineId))
        && highlightedRangeFragmentsPerLineFragment == old(highlightedRangeFragmentsPerLineFragment)[lineFragment.id := r]
    {
      if lineFragment.id in highlightedRangeFragmentsPerLineFragment {
        r := highlightedRangeFragmentsPerLineFragment[lineFragment.id];
      } else {
        var highlightedLineFragments := CreateHighlightedLineFragments(lineFragment, lineId);
        highlightedRangeFragmentsPerLineFragment := highlightedRangeFragmentsPerLineFragment[lineFragment.id := highlightedLineFragments];
        r := highlightedLineFragments;
      }
    }
  }
}
