/** Value types shared by the line controller, the indent controller and the
    highlighted-range service: optional values, character ranges in the manner
    of Foundation's NSRange, line nodes of the document's line index, and the
    line fragments a typesetter produces for one line. */
module TextTypes {

  datatype Option<+T> = None | Some(value: T) {
    /** The wrapped value, or `default` when there is none (Swift's `??`). */
    function GetOr(default: T): T {
      match this
      case Some(v) => v
      case None => default
    }
  }

  function Min(a: int, b: int): int { if a <= b then a else b }

  function Max(a: int, b: int): int { if a >= b then a else b }

  /** Concatenation of sequences is associative. */
  lemma ConcatAssociative<T>(x: seq<T>, y: seq<T>, z: seq<T>)
    ensures (x + y) + z == x + (y + z)
  {
  }

  /** A range of UTF-16 offsets starting at `location`, `length` offsets long.
      Both components are signed integers, as in Swift's NSRange. */
  datatype Range = Range(location: int, length: int) {

    function LowerBound(): int { location }

    function UpperBound(): int { location + length }

    /** The offset lies in the half-open interval [LowerBound, UpperBound). */
    predicate Contains(x: int) { location <= x < location + length }

    /** The two half-open ranges share at least one offset. This is the
        definition of `overlaps` used throughout the model. */
    predicate Overlaps(other: Range) {
      Max(location, other.location) < Min(UpperBound(), other.UpperBound())
    }

    /** `capped(to:)`: the intersection of this range and `other`, starting at
        the larger lower bound; empty (length 0) when they do not overlap. */
    function CappedTo(other: Range): (r: Range)
      ensures r.location == Max(location, other.location)
      ensures r.length >= 0
      ensures forall x :: r.Contains(x) <==> Contains(x) && other.Contains(x)
      ensures Overlaps(other) ==> r.length > 0 && r.UpperBound() == Min(UpperBound(), other.UpperBound())
    {
      var lower := Max(location, other.location);
      var upper := Min(UpperBound(), other.UpperBound());
      Range(lower, if upper < lower then 0 else upper - lower)
    }

    /** `local(to:)`: the same range expressed relative to `parent`'s start. */
    function LocalTo(parent: Range): (r: Range)
      ensures r.length == length
      ensures forall x :: r.Contains(x) <==> Contains(parent.location + x)
    {
      Range(location - parent.location, length)
    }
  }

  /** A node of the document's line index: its identity, the absolute offset
      of its first character and its length including the line terminator. */
  datatype LineNode = LineNode(id: int, location: int, totalLength: nat) {
    /** The absolute range the line occupies in the document. */
    function TotalRange(): Range { Range(location, totalLength) }
  }

  /** One typeset visual row of a line: a stable identity, its zero-based
      index within the line, its line-local character range, its measured
      height before and after the line-height multiplier, and its y-position
      within the line. */
  datatype LineFragment = LineFragment(
    id: int,
    index: nat,
    range: Range,
    baseHeight: real,
    scaledHeight: real,
    yPosition: real)
  {
    /** The bottom edge of the fragment's scaled frame. */
    function MaxY(): real { yPosition + scaledHeight }
  }
}
