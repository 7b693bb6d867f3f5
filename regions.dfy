/**
 * DocumentRegion: a half-open span [offset, offset + length) of the document.
 * `Span` is its value; the class holds the fields the source updates in place.
 */
module Regions {
  import opened Wrappers

  datatype Span = Span(offset: int, length: int)
  {
    /** getEndOffset: the exclusive end. */
    function End(): int { offset + length }

    predicate IsEmpty() { length == 0 }

    /** Both bounds are non-negative, as the checked setters demand. */
    predicate WellFormed() { offset >= 0 && length >= 0 }

    /** isInside(int): the offset lies in [offset, end). */
    predicate ContainsOffset(x: int) { offset <= x < End() }

    /** isInside(int, int): the span [off, off + len) lies within this one. */
    predicate Encloses(off: int, len: int) { off >= offset && off + len <= End() }

    /** getOverlappingLength: the length shared with [off, off + len); negative when they are apart. */
    function OverlapLength(off: int, len: int): int {
      Min(End(), off + len) - Max(offset, off)
    }
  }

  function Min(a: int, b: int): int { if a <= b then a else b }
  function Max(a: int, b: int): int { if a >= b then a else b }

  /** The smallest span holding both spans: from the lower start to the higher end. */
  function Hull(a: Span, b: Span): Span {
    Span(Min(a.offset, b.offset), Max(a.End(), b.End()) - Min(a.offset, b.offset))
  }

  lemma HullIsLeastEnclosing(a: Span, b: Span, c: Span)
    requires a.length >= 0 && b.length >= 0
    ensures Hull(a, b).length >= 0
    ensures Hull(a, b).Encloses(a.offset, a.length) && Hull(a, b).Encloses(b.offset, b.length)
    ensures c.Encloses(a.offset, a.length) && c.Encloses(b.offset, b.length) ==> c.Encloses(Hull(a, b).offset, Hull(a, b).length)
  {
  }

  /** A positive overlap length means exactly that the spans share an offset. */
  lemma OverlapMeansCommonOffset(s: Span, off: int, len: int)
    ensures s.OverlapLength(off, len) > 0 <==> exists x :: s.ContainsOffset(x) && Span(off, len).ContainsOffset(x)
  {
    if s.OverlapLength(off, len) > 0 {
      var x := Max(s.offset, off);
      assert s.ContainsOffset(x) && Span(off, len).ContainsOffset(x);
    }
  }

  /** isOverlapping as written: it tests this span's own offset instead of the other span's. */
  predicate IsOverlappingAsWritten(s: Span, region: Span) {
    if region.IsEmpty() then false else s.ContainsOffset(s.offset) || s.ContainsOffset(region.End() - 1)
  }

  /** As written, any two non-empty spans "overlap", however far apart. */
  lemma IsOverlappingAsWrittenIgnoresPlace(s: Span, region: Span)
    requires s.WellFormed() && region.WellFormed()
    ensures IsOverlappingAsWritten(s, region) <==> !s.IsEmpty() && !region.IsEmpty()
  {
  }

  lemma IsOverlappingAsWrittenCounterexample()
    ensures IsOverlappingAsWritten(Span(0, 1), Span(10, 1))
    ensures forall x :: !(Span(0, 1).ContainsOffset(x) && Span(10, 1).ContainsOffset(x))
  {
  }

  /** isOverlapping as evidently intended: the spans share an offset. */
  predicate IsOverlapping(s: Span, region: Span) {
    !region.IsEmpty() && s.OverlapLength(region.offset, region.length) > 0
  }

  lemma IsOverlappingMeansCommonOffset(s: Span, region: Span)
    ensures IsOverlapping(s, region) <==> exists x :: s.ContainsOffset(x) && region.ContainsOffset(x)
    ensures IsOverlapping(s, region) <==> IsOverlapping(region, s)
  {
    OverlapMeansCommonOffset(s, region.offset, region.length);
    OverlapMeansCommonOffset(region, s.offset, s.length);
  }

  class DocumentRegion {
    var offset: int
    var length: int

    function Value(): Span reads this { Span(offset, length) }

    /** The no-argument constructor: the empty span at 0. */
    constructor ()
      ensures offset == 0 && length == 0
    {
      offset, length := 0, 0;
    }

    /** The copy constructor (and clone): the same span in a separate object. */
    constructor Copy(o: DocumentRegion)
      ensures Value() == o.Value()
    {
      offset, length := o.offset, o.length;
    }

    method SetOffset(offset: int) returns (r: Outcome)
      modifies this
      ensures r.Fail? <==> offset < 0
      ensures r.Fail? ==> r.error == IllegalArgument && Value() == old(Value())
      ensures r.Pass? ==> Value() == Span(offset, old(length))
    {
      if offset < 0 {
        return Fail(IllegalArgument);
      }
      this.offset := offset;
      return Pass;
    }

    method SetLength(length: int) returns (r: Outcome)
      modifies this
      ensures r.Fail? <==> length < 0
      ensures r.Fail? ==> r.error == IllegalArgument && Value() == old(Value())
      ensures r.Pass? ==> Value() == Span(old(offset), length)
    {
      if length < 0 {
        return Fail(IllegalArgument);
      }
      this.length := length;
      return Pass;
    }

    /** Checks the length, then the offset; a rejected call leaves the region as it was. */
    method Set(offset: int, length: int) returns (r: Outcome)
      modifies this
      ensures r.Fail? <==> offset < 0 || length < 0
      ensures r.Fail? ==> r.error == IllegalArgument && Value() == old(Value())
      ensures r.Pass? ==> Value() == Span(offset, length)
    {
      if length < 0 {
        return Fail(IllegalArgument);
      }
      if offset < 0 {
        return Fail(IllegalArgument);
      }
      this.offset, this.length := offset, length;
      return Pass;
    }

    /** Grows the region to the hull of itself and [offset, offset + length). */
    method ExpandTo(offset: int, length: int)
      modifies this
      ensures Value() == Hull(old(Value()), Span(offset, length))
    {
      if this.offset > offset {
        var diff := this.offset - offset;
        this.offset := offset;
        this.length := this.length + diff;
      }
      if offset + length > this.offset + this.length {
        this.length := offset + length - this.offset;
      }
    }
  }
}
