/**
 * Bounded character views: ArrayRangeCharSequence (a window on a char
 * array), OffsetCharSequence (a window on another character sequence) and
 * DocumentData, the parse cursor, which is an array window whose start
 * moves forward as input is consumed.
 *
 * The viewed characters are modelled as a value: nothing writes into an
 * array once a view of it exists.
 */
module CharSequences {
  import opened Wrappers
  import opened Regions

  /**
   * The identity of an ArrayRangeCharSequence object. The class does not
   * override equals, so two value sequences are equal exactly when they are
   * the same object; a clone of a statement shares its value object.
   */
  class Identity {
    constructor () {}
  }

  /**
   * ArrayRangeCharSequence: `length` characters of the array from `index`.
   * `identity` is the object a statement's value sequence is; a view that is
   * only read and never stored in a statement carries none.
   */
  datatype ArrayRange = ArrayRange(data: seq<char>, index: int, length: int, identity: Identity? := null)
  {
    predicate WellFormed() { 0 <= index && 0 <= length && index + length <= |data| }

    /** The viewed characters, when the window lies within the array. */
    function Chars(): seq<char> requires WellFormed() { data[index..index + length] }
  }

  /** The whole array (the one-argument constructor and valueOf). */
  function WholeArray(s: seq<char>): (v: ArrayRange)
    ensures v.WellFormed() && v.Chars() == s
  {
    ArrayRange(s, 0, |s|)
  }

  /** charAt: bounds-checked against the view, then read at index + i. */
  function CharAt(v: ArrayRange, i: int): (r: Result<char>)
    ensures v.WellFormed() ==> (r.Ok? <==> 0 <= i < v.length)
    ensures v.WellFormed() && r.Ok? ==> r.value == v.Chars()[i]
    ensures r.Err? ==> r.error == IndexOutOfBounds
  {
    if i < 0 || i >= v.length then Err(IndexOutOfBounds)
    else if v.index + i < 0 || v.index + i >= |v.data| then Err(IndexOutOfBounds)
    else Ok(v.data[v.index + i])
  }

  /** toString: String.valueOf(data, index, length), which rejects a window outside the array. */
  function ToString(v: ArrayRange): (r: Result<string>)
    ensures r.Ok? <==> v.WellFormed()
    ensures r.Ok? ==> r.value == v.Chars() && |r.value| == v.length
  {
    if v.WellFormed() then Ok(v.Chars()) else Err(IndexOutOfBounds)
  }

  /** subSequence as written: it checks each bound against the length but not that start <= end. */
  function SubSequenceAsWritten(v: ArrayRange, start: int, end: int): Result<ArrayRange> {
    if start < 0 || end < 0 || end > v.length || start > v.length then Err(IndexOutOfBounds)
    else Ok(ArrayRange(v.data, v.index + start, end - start))
  }

  /** As written, a reversed range is accepted and yields a view of negative length, which cannot even be printed. */
  lemma SubSequenceAsWrittenAcceptsReversedRange()
    ensures SubSequenceAsWritten(WholeArray("abcde"), 3, 1) == Ok(ArrayRange("abcde", 3, -2))
    ensures ToString(ArrayRange("abcde", 3, -2)).Err?
  {
  }

  /** subSequence as the CharSequence contract demands: a reversed range is an IndexOutOfBoundsException. */
  function SubSequence(v: ArrayRange, start: int, end: int): (r: Result<ArrayRange>)
    ensures r.Ok? <==> 0 <= start <= end <= v.length
    ensures r.Err? ==> r.error == IndexOutOfBounds
  {
    if start < 0 || end < 0 || end > v.length || start > v.length || start > end then Err(IndexOutOfBounds)
    else Ok(ArrayRange(v.data, v.index + start, end - start))
  }

  /** A sub-view of a well-formed view is well formed and shows the corresponding slice. */
  lemma SubSequenceIsSlice(v: ArrayRange, start: int, end: int)
    requires v.WellFormed() && SubSequence(v, start, end).Ok?
    ensures SubSequence(v, start, end).value.WellFormed()
    ensures SubSequence(v, start, end).value.Chars() == v.Chars()[start..end]
  {
    assert v.data[v.index + start..v.index + end] == v.Chars()[start..end];
  }

  /** Wherever the corrected check accepts, it agrees with the code as written. */
  lemma SubSequenceAgreesWhenOrdered(v: ArrayRange, start: int, end: int)
    requires start <= end
    ensures SubSequence(v, start, end) == SubSequenceAsWritten(v, start, end)
  {
  }

  /** sequenceToArray: copies every character of the sequence into a new array, in order. */
  method SequenceToArray(str: seq<char>) returns (a: array<char>)
    ensures fresh(a) && a[..] == str
  {
    a := new char[|str|];
    var i := 0;
    while i < a.Length
      invariant 0 <= i <= a.Length
      invariant a[..i] == str[..i]
    {
      a[i] := str[i];
      i := i + 1;
    }
  }

  // ----- OffsetCharSequence -----

  /** OffsetCharSequence: `length` characters of `subject` from `index`. */
  datatype OffsetView = OffsetView(subject: seq<char>, index: int, length: int)
  {
    predicate WellFormed() { 0 <= index && 0 <= length && index + length <= |subject| }
    function Chars(): seq<char> requires WellFormed() { subject[index..index + length] }
  }

  function OffsetCharAt(v: OffsetView, i: int): (r: Result<char>)
    ensures v.WellFormed() ==> (r.Ok? <==> 0 <= i < v.length)
    ensures v.WellFormed() && r.Ok? ==> r.value == v.Chars()[i]
  {
    if i < 0 || i >= v.length then Err(IndexOutOfBounds)
    else if v.index + i < 0 || v.index + i >= |v.subject| then Err(IndexOutOfBounds)
    else Ok(v.subject[v.index + i])
  }

  /** toString: the subject's subSequence(index, index + length), which checks its bounds. */
  function OffsetToString(v: OffsetView): (r: Result<string>)
    ensures r.Ok? <==> v.WellFormed()
    ensures r.Ok? ==> r.value == v.Chars()
  {
    if v.index < 0 || v.index + v.length > |v.subject| || v.length < 0 then Err(IndexOutOfBounds)
    else Ok(v.subject[v.index..v.index + v.length])
  }

  /** subSequence as written: start <= end is not checked. */
  function OffsetSubSequenceAsWritten(v: OffsetView, start: int, end: int): Result<OffsetView> {
    if start < 0 || end < 0 || end > v.length || start > v.length then Err(IndexOutOfBounds)
    else Ok(OffsetView(v.subject, v.index + start, end - start))
  }

  lemma OffsetSubSequenceAsWrittenAcceptsReversedRange()
    ensures OffsetSubSequenceAsWritten(OffsetView("abcde", 0, 5), 3, 1) == Ok(OffsetView("abcde", 3, -2))
    ensures OffsetToString(OffsetView("abcde", 3, -2)).Err?
  {
  }

  function OffsetSubSequence(v: OffsetView, start: int, end: int): (r: Result<OffsetView>)
    ensures r.Ok? <==> 0 <= start <= end <= v.length
  {
    if start < 0 || end < 0 || end > v.length || start > v.length || start > end then Err(IndexOutOfBounds)
    else Ok(OffsetView(v.subject, v.index + start, end - start))
  }

  /** Sub-views compose their offsets: a sub-view shows the slice, and a sub-view of it the slice of the slice. */
  lemma OffsetSubSequenceComposes(v: OffsetView, s1: int, e1: int, s2: int, e2: int)
    requires v.WellFormed() && OffsetSubSequence(v, s1, e1).Ok?
    requires OffsetSubSequence(OffsetSubSequence(v, s1, e1).value, s2, e2).Ok?
    ensures OffsetSubSequence(v, s1, e1).value.Chars() == v.Chars()[s1..e1]
    ensures OffsetSubSequence(OffsetSubSequence(v, s1, e1).value, s2, e2).value == OffsetSubSequence(v, s1 + s2, s1 + e2).value
  {
  }

  // ----- DocumentData -----

  /** DocumentData: the input window that parsing consumes from the front. */
  class DocumentData {
    const data: seq<char>
    var index: int
    var length: int

    function View(): ArrayRange reads this { ArrayRange(data, index, length) }

    /** The whole array. */
    constructor Whole(content: seq<char>)
      ensures View() == WholeArray(content)
    {
      data, index, length := content, 0, |content|;
    }

    constructor (subject: seq<char>, index: int, length: int)
      ensures View() == ArrayRange(subject, index, length)
    {
      data, this.index, this.length := subject, index, length;
    }

    /** The copy constructor: the same array and window, in a cursor that moves separately. */
    constructor Copy(other: DocumentData)
      ensures View() == other.View()
    {
      data, index, length := other.data, other.index, other.length;
    }

    /** getDocumentOffset: the cursor's position in the document. */
    function DocumentOffset(): int reads this { index }

    function DocumentLength(): int reads this { length }

    /** removeFromStart: consumes `count` characters, or fails when fewer remain. */
    method RemoveFromStart(count: int) returns (r: Outcome)
      modifies this
      ensures r.Fail? <==> count > old(length)
      ensures r.Fail? ==> r.error == IllegalArgument && View() == old(View())
      ensures r.Pass? ==> View() == ArrayRange(data, old(index) + count, old(length) - count)
      ensures r.Pass? && old(View()).WellFormed() && count >= 0 ==> View().WellFormed() && View().Chars() == old(View().Chars())[count..]
    {
      if count > length {
        return Fail(IllegalArgument);
      }
      index := index + count;
      length := length - count;
      return Pass;
    }

    /** subDocumentSequence: the view of the document at a region, whatever the cursor. */
    function SubDocumentSequence(region: Span): (v: ArrayRange)
      reads this
      ensures v.data == data
      ensures v.WellFormed() <==> region.WellFormed() && region.End() <= |data|
    {
      ArrayRange(data, region.offset, region.length)
    }
  }
}
