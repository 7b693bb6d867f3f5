/**
 * ReparationRegion: one edit of the document, replacing `length`
 * characters at `offset` by `text`, and the ways it is applied: in place on
 * a char array, on a StringBuilder, and to a character sequence.
 */
module Reparation {
  import opened Wrappers

  datatype Edit = Edit(offset: int, length: int, text: string)

  /** The constructor: a negative offset or length is an IndexOutOfBoundsException; no text means the empty text. */
  function NewEdit(offset: int, length: int, text: Option<string>): (r: Result<Edit>)
    ensures r.Ok? <==> offset >= 0 && length >= 0
    ensures r.Err? ==> r.error == IndexOutOfBounds
    ensures r.Ok? ==> r.value.offset == offset && r.value.length == length && r.value.text == (if text.Some? then text.value else "")
  {
    if offset < 0 then Err(IndexOutOfBounds)
    else if length < 0 then Err(IndexOutOfBounds)
    else Ok(Edit(offset, length, if text.None? then "" else text.value))
  }

  /** The document after the edit: the prefix, the text, and what followed the replaced characters. */
  function Splice(s: seq<char>, offset: int, length: int, text: seq<char>): seq<char>
    requires 0 <= offset && 0 <= length && offset + length <= |s|
  {
    s[..offset] + text + s[offset + length..]
  }

  /** The array after System.arraycopy within one array: `count` cells from `src` land at `dst`, as if copied through a buffer. */
  function Moved(a: seq<char>, src: int, dst: int, count: int): (r: seq<char>)
    requires 0 <= src && 0 <= dst && 0 <= count && src + count <= |a| && dst + count <= |a|
    ensures |r| == |a|
  {
    a[..dst] + a[src..src + count] + a[dst + count..]
  }

  /** The array after String.getChars: the text lands at `at`. */
  function Written(a: seq<char>, at: int, text: seq<char>): (r: seq<char>)
    requires 0 <= at && at + |text| <= |a|
    ensures |r| == |a|
  {
    a[..at] + text + a[at + |text|..]
  }

  lemma MovedAt(a: seq<char>, src: int, dst: int, count: int, i: int)
    requires 0 <= src && 0 <= dst && 0 <= count && src + count <= |a| && dst + count <= |a|
    requires 0 <= i < |a|
    ensures Moved(a, src, dst, count)[i] == if dst <= i < dst + count then a[src + i - dst] else a[i]
  {
  }

  lemma SpliceAt(s: seq<char>, offset: int, length: int, text: seq<char>, i: int)
    requires 0 <= offset && 0 <= length && offset + length <= |s|
    requires 0 <= i < |s| + |text| - length
    ensures Splice(s, offset, length, text)[i] ==
      if i < offset then s[i] else if i < offset + |text| then text[i - offset] else s[i - |text| + length]
  {
  }

  lemma WrittenAt(a: seq<char>, at: int, text: seq<char>, i: int)
    requires 0 <= at && at + |text| <= |a|
    requires 0 <= i < |a|
    ensures Written(a, at, text)[i] == if at <= i < at + |text| then text[i - at] else a[i]
  {
  }

  /** Whether apply(char[], int) throws while moving the tail of the data. */
  predicate MoveFails(e: Edit, len: int, datalen: int) {
    var diff := |e.text| - e.length;
    var end := e.offset + e.length;
    diff != 0 && (end > datalen || (end < datalen && (datalen > len || datalen + diff > len)))
  }

  /** Whether apply(char[], int) throws while writing the text. */
  predicate WriteFails(e: Edit, len: int) {
    |e.text| > 0 && e.offset + |e.text| > len
  }

  /** Whether apply(char[], int) moves the tail of the data at all. */
  predicate Moves(e: Edit, datalen: int) {
    |e.text| != e.length && e.offset + e.length < datalen
  }

  /** The array after apply(char[], int) got past moving the tail: moved, then written unless the text does not fit. */
  function AfterApply(e: Edit, a: seq<char>, datalen: int): (r: seq<char>)
    requires e.offset >= 0 && e.length >= 0 && !MoveFails(e, |a|, datalen)
    ensures |r| == |a|
  {
    var moved := if Moves(e, datalen) then Moved(a, e.offset + e.length, e.offset + |e.text|, datalen - e.offset - e.length) else a;
    if WriteFails(e, |a|) || |e.text| == 0 then moved else Written(moved, e.offset, e.text)
  }

  /**
   * apply(char[], int): moves the data after the replaced characters by the
   * length difference, then writes the text over the gap. The first
   * `datalen` cells are the document.
   */
  method ApplyToArray(e: Edit, chars: array<char>, datalen: int) returns (r: Outcome)
    requires e.offset >= 0 && e.length >= 0
    modifies chars
    ensures r.Fail? <==> MoveFails(e, chars.Length, datalen) || WriteFails(e, chars.Length)
    ensures r.Fail? ==> r.error == IndexOutOfBounds
    ensures MoveFails(e, chars.Length, datalen) ==> chars[..] == old(chars[..])
    ensures !MoveFails(e, chars.Length, datalen) ==> chars[..] == AfterApply(e, old(chars[..]), datalen)
  {
    ghost var a := chars[..];
    r := MoveTail(e, chars, datalen);
    if r.Fail? {
      return;
    }
    ghost var moved := chars[..];
    AfterApplyIs(e, a, datalen, moved);
    if |e.text| == 0 {
      return Pass;
    }
    if e.offset + |e.text| > chars.Length {
      return Fail(IndexOutOfBounds);
    }
    GetChars(e.text, chars, e.offset);
    return Pass;
  }

  lemma AfterApplyIs(e: Edit, a: seq<char>, datalen: int, moved: seq<char>)
    requires e.offset >= 0 && e.length >= 0 && !MoveFails(e, |a|, datalen)
    requires Moves(e, datalen) ==> moved == Moved(a, e.offset + e.length, e.offset + |e.text|, datalen - e.offset - e.length)
    requires !Moves(e, datalen) ==> moved == a
    ensures |moved| == |a|
    ensures WriteFails(e, |a|) || |e.text| == 0 ==> AfterApply(e, a, datalen) == moved
    ensures !WriteFails(e, |a|) && |e.text| > 0 ==> AfterApply(e, a, datalen) == Written(moved, e.offset, e.text)
  {
    var m := if Moves(e, datalen) then Moved(a, e.offset + e.length, e.offset + |e.text|, datalen - e.offset - e.length) else a;
    assert moved == m;
    assert AfterApply(e, a, datalen) == if WriteFails(e, |a|) || |e.text| == 0 then m else Written(m, e.offset, e.text);
  }

  /** The first half of apply(char[], int): move the data after the replaced characters by the length difference. */
  method MoveTail(e: Edit, chars: array<char>, datalen: int) returns (r: Outcome)
    requires e.offset >= 0 && e.length >= 0
    modifies chars
    ensures r.Fail? <==> MoveFails(e, chars.Length, datalen)
    ensures r.Fail? ==> r.error == IndexOutOfBounds && chars[..] == old(chars[..])
    ensures r.Pass? && Moves(e, datalen) ==>
      chars[..] == Moved(old(chars[..]), e.offset + e.length, e.offset + |e.text|, datalen - e.offset - e.length)
    ensures r.Pass? && !Moves(e, datalen) ==> chars[..] == old(chars[..])
  {
    var diff := |e.text| - e.length;
    if diff != 0 {
      var end := e.offset + e.length;
      if end > datalen {
        return Fail(IndexOutOfBounds);
      } else if end < datalen {
        if datalen > chars.Length || datalen + diff > chars.Length {
          return Fail(IndexOutOfBounds);
        }
        ArrayCopy(chars, end, end + diff, datalen - end);
      }
    }
    return Pass;
  }

  /** System.arraycopy within one array, with bounds already checked. */
  method ArrayCopy(chars: array<char>, src: int, dst: int, count: int)
    requires 0 <= src && 0 <= dst && 0 <= count && src + count <= chars.Length && dst + count <= chars.Length
    modifies chars
    ensures chars[..] == Moved(old(chars[..]), src, dst, count)
  {
    var before := chars[..];
    forall i | 0 <= i < count {
      chars[dst + i] := before[src + i];
    }
    forall i | 0 <= i < chars.Length ensures chars[i] == Moved(before, src, dst, count)[i] {
      MovedAt(before, src, dst, count, i);
    }
  }

  /** String.getChars into an array, with bounds already checked. */
  method GetChars(text: string, chars: array<char>, at: int)
    requires 0 <= at && at + |text| <= chars.Length
    modifies chars
    ensures chars[..] == Written(old(chars[..]), at, text)
  {
    var before := chars[..];
    forall i | 0 <= i < |text| {
      chars[at + i] := text[i];
    }
    forall i | 0 <= i < chars.Length ensures chars[i] == Written(before, at, text)[i] {
      WrittenAt(before, at, text, i);
    }
  }

  /**
   * When the replaced characters lie within the data and the array has
   * room, the first datalen + |text| - length cells after a successful
   * apply hold the spliced document.
   */
  lemma ApplyToArraySplices(e: Edit, a: seq<char>, datalen: int)
    requires e.offset >= 0 && e.length >= 0
    requires e.offset + e.length <= datalen <= |a| && datalen + |e.text| - e.length <= |a|
    ensures !MoveFails(e, |a|, datalen) && !WriteFails(e, |a|)
    ensures AfterApply(e, a, datalen)[..datalen + |e.text| - e.length] == Splice(a[..datalen], e.offset, e.length, e.text)
  {
    var end := e.offset + e.length;
    var diff := |e.text| - e.length;
    var n := datalen + diff;
    assert !MoveFails(e, |a|, datalen) && !WriteFails(e, |a|);
    var moved := if Moves(e, datalen) then Moved(a, e.offset + e.length, e.offset + |e.text|, datalen - e.offset - e.length) else a;
    AfterApplyIs(e, a, datalen, moved);
    var after := AfterApply(e, a, datalen);
    var want := Splice(a[..datalen], e.offset, e.length, e.text);
    assert |want| == n;
    forall i | 0 <= i < n ensures after[i] == want[i] {
      SplicedAt(e, a, datalen, moved, i);
    }
    assert after[..n] == want;
  }

  lemma SplicedAt(e: Edit, a: seq<char>, datalen: int, moved: seq<char>, i: int)
    requires e.offset >= 0 && e.length >= 0
    requires e.offset + e.length <= datalen <= |a| && datalen + |e.text| - e.length <= |a|
    requires !MoveFails(e, |a|, datalen) && !WriteFails(e, |a|)
    requires moved == if Moves(e, datalen) then Moved(a, e.offset + e.length, e.offset + |e.text|, datalen - e.offset - e.length) else a
    requires 0 <= i < datalen + |e.text| - e.length
    ensures (if |e.text| > 0 then Written(moved, e.offset, e.text) else moved)[i] == Splice(a[..datalen], e.offset, e.length, e.text)[i]
  {
    SpliceAt(a[..datalen], e.offset, e.length, e.text, i);
    if Moves(e, datalen) {
      MovedAt(a, e.offset + e.length, e.offset + |e.text|, datalen - e.offset - e.length, i);
    }
    if |e.text| > 0 {
      WrittenAt(moved, e.offset, e.text, i);
    }
  }

  /** StringBuilder.replace: the start must lie within the builder and not after the end; the end is clamped to the length. */
  function Replace(sb: string, start: int, end: int, str: string): (r: Result<string>)
    ensures r.Ok? <==> 0 <= start <= |sb| && start <= end
    ensures r.Ok? && end <= |sb| ==> r.value == Splice(sb, start, end - start, str)
  {
    if start < 0 || start > |sb| || start > end then Err(IndexOutOfBounds)
    else
      var e := if end > |sb| then |sb| else end;
      Ok(sb[..start] + str + sb[e..])
  }

  /** apply(StringBuilder, int): the builder holds the document from `charsoffset` on. */
  function ApplyToBuilderAt(e: Edit, sb: string, charsoffset: int): Result<string> {
    Replace(sb, e.offset - charsoffset, e.offset + e.length - charsoffset, e.text)
  }

  /** apply(StringBuilder): the builder holds the whole document. */
  function ApplyToBuilder(e: Edit, sb: string): (r: Result<string>)
    requires e.offset >= 0 && e.length >= 0
    ensures r.Ok? <==> e.offset <= |sb|
    ensures e.offset + e.length <= |sb| ==> r == Ok(Splice(sb, e.offset, e.length, e.text))
  {
    ApplyToBuilderAt(e, sb, 0)
  }

  /** apply(CharSequence, int): prefix, text and suffix relative to `charsoffset`; both sub-sequences are bounds-checked. */
  function ApplyToText(e: Edit, chars: string, charsoffset: int): (r: Result<string>)
    ensures r.Ok? <==> 0 <= e.offset - charsoffset && e.length >= 0 && e.offset - charsoffset + e.length <= |chars|
    ensures r.Ok? ==> r.value == Splice(chars, e.offset - charsoffset, e.length, e.text)
    ensures r.Ok? ==> |r.value| == |chars| + |e.text| - e.length
  {
    var firstlen := e.offset - charsoffset;
    if firstlen < 0 || firstlen > |chars| then Err(IndexOutOfBounds)
    else if firstlen + e.length < firstlen || firstlen + e.length > |chars| then Err(IndexOutOfBounds)
    else Ok(chars[..firstlen] + e.text + chars[firstlen + e.length..])
  }

  /** An edit is undone by the edit that puts the replaced characters back in place of the text. */
  lemma ApplyToTextUndo(e: Edit, chars: string)
    requires e.offset >= 0 && e.length >= 0 && e.offset + e.length <= |chars|
    ensures ApplyToText(e, chars, 0).Ok?
    ensures ApplyToText(Edit(e.offset, |e.text|, chars[e.offset..e.offset + e.length]), ApplyToText(e, chars, 0).value, 0) == Ok(chars)
  {
    var edited := ApplyToText(e, chars, 0).value;
    assert edited[..e.offset] == chars[..e.offset];
    assert edited[e.offset + |e.text|..] == chars[e.offset + e.length..];
    assert chars == chars[..e.offset] + chars[e.offset..e.offset + e.length] + chars[e.offset + e.length..];
  }
}
