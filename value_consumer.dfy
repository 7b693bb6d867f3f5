/**
 * ValueConsumer: the growable character buffer a value rule collects its
 * value in. Matches append to it; a failed container attempt truncates it
 * back to the length it had before the attempt.
 */
module Values {
  import opened Wrappers
  import opened CharSequences

  /** Integer.highestOneBit of a positive value: the largest power of two not above it. */
  function HighestOneBit(x: nat): (h: nat)
    requires x >= 1
    ensures 1 <= h <= x < 2 * h
  {
    if x == 1 then 1 else 2 * HighestOneBit(x / 2)
  }

  class ValueConsumer {
    var buf: array<char>
    var count: int

    ghost predicate Valid() reads this { 0 <= count <= buf.Length }

    /** The collected value: the first `count` cells. */
    function Value(): seq<char>
      reads this, buf
      requires Valid()
    {
      buf[..count]
    }

    /** A consumer starts with the shared empty array. */
    constructor ()
      ensures Valid() && Value() == [] && buf.Length == 0 && fresh(buf)
    {
      buf := new char[0];
      count := 0;
    }

    /** length(). */
    function Length(): (n: int)
      reads this, buf
      requires Valid()
      ensures n == |Value()|
    {
      count
    }

    /** getParsedValue: a new view object of the collected value. */
    method ParsedValue() returns (v: ArrayRange)
      requires Valid()
      ensures v.WellFormed() && v.Chars() == Value() && v.length == count
      ensures v.identity != null && fresh(v.identity)
    {
      var identity := new Identity();
      v := ArrayRange(buf[..], 0, count, identity);
    }

    /** ensureCount: makes room for `length` more characters, growing to at least 16 cells when it grows. */
    method EnsureCount(length: int)
      requires Valid()
      modifies this
      ensures Valid() && count == old(count) && Value() == old(Value())
      ensures count + length <= buf.Length
      ensures old(count) + length > old(buf.Length) ==> fresh(buf) && buf.Length >= 16 && buf.Length > count + length
      ensures old(count) + length <= old(buf.Length) ==> buf == old(buf)
    {
      if count + length > buf.Length {
        var h := HighestOneBit(count + length);
        var nlen := if 2 * h > 16 then 2 * h else 16;
        var nbuf := new char[nlen](i => ' ');
        forall i | 0 <= i < count {
          nbuf[i] := buf[i];
        }
        buf := nbuf;
      }
    }

    /** appendValue(String): appends every character in order; nothing happens for the empty text. */
    method Append(s: seq<char>)
      requires Valid()
      modifies this, buf
      ensures Valid() && Value() == old(Value()) + s
      ensures |s| == 0 ==> buf == old(buf) && unchanged(buf)
      ensures buf == old(buf) || fresh(buf)
    {
      if |s| == 0 {
        return;
      }
      EnsureCount(|s|);
      var at := count;
      forall i | 0 <= i < |s| {
        buf[at + i] := s[i];
      }
      count := count + |s|;
      assert Value() == old(Value()) + s by {
        assert forall i :: 0 <= i < at ==> buf[i] == old(Value())[i];
      }
    }

    /**
     * appendValue(char[], int, int) on the view of a match: nothing happens
     * for an empty view; a window outside its array is an
     * IndexOutOfBoundsException and leaves the value as it was.
     */
    method AppendRange(v: ArrayRange) returns (r: Outcome)
      requires Valid()
      modifies this, buf
      ensures Valid()
      ensures r.Fail? <==> v.length != 0 && !v.WellFormed()
      ensures r.Fail? ==> r.error == IndexOutOfBounds && Value() == old(Value())
      ensures r.Pass? ==> Value() == old(Value()) + (if v.length == 0 then [] else v.Chars())
      ensures buf == old(buf) || fresh(buf)
    {
      if v.length == 0 {
        return Pass;
      }
      if !v.WellFormed() {
        if v.length > 0 {
          EnsureCount(v.length);
        }
        return Fail(IndexOutOfBounds);
      }
      Append(v.Chars());
      return Pass;
    }

    /** setLength: sets the count; callers use it to truncate back to an earlier length. */
    method SetLength(len: int)
      requires Valid() && 0 <= len <= count
      modifies this
      ensures Valid() && buf == old(buf) && Value() == old(Value())[..len]
    {
      count := len;
    }
  }
}
