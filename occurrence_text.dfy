/**
 * The textual form of occurrences: `Occurrence.parse` and `parseSingle`, the
 * `toString` of the at-least and at-most policies, and the pieces of the Java
 * library they rely on (`Integer.parseInt`, `Integer.toString`,
 * `String.split`).
 */
module OccurrenceText {
  import opened Wrappers
  import opened Occurrences

  const MinInt: int := -0x8000_0000

  // ----- Integer.parseInt and Integer.toString (decimal, ASCII digits) -----

  predicate IsDigit(c: char) { '0' <= c <= '9' }

  predicate AllDigits(s: string) { forall i :: 0 <= i < |s| ==> IsDigit(s[i]) }

  function DigitValue(c: char): int requires IsDigit(c) { c as int - '0' as int }

  function DigitChar(d: int): (c: char)
    requires 0 <= d < 10
    ensures IsDigit(c) && DigitValue(c) == d
  {
    ('0' as int + d) as char
  }

  /** The value of a string of decimal digits, read from the left. */
  function DigitsValue(s: string): (v: nat)
    requires AllDigits(s)
  {
    if |s| == 0 then 0 else DigitsValue(s[..|s| - 1]) * 10 + DigitValue(s[|s| - 1])
  }

  /** The decimal digits of a natural number, without leading zeros. */
  function DigitsOf(n: nat): (s: string)
    ensures |s| > 0 && AllDigits(s)
  {
    if n < 10 then [DigitChar(n)] else DigitsOf(n / 10) + [DigitChar(n % 10)]
  }

  /** Integer.toString: a minus sign before the digits of a negative value. */
  function IntToString(n: int): string {
    if n < 0 then "-" + DigitsOf(-n) else DigitsOf(n)
  }

  /** Integer.parseInt: an optional sign, at least one digit, and a value that fits in 32 bits; any other text is an IllegalArgumentException (NumberFormatException is one). */
  function ParseInt(s: string): (r: Result<int>)
    ensures r.Ok? ==> MinInt <= r.value <= MaxInt
    ensures r.Err? ==> r.error == IllegalArgument
  {
    if |s| == 0 then Err(IllegalArgument)
    else
      var digits := if s[0] == '-' || s[0] == '+' then s[1..] else s;
      if |digits| == 0 || !AllDigits(digits) then Err(IllegalArgument)
      else
        var magnitude: int := DigitsValue(digits);
        var v := if s[0] == '-' then -magnitude else magnitude;
        if v < MinInt || v > MaxInt then Err(IllegalArgument) else Ok(v)
  }

  lemma {:induction false} DigitsRoundTrip(n: nat)
    ensures DigitsValue(DigitsOf(n)) == n
  {
    if n >= 10 {
      var s := DigitsOf(n);
      assert s[..|s| - 1] == DigitsOf(n / 10);
      DigitsRoundTrip(n / 10);
    }
  }

  /** Integer.parseInt reads back what Integer.toString writes. */
  lemma ParseIntOfToString(n: int)
    requires MinInt <= n <= MaxInt
    ensures ParseInt(IntToString(n)) == Ok(n)
  {
    var s := IntToString(n);
    if n < 0 {
      assert s[1..] == DigitsOf(-n);
      DigitsRoundTrip(-n);
    } else {
      DigitsRoundTrip(n);
    }
  }

  // ----- String.split -----

  /** The length of the longest prefix of `s` holding no separator. */
  function TokenLength(s: string, seps: set<char>): (n: nat)
    ensures n <= |s|
    ensures forall i :: 0 <= i < n ==> s[i] !in seps
    ensures n < |s| ==> s[n] in seps
  {
    if |s| == 0 || s[0] in seps then 0 else 1 + TokenLength(s[1..], seps)
  }

  /** The length of the run of separators that starts `s`. */
  function RunLength(s: string, seps: set<char>): (n: nat)
    ensures n <= |s|
    ensures forall i :: 0 <= i < n ==> s[i] in seps
    ensures n < |s| ==> s[n] !in seps
  {
    if |s| == 0 || s[0] !in seps then 0 else 1 + RunLength(s[1..], seps)
  }

  /** The pieces between single separator characters, empty pieces included. */
  function SplitEach(s: string, seps: set<char>): (ps: seq<string>)
    ensures |ps| > 0
    decreases |s|
  {
    var n := TokenLength(s, seps);
    if n == |s| then [s] else [s[..n]] + SplitEach(s[n + 1..], seps)
  }

  /** The pieces between maximal runs of separator characters. */
  function SplitRuns(s: string, seps: set<char>): (ps: seq<string>)
    ensures |ps| > 0
    decreases |s|
  {
    var n := TokenLength(s, seps);
    if n == |s| then [s] else [s[..n]] + SplitRuns(s[n + RunLength(s[n..], seps)..], seps)
  }

  function StripTrailingEmpty(ps: seq<string>): (r: seq<string>)
    ensures |r| <= |ps| && r == ps[..|r|]
    ensures |r| > 0 ==> r[|r| - 1] != ""
    ensures forall i :: |r| <= i < |ps| ==> ps[i] == ""
  {
    if |ps| > 0 && ps[|ps| - 1] == "" then StripTrailingEmpty(ps[..|ps| - 1]) else ps
  }

  /**
   * String.split with limit 0: a string without any match is returned
   * whole; otherwise the pieces, with trailing empty pieces removed.
   */
  function JavaSplit(s: string, seps: set<char>, runs: bool): seq<string> {
    if TokenLength(s, seps) == |s| then [s]
    else StripTrailingEmpty(if runs then SplitRuns(s, seps) else SplitEach(s, seps))
  }

  /** The characters of the regular expression `[\| \t\r\n\v\f]+`; Java's `\v` is every vertical whitespace character. */
  const Separators: set<char> := {'|', ' ', '\t', '\r', '\n', '\U{000B}', '\U{000C}', '\U{0085}', '\U{2028}', '\U{2029}'}

  function JoinWith(ps: seq<string>, c: char): string {
    if |ps| == 0 then "" else if |ps| == 1 then ps[0] else ps[0] + [c] + JoinWith(ps[1..], c)
  }

  /** Splitting at each single separator loses nothing: joining the pieces back gives the text. */
  lemma {:induction false} SplitEachJoins(s: string, c: char)
    ensures JoinWith(SplitEach(s, {c}), c) == s
    decreases |s|
  {
    var n := TokenLength(s, {c});
    var ps := SplitEach(s, {c});
    if n < |s| {
      var rest := s[n + 1..];
      var tail := SplitEach(rest, {c});
      SplitEachJoins(rest, c);
      assert ps == [s[..n]] + tail;
      assert ps[0] == s[..n] && ps[1..] == tail && |ps| >= 2;
      assert JoinWith(ps, c) == s[..n] + [c] + JoinWith(tail, c);
      assert s[n] == c;
      assert s == s[..n] + [c] + rest;
    } else {
      assert ps == [s];
    }
  }

  /** No piece of a run split holds a separator. */
  lemma {:induction false} SplitRunsPiecesClean(s: string, seps: set<char>)
    ensures forall i, j :: 0 <= i < |SplitRuns(s, seps)| && 0 <= j < |SplitRuns(s, seps)[i]| ==> SplitRuns(s, seps)[i][j] !in seps
    decreases |s|
  {
    var n := TokenLength(s, seps);
    var ps := SplitRuns(s, seps);
    if n < |s| {
      var rest := s[n + RunLength(s[n..], seps)..];
      var tail := SplitRuns(rest, seps);
      SplitRunsPiecesClean(rest, seps);
      assert ps == [s[..n]] + tail;
      forall i, j | 0 <= i < |ps| && 0 <= j < |ps[i]|
        ensures ps[i][j] !in seps
      {
        if i > 0 {
          assert ps[i] == tail[i - 1];
        }
      }
    } else {
      assert ps == [s];
    }
  }

  // ----- Occurrence.parseSingle and Occurrence.parse -----

  /**
   * One occurrence token: the symbols "?", "*" and "+", a number followed
   * by "-" (at most) or "+" (at least), two numbers around a "-" (range),
   * or a bare number (exactly). Every error is an IllegalArgumentException.
   */
  function ParseSingle(input: string): (r: Result<Policy>)
    ensures r.Err? ==> r.error == IllegalArgument
  {
    if input == "?" then Ok(AtMost(1))
    else if input == "*" then Ok(Any)
    else if input == "+" then Ok(AtLeast(1))
    else if |input| > 0 && input[|input| - 1] == '-' then
      var num :- ParseInt(input[..|input| - 1]);
      // 1 gives the shared MAX_ONCE constant, which is AtMost(1)
      Ok(AtMost(num))
    else if |input| > 0 && input[|input| - 1] == '+' then
      var num :- ParseInt(input[..|input| - 1]);
      Ok(if num == 0 then Any else AtLeast(num))
    else
      var split := JavaSplit(input, {'-'}, false);
      if |split| == 2 then
        var num1 :- ParseInt(split[0]);
        var num2 :- ParseInt(split[1]);
        Ok(Range(num1, num2))
      else
        var num :- ParseInt(input);
        // 0 and 1 give the shared ZERO and ONCE constants
        Ok(Exact(num))
  }

  /** Parses every token in order; the first failure is the result. */
  function ParseAll(tokens: seq<string>): (r: Result<seq<Policy>>)
    ensures r.Ok? ==> |r.value| == |tokens| && forall i :: 0 <= i < |tokens| ==> ParseSingle(tokens[i]) == Ok(r.value[i])
    ensures r.Err? ==> exists i :: 0 <= i < |tokens| && ParseSingle(tokens[i]).Err?
  {
    if |tokens| == 0 then Ok([])
    else
      var first :- ParseSingle(tokens[0]);
      var rest :- ParseAll(tokens[1..]);
      Ok([first] + rest)
  }

  /**
   * Occurrence.parse: tokens are separated by runs of '|' and whitespace;
   * several tokens make a multiple occurrence. Text made of separators
   * only leaves no token, and reading the first token then fails.
   */
  function Parse(value: string): (r: Result<Occurrence>)
    ensures r.Ok? && r.value.Multiple? ==> |r.value.members| > 1
  {
    var split := JavaSplit(value, Separators, true);
    if |split| > 1 then
      var ms :- ParseAll(split);
      Ok(Multiple(ms))
    else if |split| == 0 then Err(IndexOutOfBounds)
    else
      var p :- ParseSingle(split[0]);
      Ok(Single(p))
  }

  // ----- toString of AtLeastOccurrence and AtMostOccurrence -----

  function AtLeastToString(min: int): string {
    if min == 1 then "+" else IntToString(min) + "+"
  }

  function AtMostToString(max: int): string {
    if max == 1 then "?" else IntToString(max) + "-"
  }

  // ----- properties of parsing -----

  lemma DigitsHaveNoSeparator(s: string, seps: set<char>)
    requires AllDigits(s)
    requires forall c :: c in seps ==> !IsDigit(c)
    ensures TokenLength(s, seps) == |s|
  {
  }

  lemma IntToStringShape(n: int)
    ensures |IntToString(n)| > 0 && IsDigit(IntToString(n)[|IntToString(n)| - 1])
    ensures TokenLength(IntToString(n), Separators) == |IntToString(n)|
    ensures n >= 0 ==> AllDigits(IntToString(n))
  {
    var s := IntToString(n);
    var d := DigitsOf(if n < 0 then -n else n);
    assert s[|s| - 1] == d[|d| - 1];
    if n < 0 {
      assert s == "-" + d;
      assert forall i :: 0 < i < |s| ==> s[i] == d[i - 1];
    }
  }

  /** A token with no separator in it is read by parseSingle alone. */
  lemma ParseOneToken(s: string)
    requires TokenLength(s, Separators) == |s|
    ensures Parse(s) == (match ParseSingle(s) case Ok(p) => Ok(Single(p)) case Err(e) => Err(e))
  {
  }

  /** Several tokens make a multiple occurrence of the tokens' policies, in order. */
  lemma ParseSeveralTokens(value: string)
    requires |JavaSplit(value, Separators, true)| > 1
    ensures Parse(value).Ok? <==> forall i :: 0 <= i < |JavaSplit(value, Separators, true)| ==> ParseSingle(JavaSplit(value, Separators, true)[i]).Ok?
    ensures Parse(value).Ok? ==> (Parse(value).value.Multiple? &&
      forall i :: 0 <= i < |JavaSplit(value, Separators, true)| ==> ParseSingle(JavaSplit(value, Separators, true)[i]) == Ok(Parse(value).value.members[i]))
  {
  }

  /** "N-" is at most N, for every 32-bit N. */
  lemma ParseAtMost(n: int)
    requires MinInt <= n <= MaxInt
    ensures ParseSingle(IntToString(n) + "-") == Ok(AtMost(n))
  {
    var s := IntToString(n) + "-";
    assert s[..|s| - 1] == IntToString(n);
    ParseIntOfToString(n);
    IntToStringShape(n);
  }

  /** "0+" is Any, and every other "N+" is at least N. */
  lemma ParseAtLeast(n: int)
    requires MinInt <= n <= MaxInt
    ensures ParseSingle(IntToString(n) + "+") == Ok(if n == 0 then Any else AtLeast(n))
  {
    var s := IntToString(n) + "+";
    assert s[..|s| - 1] == IntToString(n);
    ParseIntOfToString(n);
    IntToStringShape(n);
  }

  /** A bare non-negative number N is exactly N. */
  lemma ParseExact(n: nat)
    requires n <= MaxInt
    ensures ParseSingle(IntToString(n)) == Ok(Exact(n))
  {
    var s := IntToString(n);
    IntToStringShape(n);
    DigitsHaveNoSeparator(s, {'-'});
    ParseIntOfToString(n);
  }

  /** A bare negative number is split at its sign into an empty first bound, which is rejected. */
  lemma ParseNegativeBareNumber(n: int)
    requires MinInt <= n < 0
    ensures ParseSingle(IntToString(n)) == Err(IllegalArgument)
  {
    var s := IntToString(n);
    var d := DigitsOf(-n);
    assert s == "-" + d;
    IntToStringShape(n);
    assert TokenLength(s, {'-'}) == 0;
    DigitsHaveNoSeparator(d, {'-'});
    assert s[1..] == d;
    assert SplitEach(s, {'-'}) == [""] + [d];
  }

  /** "N-M" for non-negative N and M is the range from N to M. */
  lemma ParseRange(a: nat, b: nat)
    requires a <= MaxInt && b <= MaxInt
    ensures ParseSingle(IntToString(a) + "-" + IntToString(b)) == Ok(Range(a, b))
  {
    var sa, sb := IntToString(a), IntToString(b);
    var s := sa + "-" + sb;
    IntToStringShape(a);
    IntToStringShape(b);
    DigitsHaveNoSeparator(sa, {'-'});
    DigitsHaveNoSeparator(sb, {'-'});
    assert s[|s| - 1] == sb[|sb| - 1];
    assert s != "?" && s != "*" && s != "+" && s[|s| - 1] != '-' && s[|s| - 1] != '+';
    assert s[..|sa|] == sa;
    assert TokenLength(s, {'-'}) == |sa| by {
      TokenLengthOfPrefix(sa, s, {'-'});
    }
    assert s[|sa| + 1..] == sb;
    assert SplitEach(sb, {'-'}) == [sb];
    assert SplitEach(s, {'-'}) == [sa, sb];
    assert StripTrailingEmpty([sa, sb]) == [sa, sb];
    assert JavaSplit(s, {'-'}, false) == [sa, sb];
    ParseIntOfToString(a);
    ParseIntOfToString(b);
    assert ParseInt(sa) == Ok(a) && ParseInt(sb) == Ok(b);
  }

  lemma {:induction false} TokenLengthOfPrefix(t: string, s: string, seps: set<char>)
    requires TokenLength(t, seps) == |t| && |t| < |s| && s[..|t|] == t && s[|t|] in seps
    ensures TokenLength(s, seps) == |t|
  {
    if |t| > 0 {
      assert s[1..][..|t| - 1] == t[1..];
      TokenLengthOfPrefix(t[1..], s[1..], seps);
    }
  }

  /** The text of an at-least policy parses back to the same policy; AtLeast(0) reads back as Any, which accepts the same counts. */
  lemma AtLeastToStringRoundTrip(min: int)
    requires MinInt <= min <= MaxInt
    ensures Parse(AtLeastToString(min)) == Ok(Single(if min == 0 then Any else AtLeast(min)))
  {
    var s := AtLeastToString(min);
    if min != 1 {
      ParseAtLeast(min);
      IntToStringShape(min);
      TokenLengthOfAppend(IntToString(min), '+', Separators);
    }
  }

  /** The text of an at-most policy parses back to the same policy. */
  lemma AtMostToStringRoundTrip(max: int)
    requires MinInt <= max <= MaxInt
    ensures Parse(AtMostToString(max)) == Ok(Single(AtMost(max)))
  {
    if max != 1 {
      ParseAtMost(max);
      IntToStringShape(max);
      TokenLengthOfAppend(IntToString(max), '-', Separators);
    }
  }

  lemma TokenLengthOfAppend(t: string, c: char, seps: set<char>)
    requires TokenLength(t, seps) == |t| && c !in seps
    ensures TokenLength(t + [c], seps) == |t| + 1
  {
    var s := t + [c];
  }

  /** Text made of separators only has no token, so reading the first one fails. */
  lemma ParseOnlySeparators()
    ensures Parse(" ") == Err(IndexOutOfBounds)
  {
    var s := " ";
    assert s[0] in Separators;
    assert TokenLength(s, Separators) == 0;
    assert RunLength(s[0..], Separators) == 1 by {
      assert s[0..][1..] == "";
    }
    assert s[1..] == "";
    assert SplitRuns(s, Separators) == [""] + SplitRuns("", Separators);
    assert StripTrailingEmpty(["", ""]) == [];
  }

  /** The empty text is a single empty token, which is not a number. */
  lemma ParseEmpty()
    ensures Parse("") == Err(IllegalArgument)
  {
  }
}
