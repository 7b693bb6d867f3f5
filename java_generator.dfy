/**
 * The string plumbing of RuleJavaGenerator: how a string becomes a Java
 * string literal in the generated source (getConstantExpression,
 * appendConstantExpression, toEscapedCharacter), and how a class name
 * splits into the package declaration and the simple name.
 *
 * A Java string is a sequence of UTF-16 code units, each modelled as a
 * `Unit` in [0, 0x10000); the generated source text is a Dafny `string`.
 */
module JavaGenerator {
  import opened Wrappers

  /** A Java char: one UTF-16 code unit. */
  newtype Unit = x: int | 0 <= x < 0x1_0000

  /** The digit String.format's %x writes for `d`, in lower case. */
  function HexDigit(d: int): (c: char)
    requires 0 <= d < 16
    ensures ('0' <= c <= '9') || ('a' <= c <= 'f')
    ensures HexValue(c) == Some(d)
  {
    if d < 10 then ('0' as int + d) as char else ('a' as int + d - 10) as char
  }

  /** The value of a hex digit of either case, as a Java \u escape reads it. */
  function HexValue(c: char): (r: Option<int>)
    ensures r.Some? <==> ('0' <= c <= '9') || ('a' <= c <= 'f') || ('A' <= c <= 'F')
    ensures r.Some? ==> 0 <= r.value < 16
  {
    if '0' <= c <= '9' then Some(c as int - '0' as int)
    else if 'a' <= c <= 'f' then Some(c as int - 'a' as int + 10)
    else if 'A' <= c <= 'F' then Some(c as int - 'A' as int + 10)
    else None
  }

  /** The four hex digits of a \u escape, read as one code unit. */
  function HexUnit(d: string): (r: Option<Unit>)
    requires |d| == 4
  {
    match (HexValue(d[0]), HexValue(d[1]), HexValue(d[2]), HexValue(d[3]))
    case (Some(a), Some(b), Some(c), Some(e)) => Some((a * 4096 + b * 256 + c * 16 + e) as Unit)
    case _ => None
  }

  /** The four lower-case hex digits String.format("%04x") writes for a code unit. */
  function Hex4(u: Unit): (r: string)
    ensures |r| == 4 && HexUnit(r) == Some(u)
    ensures forall c :: c in r ==> ('0' <= c <= '9') || ('a' <= c <= 'f')
  {
    var x := u as int;
    var low := x % 4096;
    var lower := low % 256;
    assert x == x / 4096 * 4096 + low && low == low / 256 * 256 + lower && lower == lower / 16 * 16 + lower % 16;
    [HexDigit(x / 4096), HexDigit(low / 256), HexDigit(lower / 16), HexDigit(lower % 16)]
  }

  /**
   * toEscapedCharacter: printable ASCII stands for itself except the
   * quote, the double quote and the backslash, which get a backslash;
   * backspace, form feed, newline, carriage return and tab get their short
   * escapes; every other code unit becomes \u and four lower-case hex
   * digits.
   */
  function Escaped(ch: Unit): (r: string)
    ensures |r| == 1 || |r| == 2 || |r| == 6
    ensures forall c :: c in r ==> ' ' <= c <= '~'
    ensures |r| == 1 <==> 32 <= ch <= 126 && ch != 39 && ch != 34 && ch != 92
  {
    if 32 <= ch <= 126 then
      if ch == 39 then "\\'"
      else if ch == 34 then "\\\""
      else if ch == 92 then "\\\\"
      else [ch as int as char]
    else if ch == 8 then "\\b"
    else if ch == 12 then "\\f"
    else if ch == 10 then "\\n"
    else if ch == 13 then "\\r"
    else if ch == 9 then "\\t"
    else "\\u" + Hex4(ch)
  }

  /** The escapes of the code units of `s`, in order. */
  function EscapedAll(s: seq<Unit>): (r: string)
    ensures forall c :: c in r ==> ' ' <= c <= '~'
  {
    if s == [] then [] else Escaped(s[0]) + EscapedAll(s[1..])
  }

  /** The literal getConstantExpression returns: the escapes between double quotes. */
  function Quoted(s: seq<Unit>): string {
    "\"" + EscapedAll(s) + "\""
  }

  /** Escaping a longer string appends the escape of the new last unit. */
  lemma {:induction false} EscapedAllSnoc(s: seq<Unit>, u: Unit)
    ensures EscapedAll(s + [u]) == EscapedAll(s) + Escaped(u)
    decreases |s|
  {
    if s == [] {
      assert [u][1..] == [];
    } else {
      assert (s + [u])[1..] == s[1..] + [u];
      EscapedAllSnoc(s[1..], u);
    }
  }

  /**
   * appendConstantExpression: appends to `buf` a double quote, the escape
   * of each unit of `s` in turn, and a closing double quote.
   */
  method AppendConstantExpression(s: seq<Unit>, buf: string) returns (r: string)
    ensures r == buf + Quoted(s)
  {
    r := buf + "\"";
    var i := 0;
    while i < |s|
      invariant 0 <= i <= |s|
      invariant r == buf + "\"" + EscapedAll(s[..i])
    {
      ghost var done := EscapedAll(s[..i]);
      EscapedAllSnoc(s[..i], s[i]);
      assert s[..i + 1] == s[..i] + [s[i]];
      r := r + Escaped(s[i]);
      assert r == buf + "\"" + (done + Escaped(s[i]));
      i := i + 1;
    }
    assert s[..|s|] == s;
    r := r + "\"";
  }

  /** getConstantExpression: a Java literal that a compiler reads back as `s`. */
  method GetConstantExpression(s: seq<Unit>) returns (r: string)
    ensures ReadLiteral(r) == Some(s)
    ensures forall c :: c in r ==> ' ' <= c <= '~'
  {
    r := AppendConstantExpression(s, "");
    assert r == Quoted(s);
    LiteralRoundTrip(s);
  }

  // ----- reading a Java string literal back -----

  /** The unit a short escape \b \t \n \f \r \" \' \\ stands for. */
  function ShortEscape(c: char): (r: Option<Unit>) {
    if c == 'b' then Some(8)
    else if c == 't' then Some(9)
    else if c == 'n' then Some(10)
    else if c == 'f' then Some(12)
    else if c == 'r' then Some(13)
    else if c == '"' then Some(34)
    else if c == '\'' then Some(39)
    else if c == '\\' then Some(92)
    else None
  }

  function Prepend(u: Unit, rest: Option<seq<Unit>>): (r: Option<seq<Unit>>)
    ensures r.Some? <==> rest.Some?
    ensures r.Some? ==> r.value == [u] + rest.value
  {
    if rest.Some? then Some([u] + rest.value) else None
  }

  /**
   * The code units the text between the quotes of a Java string literal
   * stands for (sections 3.3 and 3.10.5 to 3.10.7 of the Java Language
   * Specification): a bare double quote or line terminator ends or breaks
   * the literal; a backslash starts a short escape or a \u escape. A \u
   * escape of a double quote, backslash or line terminator is refused,
   * since Java translates it before reading the literal. Octal escapes and
   * \u with several u's are not read.
   */
  function Unescape(t: string): (r: Option<seq<Unit>>)
    decreases |t|
  {
    if t == [] then Some([])
    else if t[0] == '\\' then
      if |t| < 2 then None
      else if ShortEscape(t[1]).Some? then Prepend(ShortEscape(t[1]).value, Unescape(t[2..]))
      else if t[1] == 'u' && |t| >= 6 then
        match HexUnit(t[2..6])
        case Some(u) => if u in {10, 13, 34, 92} then None else Prepend(u, Unescape(t[6..]))
        case None => None
      else None
    else if t[0] == '"' || t[0] == '\n' || t[0] == '\r' || t[0] as int >= 0x1_0000 then None
    else Prepend(t[0] as int as Unit, Unescape(t[1..]))
  }

  /** A whole literal: a double quote, a body, and a closing double quote. */
  function ReadLiteral(t: string): (r: Option<seq<Unit>>) {
    if |t| >= 2 && t[0] == '"' && t[|t| - 1] == '"' then Unescape(t[1..|t| - 1]) else None
  }

  /** Reading an escape followed by more text yields its unit, then what the rest yields. */
  lemma UnescapeEscaped(u: Unit, rest: string)
    ensures Unescape(Escaped(u) + rest) == Prepend(u, Unescape(rest))
  {
    var e := Escaped(u);
    if |e| == 1 {
      UnescapePlain(u, rest);
    } else if |e| == 2 {
      UnescapeShort(u, rest);
    } else {
      UnescapeHex(u, rest);
    }
  }

  /** A printable unit written as itself reads back as itself. */
  lemma UnescapePlain(u: Unit, rest: string)
    requires 32 <= u <= 126 && u != 39 && u != 34 && u != 92
    ensures Unescape(Escaped(u) + rest) == Prepend(u, Unescape(rest))
  {
    var t := Escaped(u) + rest;
    assert t[0] == u as int as char && t[1..] == rest;
  }

  /** A unit written as a short escape reads back as itself. */
  lemma UnescapeShort(u: Unit, rest: string)
    requires |Escaped(u)| == 2
    ensures Unescape(Escaped(u) + rest) == Prepend(u, Unescape(rest))
  {
    var e := Escaped(u);
    var t := e + rest;
    assert t[0] == '\\' && t[1] == e[1] && t[2..] == rest;
    assert ShortEscape(e[1]) == Some(u);
  }

  /** A unit written as a \u escape reads back as itself. */
  lemma UnescapeHex(u: Unit, rest: string)
    requires |Escaped(u)| == 6
    ensures Unescape(Escaped(u) + rest) == Prepend(u, Unescape(rest))
  {
    var t := Escaped(u) + rest;
    assert Escaped(u) == "\\u" + Hex4(u);
    assert t[0] == '\\' && t[1] == 'u' && t[2..6] == Hex4(u) && t[6..] == rest;
    assert !(u in {10, 13, 34, 92});
  }

  /** Reading the escapes of `s` gives `s` back. */
  lemma {:induction false} UnescapeEscapedAll(s: seq<Unit>)
    ensures Unescape(EscapedAll(s)) == Some(s)
    decreases |s|
  {
    if s != [] {
      UnescapeEscapedAll(s[1..]);
      UnescapeEscaped(s[0], EscapedAll(s[1..]));
      assert [s[0]] + s[1..] == s;
    }
  }

  /** A Java compiler reads the literal getConstantExpression writes as the original string. */
  lemma LiteralRoundTrip(s: seq<Unit>)
    ensures ReadLiteral(Quoted(s)) == Some(s)
  {
    var q := Quoted(s);
    assert q[1..|q| - 1] == EscapedAll(s);
    UnescapeEscapedAll(s);
  }

  // ----- the package declaration -----

  /** String.lastIndexOf(char): the last position of `c` in `s`, or -1. */
  function LastIndexOf(s: string, c: char): (r: int)
    ensures -1 <= r < |s|
    ensures r >= 0 ==> s[r] == c
    ensures forall k :: r < k < |s| ==> s[k] != c
  {
    if s == [] then -1
    else if s[|s| - 1] == c then |s| - 1
    else LastIndexOf(s[..|s| - 1], c)
  }

  /** Cutting after the last dot: what follows holds no dot, and without a dot nothing is cut. */
  lemma NoDotAfterLast(s: string, dot: int)
    requires -1 <= dot < |s| && (dot >= 0 ==> s[dot] == '.')
    requires forall k :: dot < k < |s| ==> s[k] != '.'
    ensures '.' !in s[dot + 1..]
    ensures dot < 0 <==> '.' !in s
  {
    var simple := s[dot + 1..];
    forall k | 0 <= k < |simple|
      ensures simple[k] != '.'
    {
      assert simple[k] == s[dot + 1 + k];
    }
  }

  /** A text is what precedes a dot in it, the dot, and what follows. */
  lemma JoinAtDot(s: string, dot: nat)
    requires dot < |s| && s[dot] == '.'
    ensures s[..dot] + "." + s[dot + 1..] == s
  {
    assert s == s[..dot] + [s[dot]] + s[dot + 1..];
  }

  /**
   * appendPackageDeclarationGetSimpleName: the class name split at its
   * last dot into the package and the simple name; no dot, no package.
   */
  function SplitClassName(classname: string): (r: (Option<string>, string))
    ensures '.' !in r.1
    ensures r.0.None? <==> '.' !in classname
    ensures r.0.None? ==> r.1 == classname
    ensures r.0.Some? ==> r.0.value + "." + r.1 == classname
  {
    var dot := LastIndexOf(classname, '.');
    NoDotAfterLast(classname, dot);
    if dot < 0 then
      assert classname[dot + 1..] == classname;
      (None, classname)
    else
      JoinAtDot(classname, dot);
      (Some(classname[..dot]), classname[dot + 1..])
  }

  /** The text appended before the class: "package <pkg>;" and a blank line, or nothing. */
  function PackageDeclaration(pkg: Option<string>): string {
    match pkg
    case None => ""
    case Some(p) => "package " + p + ";\n\n"
  }
}
