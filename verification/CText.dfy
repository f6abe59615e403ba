/**
 Reading C string literals back: the translation phases of section 5.1.1.2 of ISO/IEC 9899:2011,
 trigraphs (5.2.1.1), escape sequences (6.4.4.4) and string literals (6.4.5). Source and execution
 characters are the same, and a character has 8 bits.
 */
module CText {
  import opened Wrappers

  // ---------- phases 1 and 2

  function Trigraph(c: char): Option<char> {
    match c
    case '=' => Some('#')
    case '(' => Some('[')
    case '/' => Some('\\')
    case ')' => Some(']')
    case '\'' => Some('^')
    case '<' => Some('{')
    case '!' => Some('|')
    case '>' => Some('}')
    case '-' => Some('~')
    case _ => None
  }

  function ReplaceTrigraphs(s: string): string {
    if s == [] then []
    else if |s| >= 3 && s[0] == '?' && s[1] == '?' && Trigraph(s[2]).Some? then
      [Trigraph(s[2]).value] + ReplaceTrigraphs(s[3..])
    else [s[0]] + ReplaceTrigraphs(s[1..])
  }

  function SpliceLines(s: string): string {
    if s == [] then []
    else if |s| >= 2 && s[0] == '\\' && s[1] == '\n' then SpliceLines(s[2..])
    else [s[0]] + SpliceLines(s[1..])
  }

  function Phases12(s: string): string {
    SpliceLines(ReplaceTrigraphs(s))
  }

  // ---------- escapes

  predicate IsOctal(c: char) {
    '0' <= c <= '7'
  }

  predicate IsHex(c: char) {
    '0' <= c <= '9' || 'a' <= c <= 'f' || 'A' <= c <= 'F'
  }

  function HexDigit(c: char): nat
    requires IsHex(c)
  {
    if c <= '9' then c as nat - '0' as nat
    else if c <= 'F' then c as nat - 'A' as nat + 10
    else c as nat - 'a' as nat + 10
  }

  function HexRun(s: string): (n: nat)
    ensures n <= |s| && forall i :: 0 <= i < n ==> IsHex(s[i])
  {
    if s == [] || !IsHex(s[0]) then 0 else 1 + HexRun(s[1..])
  }

  function HexValue(s: string): nat
    requires forall i :: 0 <= i < |s| ==> IsHex(s[i])
  {
    if s == [] then 0 else 16 * HexValue(s[..|s| - 1]) + HexDigit(s[|s| - 1])
  }

  /** The octal digits of an escape: at most three. */
  function OctalRun(s: string): (n: nat)
    ensures n <= 3 && n <= |s| && forall i :: 0 <= i < n ==> IsOctal(s[i])
  {
    if s == [] || !IsOctal(s[0]) then 0
    else if |s| == 1 || !IsOctal(s[1]) then 1
    else if |s| == 2 || !IsOctal(s[2]) then 2
    else 3
  }

  function OctalValue(s: string): nat
    requires forall i :: 0 <= i < |s| ==> IsOctal(s[i])
  {
    if s == [] then 0
    else
      var d := s[|s| - 1];
      assert IsOctal(d);
      8 * OctalValue(s[..|s| - 1]) + (d as nat - '0' as nat)
  }

  function Simple(c: char): Option<char> {
    match c
    case '\'' => Some('\'')
    case '"' => Some('"')
    case '?' => Some('?')
    case '\\' => Some('\\')
    case 'a' => Some('\U{7}')
    case 'b' => Some('\U{8}')
    case 'f' => Some('\U{C}')
    case 'n' => Some('\n')
    case 'r' => Some('\r')
    case 't' => Some('\t')
    case 'v' => Some('\U{B}')
    case _ => None
  }

  /** The value and length of the escape after a backslash; a value must fit a character. */
  function Escape(s: string): (r: Option<(char, nat)>)
    ensures r.Some? ==> 0 < r.value.1 <= |s|
  {
    if s == [] then None
    else if IsOctal(s[0]) then
      var n := OctalRun(s);
      var v := OctalValue(s[..n]);
      if v < 256 then Some((v as char, n)) else None
    else if s[0] == 'x' then
      var n := HexRun(s[1..]);
      var v := HexValue(s[1..][..n]);
      if n > 0 && v < 256 then Some((v as char, n + 1)) else None
    else
      var c := Simple(s[0]);
      if c.Some? then Some((c.value, 1)) else None
  }

  // ---------- string literals

  function SkipSpaces(s: string): (r: string)
    ensures |r| <= |s|
  {
    if s != [] && (s[0] == ' ' || s[0] == '\n' || s[0] == '\t') then SkipSpaces(s[1..]) else s
  }

  /**
   Reads on inside a string literal, through the literals adjacent to it: their joint characters and
   the text after them. Each literal's escapes are converted before the literals are joined.
   */
  function Literals(s: string): (r: Option<(string, string)>)
    ensures r.Some? ==> |r.value.1| < |s|
    decreases |s|
  {
    if s == [] || s[0] == '\n' then None
    else if s[0] == '"' then
      var t := SkipSpaces(s[1..]);
      if t != [] && t[0] == '"' then Literals(t[1..]) else Some(([], t))
    else if s[0] == '\\' then
      var e := Escape(s[1..]);
      if e.None? then None else Prefixed(e.value.0, Literals(s[1 + e.value.1..]))
    else Prefixed(s[0], Literals(s[1..]))
  }

  function Prefixed(c: char, r: Option<(string, string)>): Option<(string, string)> {
    match r
    case None => None
    case Some((v, t)) => Some(([c] + v, t))
  }

  /** The strings of an initialiser list in which every element is followed by a comma. */
  function Initialiser(s: string): Option<seq<string>>
    decreases |s|
  {
    var t := SkipSpaces(s);
    if t == [] then Some([])
    else if t[0] != '"' then None
    else
      match Literals(t[1..])
      case None => None
      case Some((v, u)) =>
        if u == [] || u[0] != ',' then None
        else
          var more := Initialiser(u[1..]);
          if more.None? then None else Some([v] + more.value)
  }

  /** Concatenation associates, in the two shapes that writing loops need. */
  lemma Append(start: string, a: string, b: string, c: string)
    ensures start + a + b == start + (a + b)
    ensures a + (b + c) == (a + b) + c
  {
  }

  // ---------- texts on which the first phases do nothing

  predicate NoTwoMarks(s: string) {
    forall i :: 0 <= i < |s| - 1 ==> !(s[i] == '?' && s[i + 1] == '?')
  }

  predicate OneLine(s: string) {
    '\n' !in s
  }

  lemma {:induction false} NoTrigraphs(s: string)
    requires NoTwoMarks(s)
    ensures ReplaceTrigraphs(s) == s
  {
    if s != [] {
      NoTrigraphs(s[1..]);
    }
  }

  lemma {:induction false} NothingSpliced(s: string)
    requires OneLine(s)
    ensures SpliceLines(s) == s
  {
    if s != [] {
      assert |s| >= 2 ==> s[1] in s;
      NothingSpliced(s[1..]);
    }
  }

  lemma PhasesKeep(s: string)
    requires NoTwoMarks(s) && OneLine(s)
    ensures Phases12(s) == s
  {
    NoTrigraphs(s);
    NothingSpliced(s);
  }
}
