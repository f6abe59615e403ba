/**
 The export scanner as a function of the characters still to be read (dcc/dcc_scan.c). A character
 that was pushed back is simply the first one to be read again.
 */
module Scan {
  import opened Wrappers

  /** What pushing back end-of-file leaves in the stream: its truncation to a byte. */
  const PHANTOM: char := '\U{FF}'

  /** A bound on the work left: the phantom byte is worth less than any byte that led to it. */
  function Measure(r: string): nat {
    if r == [PHANTOM] then 1 else 2 * |r|
  }

  function AtLeastOne(n: nat): nat {
    if n == 0 then 1 else n
  }

  /** Reads the expected characters; the first other one is pushed back. */
  function Exactly(r: string, expected: string): (res: (bool, string))
    ensures Measure(res.1) <= AtLeastOne(Measure(r))
    ensures res.0 && PHANTOM !in expected ==> r == expected + res.1
    decreases |expected|
  {
    if expected == [] then (true, r)
    else if r == [] then
      if expected[0] == PHANTOM then Exactly([], expected[1..]) else (false, [PHANTOM])
    else if r[0] == expected[0] then Exactly(r[1..], expected[1..])
    else (false, r)
  }

  /** The rest after the closing quote of an ordinary string literal. */
  function SkipString(r: string): (rest: string)
    ensures Measure(rest) <= Measure(r)
    decreases |r|
  {
    if r == [] then []
    else if r[0] == '"' then r[1..]
    else if r[0] == '\\' then if |r| == 1 then [] else SkipString(r[2..])
    else SkipString(r[1..])
  }

  const DELIM_SIZE := 17

  /** The delimiter with a quote in place of its parenthesis, in a buffer with the given room, and the rest. */
  function ReadDelim(r: string, room: nat): (res: (string, string))
    ensures |res.0| <= room
    ensures Measure(res.1) <= Measure(r)
    decreases room
  {
    if room == 0 then ([], r)
    else if r == [] then
      var (d, rest) := ReadDelim([], room - 1);
      ([PHANTOM] + d, rest)
    else if r[0] == '(' then ("\"", r[1..])
    else
      var (d, rest) := ReadDelim(r[1..], room - 1);
      ([r[0]] + d, rest)
  }

  /** The rest after the first `)` that the search finds followed by `delim`. */
  function FindClose(r: string, delim: string): (rest: string)
    ensures Measure(rest) <= Measure(r)
    decreases Measure(r)
  {
    if r == [] then []
    else if r[0] == ')' then
      var (ok, rest) := Exactly(r[1..], delim);
      if ok then rest else FindClose(rest, delim)
    else FindClose(r[1..], delim)
  }

  function SkipRawString(r: string): (rest: string)
    ensures Measure(rest) <= Measure(r)
  {
    var (delim, s) := ReadDelim(r, DELIM_SIZE);
    FindClose(s, delim)
  }

  predicate IsBlank(c: char) {
    c <= ' '
  }

  function FirstPrintable(r: string): (res: (Option<char>, string))
    ensures Measure(res.1) <= Measure(r)
    ensures |res.1| <= |r|
    decreases |r|
  {
    if r == [] then (None, [])
    else if !IsBlank(r[0]) then (Some(r[0]), r[1..])
    else FirstPrintable(r[1..])
  }

  predicate IsIdentStart(c: char) {
    c == '$' || 'A' <= c <= 'Z' || c == '_' || 'a' <= c <= 'z' || c as int >= 0x80
  }

  predicate IsIdentChar(c: char) {
    IsIdentStart(c) || '0' <= c <= '9'
  }

  function IdentRun(r: string): (n: nat)
    ensures n <= |r|
    ensures forall i :: 0 <= i < n ==> IsIdentChar(r[i])
    ensures n < |r| ==> !IsIdentChar(r[n])
  {
    if r == [] || !IsIdentChar(r[0]) then 0 else 1 + IdentRun(r[1..])
  }

  /** A run of identifier characters before something else. */
  lemma {:induction false} RunStops(t: string, r: string)
    requires forall i :: 0 <= i < |t| ==> IsIdentChar(t[i])
    requires r == [] || !IsIdentChar(r[0])
    ensures IdentRun(t + r) == |t|
  {
    if t == [] {
      assert t + r == r;
    } else {
      assert (t + r)[1..] == t[1..] + r;
      RunStops(t[1..], r);
    }
  }

  datatype Ident = NoIdent | Ident(name: string, rest: string)

  /** An identifier after blanks; it must be followed by another character. */
  function ScanIdent(r: string): (res: Ident)
    ensures res.Ident? ==> |res.rest| < |r|
  {
    var (c, s) := FirstPrintable(r);
    if c.None? || !IsIdentStart(c.value) then NoIdent
    else
      var n := IdentRun(s);
      if n == |s| then NoIdent else Ident([c.value] + s[..n], s[n..])
  }

  predicate HasDoubleUnderscore(s: string) {
    exists i :: 0 <= i < |s| - 1 && s[i] == '_' && s[i + 1] == '_'
  }

  datatype Found = NotHere(rest: string) | Bad | Export(name: string, rest: string) | End

  /** What follows the `d` of a possible `doarr :: exported NAME (`. */
  function ScanExport(r: string): (res: Found)
    ensures res.NotHere? ==> Measure(res.rest) <= AtLeastOne(Measure(r))
    ensures res.Export? ==> |res.rest| < |r|
    ensures !res.End?
  {
    var (ok1, r1) := Exactly(r, "oarr");
    if !ok1 then NotHere(r1)
    else
      var (c1, r2) := FirstPrintable(r1);
      if c1 != Some(':') then NotHere(r2)
      else
        var (c2, r3) := FirstPrintable(r2);
        if c2 != Some(':') then NotHere(r3)
        else
          var (c3, r4) := FirstPrintable(r3);
          if c3 != Some('e') then NotHere(r4) else ScanName(r4)
  }

  /** What follows the `e` of `exported`. */
  function ScanName(r: string): (res: Found)
    ensures res.NotHere? ==> Measure(res.rest) <= AtLeastOne(Measure(r))
    ensures res.Export? ==> |res.rest| < |r|
    ensures !res.End?
  {
    var (ok, r1) := Exactly(r, "xported");
    if !ok then NotHere(r1)
    else
      match ScanIdent(r1)
      case NoIdent => Bad
      case Ident(name, r2) =>
        if HasDoubleUnderscore(name) then Bad
        else
          var (c, r3) := FirstPrintable(r2);
          if c != Some('(') then Bad else Export(name, r3)
  }

  /** The scan from a point where the last relevant character was `prev`. */
  function Scan(r: string, prev: char): (res: Found)
    ensures !res.NotHere?
    ensures res.Export? ==> Measure(res.rest) < Measure(r)
    decreases Measure(r)
  {
    if r == [] then End
    else if r[0] == '"' then Scan(SkipString(r[1..]), '"')
    else if r[0] == 'R' then
      if |r| > 1 && r[1] == '"' then Scan(SkipRawString(r[2..]), '"')
      else Scan(if |r| == 1 then [] else r[2..], 'R')
    else if r[0] == 'd' then
      if IsIdentChar(prev) then Scan(r[1..], prev)
      else
        var f := ScanExport(r[1..]);
        if f.NotHere? then Scan(f.rest, prev) else f
    else Scan(r[1..], r[0])
  }

  /** The names that repeated scans return before the end, or nothing after an error. */
  function Names(r: string, broken: bool): Option<seq<string>>
    decreases Measure(r)
  {
    match Scan(r, ' ')
    case End => if broken then None else Some([])
    case Export(name, rest) =>
      var more := Names(rest, broken);
      if more.None? then None else Some([name] + more.value)
    case _ => None
  }
}
