/**
 What the scanner finds in a text made of literals, words, uses of `doarr` and other characters: exactly
 its exports (dcc/dcc_scan.c, lines 12-43 and 77-165).
 */
module ScanPieces {
  import opened Wrappers
  import opened Scan

  // ---------- the texts

  /**
   `Gap` is a character that is no part of any other piece; `Word` a run of identifier characters. The
   blanks of an export stand, in order, around both colons and around the name. The next three are other
   uses of `doarr`: by itself, before one colon, and before two; `w` is the word or character after it. The
   last is a word that ends in an odd number of `R`, with the character after it.
   */
  datatype Piece =
    | Gap(c: char)
    | Word(w: string)
    | Str(body: string)
    | RawStr(delim: string, content: string)
    | Exp(b1: string, b2: string, b3: string, b4: string, name: string, b5: string)
    | Bare(b1: string, w: string)
    | Label(b1: string, b2: string, w: string)
    | Member(b1: string, b2: string, b3: string, w: string)
    | OddWord(w: string, c: char)

  predicate AllBlank(s: string) {
    forall i :: 0 <= i < |s| ==> IsBlank(s[i])
  }

  predicate IsName(s: string) {
    && s != [] && IsIdentStart(s[0])
    && (forall i :: 0 <= i < |s| ==> IsIdentChar(s[i]))
    && !HasDoubleUnderscore(s)
  }

  /** Complete escapes and characters other than quotes and backslashes. */
  predicate IsStringBody(s: string) {
    s == [] ||
    (if s[0] == '\\' then |s| > 1 && IsStringBody(s[2..]) else s[0] != '"' && IsStringBody(s[1..]))
  }

  function Closer(delim: string): string {
    ")" + delim + "\""
  }

  /** The first place in `s` where `closer` occurs. */
  function FirstAt(s: string, closer: string): (r: Option<nat>)
    ensures r.Some? ==> r.value + |closer| <= |s|
  {
    if closer <= s then Some(0)
    else if s == [] then None
    else Shift(FirstAt(s[1..], closer), 1)
  }

  function Shift(at: Option<nat>, n: nat): Option<nat> {
    match at
    case None => None
    case Some(i) => Some(i + n)
  }

  predicate IsDelim(delim: string) {
    |delim| <= 16 && '(' !in delim && ')' !in delim
  }

  function TrailingRs(w: string): (n: nat)
    ensures n <= |w|
  {
    if w == [] || w[|w| - 1] != 'R' then 0 else 1 + TrailingRs(w[..|w| - 1])
  }

  predicate AllIdent(w: string) {
    forall i :: 0 <= i < |w| ==> IsIdentChar(w[i])
  }

  /**
   Words without `doarr`. After an `R` the scanner takes the next character with it, which is one outside the
   word when the word ends in an odd number of them.
   */
  predicate IsPlainWord(w: string) {
    w != [] && AllIdent(w) && TrailingRs(w) % 2 == 0 && NoFactor(w, "doarr")
  }

  /** A character that is not taken for a part of something else, or a word; the scanner reads its start. */
  predicate IsAfterUse(w: string) {
    || (|w| == 1 && !IsIdentChar(w[0]) && !IsBlank(w[0]) && w[0] != '"')
    || (IsPlainWord(w) && w[0] != 'R')
  }

  predicate NoFactor(w: string, f: string) {
    forall i :: 0 <= i <= |w| ==> !(f <= w[i..])
  }

  predicate IsPiece(p: Piece) {
    match p
    case Gap(c) => !IsIdentChar(c) && c != '"'
    case Word(w) => IsPlainWord(w)
    case Str(body) => IsStringBody(body)
    case RawStr(delim, content) =>
      IsDelim(delim) && FirstAt(content + Closer(delim), Closer(delim)) == Some(|content|)
    case Exp(b1, b2, b3, b4, name, b5) =>
      AllBlank(b1) && AllBlank(b2) && AllBlank(b3) && AllBlank(b4) && b4 != [] && IsName(name) && AllBlank(b5)
    case Bare(b1, w) => AllBlank(b1) && IsAfterUse(w) && w[0] != ':'
    case Label(b1, b2, w) => AllBlank(b1) && AllBlank(b2) && IsAfterUse(w) && w[0] != ':'
    case Member(b1, b2, b3, w) =>
      AllBlank(b1) && AllBlank(b2) && AllBlank(b3) && IsAfterUse(w) && !("exported" <= w)
    case OddWord(w, c) =>
      AllIdent(w) && TrailingRs(w) % 2 == 1 && NoFactor(w, "doarr") && !IsIdentChar(c) && c != '"'
  }

  /** A piece that the scanner takes for an export; it does not insist on a blank before the name. */
  predicate IsFoundExport(p: Piece) {
    && p.Exp? && AllBlank(p.b1) && AllBlank(p.b2) && AllBlank(p.b3) && AllBlank(p.b4) && AllBlank(p.b5)
    && IsName(p.name)
  }

  function Text(p: Piece): string {
    match p
    case Gap(c) => [c]
    case Word(w) => w
    case Str(body) => "\"" + body + "\""
    case RawStr(delim, content) => "R\"" + delim + "(" + content + Closer(delim)
    case Exp(b1, b2, b3, b4, name, b5) => "doarr" + ExpTail(b1, b2, b3, b4, name, b5, "")
    case Bare(b1, w) => "doarr" + (b1 + w)
    case Label(b1, b2, w) => "doarr" + (b1 + (":" + (b2 + w)))
    case Member(b1, b2, b3, w) => "doarr" + (b1 + (":" + (b2 + (":" + (b3 + w)))))
    case OddWord(w, c) => w + [c]
  }

  function ExpTail(b1: string, b2: string, b3: string, b4: string, name: string, b5: string, rest: string): string {
    b1 + (":" + (b2 + (":" + (b3 + ("exported" + (b4 + (name + (b5 + ("(" + rest)))))))))
  }

  function Source(ps: seq<Piece>): string {
    if ps == [] then [] else Text(ps[0]) + Source(ps[1..])
  }

  predicate IsUse(p: Piece) {
    p.Bare? || p.Label? || p.Member?
  }

  predicate StartsWord(p: Piece) {
    p.Word? || p.Exp? || IsUse(p) || p.OddWord?
  }

  predicate LeavesWord(p: Piece) {
    p.Word? || (IsUse(p) && p.w != [] && IsIdentChar(p.w[0]))
  }

  /** What stands before a piece: a word that goes on to it, an odd word's character, or something else. */
  datatype Before = Other | InWord | Deaf

  function After(p: Piece): Before {
    if LeavesWord(p) then InWord else if p.OddWord? then Deaf else Other
  }

  /**
   All pieces are well formed, but for exports without a blank before the name; no piece that starts with a
   word follows a word directly; and after an odd word an export has a blank before a plain name.
   */
  predicate IsSource(ps: seq<Piece>, before: Before) {
    ps == [] ||
    (&& (IsPiece(ps[0]) || IsFoundExport(ps[0]))
     && (before.InWord? ==> !StartsWord(ps[0]))
     && (before.Deaf? && ps[0].Exp? ==> IsPiece(ps[0]) && IsPlainWord(ps[0].name))
     && IsSource(ps[1..], After(ps[0])))
  }

  function ExportNames(ps: seq<Piece>): seq<string> {
    if ps == [] then []
    else (if ps[0].Exp? then [ps[0].name] else []) + ExportNames(ps[1..])
  }

  /** The names of the exports but those directly after an odd word. */
  function HeardNames(ps: seq<Piece>, before: Before): (names: seq<string>)
    ensures |names| <= |ExportNames(ps)|
  {
    if ps == [] then []
    else (if ps[0].Exp? && !before.Deaf? then [ps[0].name] else []) + HeardNames(ps[1..], After(ps[0]))
  }

  // ---------- raw strings: one pass finds the first closing sequence

  lemma PrefixByTail(e: string, s: string)
    requires e != [] && s != [] && e[0] == s[0]
    ensures e <= s <==> e[1..] <= s[1..]
  {
    assert e == [e[0]] + e[1..] && s == [s[0]] + s[1..];
  }

  /** A failed comparison stops in the text, having passed only characters of the expected string. */
  lemma {:induction false} ExactlyFails(s: string, e: string) returns (j: nat)
    requires !(e <= s) && e != [] && e[|e| - 1] != PHANTOM
    ensures !Exactly(s, e).0
    ensures j <= |s| && j < |e| && s[..j] == e[..j]
    ensures Exactly(s, e).1 == s[j..] || (j == |s| && Exactly(s, e).1 == [PHANTOM])
    decreases |e|
  {
    if s == [] {
      j := 0;
      if e[0] == PHANTOM {
        var k := ExactlyFails([], e[1..]);
      }
    } else if s[0] == e[0] {
      PrefixByTail(e, s);
      assert e[1..] != [];
      var k := ExactlyFails(s[1..], e[1..]);
      j := k + 1;
      assert s[..j] == [s[0]] + s[1..][..k] && e[..j] == [e[0]] + e[1..][..k];
      assert s[1..][k..] == s[j..];
    } else {
      j := 0;
    }
  }

  lemma {:induction false} ExactlySucceeds(e: string, r: string)
    ensures Exactly(e + r, e) == (true, r)
    decreases |e|
  {
    if e == [] {
      assert e + r == r;
    } else {
      assert (e + r)[1..] == e[1..] + r;
      ExactlySucceeds(e[1..], r);
    }
  }

  lemma FirstAtNext(s: string, closer: string)
    requires s != [] && closer != [] && s[0] != closer[0]
    ensures FirstAt(s, closer) == Shift(FirstAt(s[1..], closer), 1)
  {
    PrefixChars(closer, s);
  }

  /** Skipping characters none of which is a parenthesis skips no closing sequence. */
  lemma {:induction false} FirstAtSkips(s: string, closer: string, j: nat)
    requires j <= |s| && closer != [] && closer[0] == ')' && ')' !in s[..j]
    ensures FirstAt(s, closer) == Shift(FirstAt(s[j..], closer), j)
    decreases j
  {
    hide FirstAt;
    if j == 0 {
      assert s[0..] == s;
    } else {
      var t := s[1..];
      assert s[..j] == [s[0]] + t[..j - 1];
      FirstAtNext(s, closer);
      FirstAtSkips(t, closer, j - 1);
      assert t[j - 1..] == s[j..];
    }
  }

  /** What remains after the first closing sequence, or nothing when there is none. */
  function AfterFirst(s: string, closer: string): string {
    match FirstAt(s, closer)
    case None => []
    case Some(i) => s[i + |closer|..]
  }

  /** The one-pass search, which never goes back, stops just after the first closing sequence. */
  lemma {:induction false} RawSearchIsFirst(s: string, delim: string)
    requires '(' !in delim && ')' !in delim
    ensures FindClose(s, delim + "\"") == AfterFirst(s, Closer(delim))
    decreases |s|
  {
    var expected, closer := delim + "\"", Closer(delim);
    assert closer == ")" + expected;
    if s == [] {
    } else if s[0] != ')' {
      RawSearchIsFirst(s[1..], delim);
      assert s[..1] == [s[0]];
      ShiftFirst(s, closer, 1);
    } else if expected <= s[1..] {
      var r := s[1..][|expected|..];
      assert s[1..] == expected + r;
      ExactlySucceeds(expected, r);
      assert closer <= s by {
        assert s[..|closer|] == closer;
      }
      assert s[|closer|..] == r;
    } else {
      RawSearchMisses(s, delim);
    }
  }

  lemma {:induction false} RawSearchMisses(s: string, delim: string)
    requires '(' !in delim && ')' !in delim
    requires s != [] && s[0] == ')' && !(delim + "\"" <= s[1..])
    ensures FindClose(s, delim + "\"") == AfterFirst(s, Closer(delim))
    decreases |s|, 0
  {
    hide Exactly, FirstAt, AfterFirst;
    var expected, closer, t := delim + "\"", Closer(delim), s[1..];
    var j := ExactlyFails(t, expected);
    PartialMatch(t, expected, delim, j);
    ShiftFirst(t, closer, j);
    NotHereButNext(s, delim);
    var rest := Exactly(t, expected).1;
    assert FindClose(s, expected) == FindClose(rest, expected);
    if rest == t[j..] {
      RawSearchIsFirst(t[j..], delim);
    } else {
      PhantomIsNothing(expected, closer);
      assert t[j..] == [];
    }
  }

  /** What a failed comparison passed is part of the delimiter. */
  lemma PartialMatch(t: string, expected: string, delim: string, j: nat)
    requires expected == delim + "\"" && ')' !in delim
    requires j <= |t| && j < |expected| && t[..j] == expected[..j]
    ensures ')' !in t[..j]
  {
    assert forall i :: 0 <= i < j ==> t[..j][i] == expected[..j][i] == delim[i];
  }

  lemma NotHereButNext(s: string, delim: string)
    requires s != [] && s[0] == ')' && !(delim + "\"" <= s[1..])
    ensures FirstAt(s, Closer(delim)) == Shift(FirstAt(s[1..], Closer(delim)), 1)
    ensures AfterFirst(s, Closer(delim)) == AfterFirst(s[1..], Closer(delim))
  {
    var closer := Closer(delim);
    assert closer[1..] == delim + "\"";
    PrefixByTail(closer, s);
    var at := FirstAt(s[1..], closer);
    if at.Some? {
      assert s[1..][at.value + |closer|..] == s[at.value + 1 + |closer|..];
    }
  }

  lemma PhantomIsNothing(expected: string, closer: string)
    requires closer != []
    ensures FindClose([PHANTOM], expected) == AfterFirst([], closer) == []
  {
    assert FindClose([PHANTOM], expected) == FindClose([], expected);
  }

  lemma ShiftFirst(s: string, closer: string, j: nat)
    requires j <= |s| && closer != [] && closer[0] == ')' && ')' !in s[..j]
    ensures AfterFirst(s, closer) == AfterFirst(s[j..], closer)
  {
    hide FirstAt;
    FirstAtSkips(s, closer, j);
    var at := FirstAt(s[j..], closer);
    if at.Some? {
      assert s[j..][at.value + |closer|..] == s[at.value + j + |closer|..];
    }
  }

  lemma {:induction false} DelimReads(delim: string, r: string, room: nat)
    requires '(' !in delim && |delim| < room
    ensures ReadDelim(delim + "(" + r, room) == (delim + "\"", r)
    decreases |delim|
  {
    var s := delim + "(" + r;
    if delim == [] {
      assert s[1..] == r;
      assert delim + "\"" == "\"";
    } else {
      assert s[1..] == delim[1..] + "(" + r;
      assert s[0] == delim[0];
      DelimReads(delim[1..], r, room - 1);
      assert delim + "\"" == [delim[0]] + (delim[1..] + "\"");
    }
  }

  /** Of a longer one only the first characters are read, and no quote. */
  lemma {:induction false} DelimCut(r: string, room: nat)
    requires room <= |r| && '(' !in r[..room]
    ensures ReadDelim(r, room) == (r[..room], r[room..])
    decreases room
  {
    if room > 0 {
      DelimCut(r[1..], room - 1);
      assert r[..room] == [r[0]] + r[1..][..room - 1];
    }
  }

  /** Without a parenthesis among 17 characters they are what the search looks for after a parenthesis. */
  lemma LongDelim(head: string, r: string)
    requires |head| == 17 && '(' !in head
    ensures SkipRawString(head + r) == FindClose(r, head)
  {
    assert (head + r)[..17] == head && (head + r)[17..] == r;
    DelimCut(head + r, 17);
  }

  /** The first closing sequence does not depend on what follows it. */
  lemma {:induction false} FirstAtPrefix(s: string, t: string, closer: string)
    requires closer != [] && FirstAt(s, closer).Some?
    ensures FirstAt(s + t, closer) == FirstAt(s, closer)
    decreases |s|
  {
    var i := FirstAt(s, closer).value;
    if closer <= s {
      assert (s + t)[..|closer|] == s[..|closer|];
      assert closer <= s + t;
    } else {
      assert (s + t)[1..] == s[1..] + t;
      FirstAtPrefix(s[1..], t, closer);
      assert |closer| <= |s|;
      assert (s + t)[..|closer|] == s[..|closer|];
    }
  }

  lemma RawStringSkipped(delim: string, content: string, rest: string)
    requires IsPiece(RawStr(delim, content))
    ensures SkipRawString(delim + "(" + (content + Closer(delim) + rest)) == rest
  {
    var s := content + Closer(delim);
    DelimReads(delim, s + rest, DELIM_SIZE);
    RawSearchIsFirst(s + rest, delim);
    FirstAtPrefix(s, rest, Closer(delim));
    assert (s + rest)[|content| + |Closer(delim)|..] == rest;
  }

  // ---------- the other pieces

  lemma {:induction false} StringSkipped(body: string, rest: string)
    requires IsStringBody(body)
    ensures SkipString(body + "\"" + rest) == rest
    decreases |body|
  {
    var s := body + "\"" + rest;
    if body == [] {
      assert s[1..] == rest;
    } else if body[0] == '\\' {
      assert s[2..] == body[2..] + "\"" + rest;
      StringSkipped(body[2..], rest);
    } else {
      assert s[1..] == body[1..] + "\"" + rest;
      StringSkipped(body[1..], rest);
    }
  }

  lemma {:induction false} BlanksSkipped(b: string, r: string)
    requires AllBlank(b) && r != [] && !IsBlank(r[0])
    ensures FirstPrintable(b + r) == (Some(r[0]), r[1..])
    decreases |b|
  {
    if b == [] {
      assert b + r == r;
    } else {
      assert (b + r)[1..] == b[1..] + r;
      BlanksSkipped(b[1..], r);
    }
  }

  /** A well-formed export is recognised, its name returned, and reading goes on after its parenthesis. */
  lemma ExportRecognised(p: Piece, rest: string)
    requires IsFoundExport(p)
    ensures ScanExport("oarr" + ExpTail(p.b1, p.b2, p.b3, p.b4, p.name, p.b5, rest)) == Export(p.name, rest)
  {
    hide Scan.Exactly, Scan.FirstPrintable, Scan.ScanIdent;
    var t5 := p.b5 + ("(" + rest);
    var t4 := p.b4 + (p.name + t5);
    var t3 := p.b3 + ("exported" + t4);
    var t2 := p.b2 + (":" + t3);
    var t1 := p.b1 + (":" + t2);
    ExactlySucceeds("oarr", t1);
    NextIs(p.b1, ':', t2);
    NextIs(p.b2, ':', t3);
    assert "exported" + t4 == ['e'] + ("xported" + t4);
    NextIs(p.b3, 'e', "xported" + t4);
    ExactlySucceeds("xported", t4);
    NameRead(p.b4, p.name, t5);
    NextIs(p.b5, '(', rest);
  }

  lemma NextIs(b: string, c: char, r: string)
    requires AllBlank(b) && !IsBlank(c)
    ensures FirstPrintable(b + ([c] + r)) == (Some(c), r)
  {
    BlanksSkipped(b, [c] + r);
    assert ([c] + r)[1..] == r;
  }

  lemma NameRead(b: string, name: string, r: string)
    requires AllBlank(b) && name != [] && IsIdentStart(name[0]) && AllIdent(name) && r != [] && !IsIdentChar(r[0])
    ensures Scan.ScanIdent(b + (name + r)) == Ident(name, r)
  {
    assert name + r == [name[0]] + (name[1..] + r);
    NextIs(b, name[0], name[1..] + r);
    RunStops(name[1..], r);
    assert (name[1..] + r)[..|name| - 1] == name[1..] && (name[1..] + r)[|name| - 1..] == r;
    assert [name[0]] + name[1..] == name;
  }

  /** What may follow a word: nothing, a non-identifier character, or a raw string. */
  predicate EndsWord(rest: string) {
    rest == [] || !IsIdentChar(rest[0]) || rest[0] == 'R'
  }

  /** Reading pairs of `R` and the character after it leaves no single `R`. */
  predicate Paired(w: string)
    decreases |w|
  {
    w == [] || (if w[0] == 'R' then |w| > 1 && Paired(w[2..]) else Paired(w[1..]))
  }

  lemma {:induction false} TrailingAfter(a: string, t: string)
    ensures TrailingRs(a + t) == TrailingRs(t) + (if TrailingRs(t) == |t| then TrailingRs(a) else 0)
    decreases |t|
  {
    if t == [] {
      assert a + t == a;
    } else {
      assert (a + t)[..|a + t| - 1] == a + t[..|t| - 1];
      TrailingAfter(a, t[..|t| - 1]);
    }
  }

  lemma {:induction false} PairedIffEven(w: string)
    ensures Paired(w) <==> TrailingRs(w) % 2 == 0
    decreases |w|
  {
    if w != [] {
      var n := if w[0] == 'R' && |w| > 1 then 2 else 1;
      TrailingAfter(w[..n], w[n..]);
      assert w == w[..n] + w[n..];
      TrailingOfStart(w, n);
      PairedIffEven(w[n..]);
    }
  }

  lemma TrailingOfStart(w: string, n: nat)
    requires w != [] && n == if w[0] == 'R' && |w| > 1 then 2 else 1
    ensures TrailingRs(w[..n]) % 2 == if w == "R" then 1 else 0
  {
    assert TrailingRs([]) == 0;
    assert w[..1][..0] == [] && (n == 2 ==> w[..2][..1] == w[..1]);
    assert TrailingRs(w[..1]) == if w[0] == 'R' then 1 else 0;
  }

  lemma {:induction false} PairedSkips(w: string, j: nat)
    requires j <= |w| && 'R' !in w[..j]
    ensures Paired(w[j..]) <==> Paired(w)
    decreases |w|
  {
    if j == 0 {
      assert w[0..] == w;
    } else {
      assert w[..j][0] == w[0];
      assert w[1..][..j - 1] == w[..j][1..] && w[1..][j - 1..] == w[j..];
      PairedSkips(w[1..], j - 1);
    }
  }

  predicate IsWordRest(w: string) {
    AllIdent(w) && Paired(w) && NoFactor(w, "doarr")
  }

  /** A word is passed, whatever came before it. */
  lemma {:induction false} WordPassed(w: string, rest: string, prev: char) returns (last: char)
    requires IsWordRest(w) && EndsWord(rest)
    ensures Scan.Scan(w + rest, prev) == Scan.Scan(rest, last)
    decreases |w|
  {
    hide Scan.ScanExport, Scan.SkipString, Scan.SkipRawString, EndsWord;
    if w == [] {
      assert w + rest == rest;
      last := prev;
    } else if w[0] == 'd' && !IsIdentChar(prev) {
      var j, phantom := WordMisses(w, rest, prev);
      SuffixPlain(w, 1 + j);
      PairedSkips(w, 1 + j);
      last := prev;
      if !phantom {
        last := WordPassed(w[1 + j..], rest, prev);
      }
    } else {
      var n := if w[0] == 'R' then 2 else 1;
      assert (w + rest)[n..] == w[n..] + rest && (n == 2 ==> (w + rest)[1] == w[1] != '"');
      SuffixPlain(w, n);
      last := WordPassed(w[n..], rest, if w[0] == 'd' then prev else w[0]);
    }
  }

  lemma SuffixPlain(w: string, i: nat)
    requires i <= |w| && AllIdent(w) && NoFactor(w, "doarr")
    ensures AllIdent(w[i..]) && NoFactor(w[i..], "doarr")
  {
    forall k | 0 <= k <= |w[i..]|
      ensures !("doarr" <= w[i..][k..])
    {
      assert w[i..][k..] == w[i + k..];
    }
  }

  lemma PrefixChars(e: string, t: string)
    ensures e <= t <==> |e| <= |t| && t[..|e|] == e
    ensures e <= t ==> forall i :: 0 <= i < |e| ==> t[i] == e[i]
  {
  }

  /** A comparison with characters of words, not with `R`, does not go on from a word into what follows it. */
  lemma NotPastWord(w: string, rest: string, e: string)
    requires EndsWord(rest) && AllIdent(e) && 'R' !in e && !(e <= w)
    ensures !(e <= w + rest)
  {
    PrefixChars(e, w + rest);
    PrefixChars(e, w);
    if |w| < |e| {
      assert rest != [] ==> (w + rest)[|w|] == rest[0];
    } else {
      assert (w + rest)[..|e|] == w[..|e|];
    }
  }

  /** Such a comparison, when it fails, stops inside the word or just after it. */
  lemma MissesInWord(w: string, rest: string, e: string) returns (j: nat)
    requires EndsWord(rest) && AllIdent(e) && 'R' !in e && PHANTOM !in e && !(e <= w)
    ensures j <= |w| && j < |e| && w[..j] == e[..j] && !Scan.Exactly(w + rest, e).0
    ensures Scan.Exactly(w + rest, e).1 == w[j..] + rest || (rest == [] && Scan.Exactly(w + rest, e).1 == [PHANTOM])
  {
    var t := w + rest;
    NotPastWord(w, rest, e);
    j := ExactlyFails(t, e);
    hide Scan.Exactly, EndsWord, AllIdent;
    StopsInWord(w, rest, e, j);
    assert t[..j] == w[..j];
    assert t[j..] == w[j..] + rest;
  }

  /** What ends a word is no character of one but `R`. */
  lemma NotOfWord(rest: string, e: string, k: nat)
    requires EndsWord(rest) && AllIdent(e) && 'R' !in e && k < |e|
    ensures rest != [] ==> e[k] != rest[0]
  {
    assert e[k] in e;
  }

  lemma StopsInWord(w: string, rest: string, e: string, j: nat)
    requires EndsWord(rest) && AllIdent(e) && 'R' !in e
    requires j <= |w + rest| && j < |e| && (w + rest)[..j] == e[..j]
    ensures j <= |w|
  {
    var t := w + rest;
    if |w| < |e| {
      NotOfWord(rest, e, |w|);
    }
    hide EndsWord, AllIdent;
    assert forall i :: 0 <= i < j ==> t[i] == t[..j][i] == e[..j][i] == e[i];
    assert rest != [] ==> t[|w|] == rest[0];
  }

  lemma MissGoesOn(t: string, rest: string, prev: char)
    requires ScanExport(t) == NotHere(rest) && !IsIdentChar(prev)
    ensures Scan.Scan(['d'] + t, prev) == Scan.Scan(rest, prev)
  {
    hide Scan.SkipString, Scan.SkipRawString, Scan.ScanExport;
    assert (['d'] + t)[1..] == t;
  }

  lemma MissedOarr(t: string)
    requires !Scan.Exactly(t, "oarr").0
    ensures ScanExport(t) == NotHere(Scan.Exactly(t, "oarr").1)
  {
  }

  lemma PhantomEnds(prev: char)
    ensures Scan.Scan([PHANTOM], prev) == Scan.Scan([], prev) == End
  {
  }

  /** What was passed are characters of the expected string. */
  lemma PassedNoR(w: string, e: string, i: nat)
    requires w != [] && w[0] != 'R' && i <= |w| - 1 && i <= |e| && w[1..][..i] == e[..i] && 'R' !in e
    ensures 'R' !in w[..1 + i]
  {
    assert w[..1 + i] == [w[0]] + w[1..][..i];
    assert forall k :: 0 <= k < i ==> e[..i][k] == e[k] != 'R';
  }

  /** After a `d` in a word that is not `doarr`, reading goes on in the word or just after it. */
  lemma WordMisses(w: string, rest: string, prev: char) returns (j: nat, phantom: bool)
    requires w != [] && w[0] == 'd' && NoFactor(w, "doarr") && EndsWord(rest) && !IsIdentChar(prev)
    ensures j < |w| && 'R' !in w[..1 + j] && (phantom ==> rest == [])
    ensures Scan.Scan(w + rest, prev) == Scan.Scan(if phantom then rest else w[1 + j..] + rest, prev)
  {
    hide *;
    var t, r := w[1..] + rest, [];
    j, r := MissesAfterD(w, rest);
    assert w + rest == ['d'] + t;
    MissGoesOn(t, r, prev);
    PhantomEnds(prev);
    phantom := r != w[1 + j..] + rest;
  }

  lemma MissesAfterD(w: string, rest: string) returns (j: nat, r: string)
    requires w != [] && w[0] == 'd' && NoFactor(w, "doarr") && EndsWord(rest)
    ensures j < |w| && 'R' !in w[..1 + j] && ScanExport(w[1..] + rest) == NotHere(r)
    ensures r == w[1 + j..] + rest || (rest == [] && r == [PHANTOM])
  {
    NotOarr(w);
    hide *;
    var e := "oarr";
    j := MissesInWord(w[1..], rest, e);
    PassedNoR(w, e, j);
    MissedOarr(w[1..] + rest);
    r := Scan.Exactly(w[1..] + rest, e).1;
    assert w[1..][j..] == w[1 + j..];
  }

  lemma NotOarr(w: string)
    requires w != [] && w[0] == 'd' && NoFactor(w, "doarr")
    ensures !("oarr" <= w[1..]) && AllIdent("oarr") && 'R' !in "oarr" && PHANTOM !in "oarr"
  {
    assert w[0..] == w;
    PrefixByTail("doarr", w);
    assert "doarr"[1..] == "oarr";
  }

  /** A word that ends in an odd number of `R` is passed with the character after it, whatever came before. */
  lemma {:induction false} OddPassed(w: string, c: char, rest: string, prev: char)
    requires AllIdent(w) && !Paired(w) && NoFactor(w, "doarr") && !IsIdentChar(c) && c != '"'
    ensures Scan.Scan(w + ([c] + rest), prev) == Scan.Scan(rest, 'R')
    decreases |w|
  {
    hide Scan.ScanExport, Scan.SkipString, Scan.SkipRawString;
    var s := [c] + rest;
    if w == "R" {
      assert (w + s)[1] == c && (w + s)[2..] == rest;
    } else if w[0] == 'd' && !IsIdentChar(prev) {
      var j, phantom := WordMisses(w, s, prev);
      SuffixPlain(w, 1 + j);
      PairedSkips(w, 1 + j);
      OddPassed(w[1 + j..], c, rest, prev);
    } else {
      var n := if w[0] == 'R' then 2 else 1;
      assert (w + s)[n..] == w[n..] + s && (n == 2 ==> (w + s)[1] == w[1] != '"');
      SuffixPlain(w, n);
      OddPassed(w[n..], c, rest, if w[0] == 'd' then prev else w[0]);
    }
  }

  // ---------- after an identifier character nothing is looked at

  lemma Letters(t: string)
    ensures "oarr" + t == ['o'] + ("arr" + t) && "arr" + t == ['a'] + ("rr" + t)
    ensures "rr" + t == ['r'] + ("r" + t) && "r" + t == ['r'] + t
  {
  }

  lemma OneLetter(c: char, t: string, prev: char)
    requires IsIdentChar(c) && c != 'd' && c != 'R'
    ensures Scan.Scan([c] + t, prev) == Scan.Scan(t, c)
  {
    hide Scan.ScanExport, Scan.SkipString, Scan.SkipRawString;
    assert ([c] + t)[1..] == t;
  }

  lemma FourLetters(t: string, prev: char)
    ensures Scan.Scan("oarr" + t, prev) == Scan.Scan(t, 'r')
  {
    Letters(t);
    hide Scan.Scan;
    OneLetter('o', "arr" + t, prev);
    OneLetter('a', "rr" + t, 'o');
    OneLetter('r', "r" + t, 'a');
    OneLetter('r', t, 'r');
  }

  lemma Doarr(t: string)
    ensures ['d'] + ("oarr" + t) == "doarr" + t
  {
    assert ['d'] + "oarr" == "doarr";
  }

  /** After an identifier character `doarr` is passed like any letters. */
  lemma DeafDoarr(t: string, prev: char)
    requires IsIdentChar(prev)
    ensures Scan.Scan("doarr" + t, prev) == Scan.Scan(t, 'r')
  {
    hide Scan.ScanExport, Scan.SkipString, Scan.SkipRawString;
    var o := "oarr" + t;
    Doarr(t);
    assert (['d'] + o)[1..] == o;
    FourLetters(t, prev);
  }

  lemma CharPassed(c: char, t: string, prev: char)
    requires !IsIdentChar(c) && c != '"'
    ensures Scan.Scan([c] + t, prev) == Scan.Scan(t, c)
  {
    hide Scan.ScanExport, Scan.SkipString, Scan.SkipRawString;
    assert ([c] + t)[1..] == t;
  }

  lemma {:induction false} BlanksPassed(b: string, t: string, prev: char) returns (last: char)
    requires AllBlank(b)
    ensures Scan.Scan(b + t, prev) == Scan.Scan(t, last)
    decreases |b|
  {
    if b == [] {
      assert b + t == t;
      last := prev;
    } else {
      assert b + t == [b[0]] + (b[1..] + t);
      CharPassed(b[0], b[1..] + t, prev);
      last := BlanksPassed(b[1..], t, b[0]);
    }
  }

  /** Blanks, a colon and the rest. */
  lemma ColonPassed(b: string, t: string, prev: char)
    requires AllBlank(b)
    ensures Scan.Scan(b + (":" + t), prev) == Scan.Scan(t, ':')
  {
    hide Scan.Scan, AllBlank;
    var last := BlanksPassed(b, ":" + t, prev);
    CharPassed(':', t, last);
  }

  /** What stands after a use of `doarr`, passed as text. */
  lemma AfterUsePassed(b: string, w: string, r: string, prev: char) returns (last: char)
    requires AllBlank(b) && IsAfterUse(w) && (IsIdentChar(w[0]) ==> EndsWord(r))
    ensures Scan.Scan(b + (w + r), prev) == Scan.Scan(r, last) && (IsIdentChar(w[0]) || !IsIdentChar(last))
  {
    hide Scan.Scan, EndsWord, AllBlank;
    last := BlanksPassed(b, w + r, prev);
    if IsIdentChar(w[0]) {
      PairedIffEven(w);
      last := WordPassed(w, r, last);
    } else {
      assert w == [w[0]];
      CharPassed(w[0], r, last);
      last := w[0];
    }
  }

  lemma DeafUseStep(p: Piece, r: string, prev: char) returns (last: char)
    requires IsUse(p) && IsPiece(p) && IsIdentChar(prev) && (LeavesWord(p) ==> EndsWord(r))
    ensures Scan.Scan(Text(p) + r, prev) == Scan.Scan(r, last) && (LeavesWord(p) || !IsIdentChar(last))
  {
    UseText(p, r);
    hide Scan.Scan, Text, EndsWord, AllBlank, IsAfterUse;
    match p
    case Bare(b1, w) =>
      Doarr(b1 + (w + r));
      DeafDoarr(b1 + (w + r), prev);
      last := AfterUsePassed(b1, w, r, 'r');
    case Label(b1, b2, w) =>
      Doarr(b1 + (":" + (b2 + (w + r))));
      DeafDoarr(b1 + (":" + (b2 + (w + r))), prev);
      ColonPassed(b1, b2 + (w + r), 'r');
      last := AfterUsePassed(b2, w, r, ':');
    case Member(b1, b2, b3, w) =>
      Doarr(b1 + (":" + (b2 + (":" + (b3 + (w + r))))));
      DeafDoarr(b1 + (":" + (b2 + (":" + (b3 + (w + r))))), prev);
      ColonPassed(b1, b2 + (":" + (b3 + (w + r))), 'r');
      ColonPassed(b2, b3 + (w + r), ':');
      last := AfterUsePassed(b3, w, r, ':');
  }

  /** An export after an odd word is passed like any text. */
  lemma MissedStep(p: Piece, r: string, prev: char)
    requires p.Exp? && IsPiece(p) && IsPlainWord(p.name) && IsIdentChar(prev)
    ensures Scan.Scan(Text(p) + r, prev) == Scan.Scan(r, '(')
  {
    ExportText(p, r);
    var t5 := p.b5 + ("(" + r);
    var t4 := p.b4 + (p.name + t5);
    var t3 := p.b3 + ("exported" + t4);
    var t2 := p.b2 + (":" + t3);
    var t1 := p.b1 + (":" + t2);
    Doarr(t1);
    EndsBefore(p, r);
    ExportedIsWord();
    PairedIffEven(p.name);
    hide Scan.Scan, Text, EndsWord, Paired, TrailingRs, NoFactor;
    DeafDoarr(t1, prev);
    ColonPassed(p.b1, t2, 'r');
    ColonPassed(p.b2, t3, ':');
    var last := BlanksPassed(p.b3, "exported" + t4, ':');
    last := WordPassed("exported", t4, last);
    last := BlanksPassed(p.b4, p.name + t5, last);
    last := WordPassed(p.name, t5, last);
    last := BlanksPassed(p.b5, "(" + r, last);
    CharPassed('(', r, last);
  }

  lemma ExportedIsWord()
    ensures IsWordRest("exported")
  {
    var e := "exported";
    assert forall i :: 0 <= i < |e| ==> e[i] != 'R';
    assert e[|e|..] == [];
    PairedSkips(e, |e|);
    assert e[..|e|] == e;
    forall i | 0 <= i <= |e|
      ensures !("doarr" <= e[i..])
    {
      assert i + 5 <= |e| ==> e[i..][0] == e[i] && e[i] != 'd';
    }
  }

  lemma EndsBefore(p: Piece, r: string)
    requires p.Exp? && IsPiece(p)
    ensures EndsWord(p.b4 + (p.name + (p.b5 + ("(" + r)))) && EndsWord(p.b5 + ("(" + r))
  {
    assert (p.b4 + (p.name + (p.b5 + ("(" + r))))[0] == p.b4[0];
    assert (p.b5 + ("(" + r))[0] == if p.b5 == [] then '(' else p.b5[0];
  }

  // ---------- the scanner enumerates the exports

  /** The pieces from the next export on that is not directly after an odd word. */
  function ToHeard(ps: seq<Piece>, before: Before): (r: seq<Piece>)
    ensures |r| <= |ps| && (r != [] ==> r[0].Exp?)
    ensures HeardNames(r, Other) == HeardNames(ps, before)
  {
    if ps == [] || (ps[0].Exp? && !before.Deaf?) then ps else ToHeard(ps[1..], After(ps[0]))
  }

  lemma {:induction false} ToHeardIsSource(ps: seq<Piece>, before: Before)
    requires IsSource(ps, before)
    ensures var r := ToHeard(ps, before);
      r != [] ==> IsFoundExport(r[0]) && IsSource(r[1..], Other)
  {
    if ps != [] && !(ps[0].Exp? && !before.Deaf?) {
      ToHeardIsSource(ps[1..], After(ps[0]));
    }
  }

  /** The scanner's last character, as far as it matters for what stands before a piece. */
  predicate PrevFits(prev: char, before: Before) {
    (before.Other? ==> !IsIdentChar(prev)) && (before.Deaf? ==> IsIdentChar(prev))
  }

  /** One scan of well-formed text ends at the next export that is heard, or at the end. */
  lemma {:induction false} ScanReachesExport(ps: seq<Piece>, prev: char, before: Before)
    requires IsSource(ps, before) && PrevFits(prev, before)
    ensures
      var next := ToHeard(ps, before);
      Scan.Scan(Source(ps), prev) == if next == [] then End else Export(next[0].name, Source(next[1..]))
    decreases |ps|
  {
    hide Scan.Scan, Text, IsPiece, IsPlainWord;
    if ps == [] {
      ScanOfNothing(prev);
    } else {
      var p, rest, r := ps[0], ps[1..], Source(ps[1..]);
      SourceStep(ps, before);
      hide IsSource, IsFoundExport;
      if p.Exp? && !before.Deaf? {
        ExportStep(p, r, prev);
      } else {
        var last := PieceStep(p, r, prev, before);
        ScanReachesExport(rest, last, After(p));
      }
    }
  }

  /** A piece that is not heard is passed. */
  lemma PieceStep(p: Piece, r: string, prev: char, before: Before) returns (last: char)
    requires IsPiece(p) && PrevFits(prev, before) && (before.InWord? ==> !StartsWord(p))
    requires p.Exp? ==> before.Deaf? && IsPlainWord(p.name)
    requires LeavesWord(p) ==> EndsWord(r)
    ensures Scan.Scan(Text(p) + r, prev) == Scan.Scan(r, last) && PrevFits(last, After(p))
  {
    hide Scan.Scan, EndsWord, IsPlainWord;
    if p.Exp? {
      MissedStep(p, r, prev);
      last := '(';
    } else if p.Word? {
      last := WordStep(p, r, prev);
    } else if p.OddWord? {
      OddStep(p, r, prev);
      last := 'R';
    } else if IsUse(p) && before.Deaf? {
      last := DeafUseStep(p, r, prev);
    } else if IsUse(p) {
      last := UseStep(p, r, prev);
    } else {
      last := LiteralStep(p, r, prev);
    }
  }

  lemma WordStep(p: Piece, r: string, prev: char) returns (last: char)
    requires p.Word? && IsPiece(p) && EndsWord(r)
    ensures Scan.Scan(Text(p) + r, prev) == Scan.Scan(r, last)
  {
    PairedIffEven(p.w);
    last := WordPassed(p.w, r, prev);
  }

  lemma OddStep(p: Piece, r: string, prev: char)
    requires p.OddWord? && IsPiece(p)
    ensures Scan.Scan(Text(p) + r, prev) == Scan.Scan(r, 'R')
  {
    PairedIffEven(p.w);
    hide Scan.Scan, Paired, TrailingRs;
    assert p.w + [p.c] + r == p.w + ([p.c] + r);
    OddPassed(p.w, p.c, r, prev);
  }

  lemma SourceStep(ps: seq<Piece>, before: Before)
    requires ps != [] && IsSource(ps, before)
    ensures var p, rest := ps[0], ps[1..];
      && IsSource(rest, After(p))
      && (p.Exp? ==> IsFoundExport(p))
      && (!p.Exp? || before.Deaf? ==> IsPiece(p))
      && (p.Exp? && before.Deaf? ==> IsPlainWord(p.name))
      && (before.InWord? ==> !StartsWord(p))
      && (LeavesWord(p) ==> EndsWord(Source(rest)))
  {
    hide Closer, NoFactor, AllIdent, TrailingRs;
    if LeavesWord(ps[0]) && ps[1..] != [] {
      FirstOfText(ps[1]);
    }
  }

  /** A piece that does not start with a word starts with something that ends one. */
  lemma FirstOfText(p: Piece)
    requires IsPiece(p) && !StartsWord(p)
    ensures Text(p) != [] && (!IsIdentChar(Text(p)[0]) || Text(p)[0] == 'R')
  {
  }

  lemma ScanOfNothing(prev: char)
    ensures Scan.Scan([], prev) == End
  {
  }

  /** Another use of `doarr` is passed, with the start of what stands after it. */
  lemma UseStep(p: Piece, r: string, prev: char) returns (last: char)
    requires IsUse(p) && IsPiece(p) && !IsIdentChar(prev) && (LeavesWord(p) ==> EndsWord(r))
    ensures Scan.Scan(Text(p) + r, prev) == Scan.Scan(r, last) && (LeavesWord(p) || !IsIdentChar(last))
  {
    var rest, j := UseMisses(p, r);
    MissGoesOn(UseTail(p, r), rest, prev);
    hide Scan.Scan, UseTail, Text, IsPiece;
    if rest == [PHANTOM] && r == [] {
      PhantomEnds(prev);
      last := prev;
    } else if LeavesWord(p) {
      RestOfUse(p, j);
      last := WordPassed(p.w[j..], r, prev);
    } else {
      assert p.w[1..] + r == r;
      last := prev;
    }
  }

  /** Reading goes on `j` characters into the word, or with the phantom byte. */
  predicate AfterMiss(w: string, r: string, j: nat, rest: string) {
    && 0 < j <= |w| && 'R' !in w[..j]
    && (rest == w[j..] + r || (r == [] && rest == [PHANTOM]))
  }

  lemma RestOfUse(p: Piece, j: nat)
    requires IsUse(p) && IsPiece(p) && LeavesWord(p) && j <= |p.w| && 'R' !in p.w[..j]
    ensures IsWordRest(p.w[j..])
  {
    var w := p.w;
    PairedIffEven(w);
    hide TrailingRs, Paired;
    PairedSkips(w, j);
    SuffixPlain(w, j);
  }

  /** What follows the `d` of a use. */
  function UseTail(p: Piece, r: string): string
    requires IsUse(p)
  {
    match p
    case Bare(b1, w) => "oarr" + (b1 + (w + r))
    case Label(b1, b2, w) => "oarr" + (b1 + (":" + (b2 + (w + r))))
    case Member(b1, b2, b3, w) => "oarr" + (b1 + (":" + (b2 + (":" + (b3 + (w + r))))))
  }

  lemma UseText(p: Piece, r: string)
    requires IsUse(p)
    ensures Text(p) + r == ['d'] + UseTail(p, r)
  {
    match p
    case Bare(b1, w) =>
      assert b1 + w + r == b1 + (w + r);
    case Label(b1, b2, w) =>
      assert b1 + (":" + (b2 + w)) + r == b1 + (":" + (b2 + (w + r)));
    case Member(b1, b2, b3, w) =>
      assert b1 + (":" + (b2 + (":" + (b3 + w)))) + r == b1 + (":" + (b2 + (":" + (b3 + (w + r)))));
  }

  lemma UseMisses(p: Piece, r: string) returns (rest: string, j: nat)
    requires IsUse(p) && IsPiece(p) && (LeavesWord(p) ==> EndsWord(r))
    ensures Text(p) + r == ['d'] + UseTail(p, r)
    ensures ScanExport(UseTail(p, r)) == NotHere(rest)
    ensures AfterMiss(p.w, r, j, rest) && (!LeavesWord(p) ==> |p.w| == 1 && j == 1)
  {
    UseText(p, r);
    hide Text;
    AfterUse(p);
    hide IsPlainWord, IsAfterUse;
    var w, t := p.w, p.w[1..] + r;
    rest, j := t, 1;
    assert w[..1] == [w[0]];
    match p
    case Bare(b1, _) => BareMisses(b1, w, r);
    case Label(b1, b2, _) => LabelMisses(b1, b2, w, r);
    case Member(b1, b2, b3, _) =>
      MemberReads(b1, b2, b3, w, r);
      if w[0] == 'e' {
        rest, j := MemberMisses(w, r);
      }
  }

  lemma AfterUse(p: Piece)
    requires IsUse(p) && IsPiece(p)
    ensures p.w != [] && !IsBlank(p.w[0]) && p.w[0] != 'R' && (!LeavesWord(p) ==> |p.w| == 1)
  {
    hide TrailingRs, NoFactor;
  }

  lemma BareMisses(b1: string, w: string, r: string)
    requires AllBlank(b1) && w != [] && !IsBlank(w[0]) && w[0] != ':'
    ensures ScanExport("oarr" + (b1 + (w + r))) == NotHere(w[1..] + r)
  {
    hide Scan.Exactly, Scan.FirstPrintable, Scan.ScanName, AllBlank;
    assert w + r == [w[0]] + (w[1..] + r);
    ExactlySucceeds("oarr", b1 + (w + r));
    NextIs(b1, w[0], w[1..] + r);
  }

  lemma LabelMisses(b1: string, b2: string, w: string, r: string)
    requires AllBlank(b1) && AllBlank(b2) && w != [] && !IsBlank(w[0]) && w[0] != ':'
    ensures ScanExport("oarr" + (b1 + (":" + (b2 + (w + r))))) == NotHere(w[1..] + r)
  {
    hide Scan.Exactly, Scan.FirstPrintable, Scan.ScanName, AllBlank;
    assert w + r == [w[0]] + (w[1..] + r);
    ExactlySucceeds("oarr", b1 + (":" + (b2 + (w + r))));
    NextIs(b1, ':', b2 + (w + r));
    NextIs(b2, w[0], w[1..] + r);
  }

  lemma MemberReads(b1: string, b2: string, b3: string, w: string, r: string)
    requires AllBlank(b1) && AllBlank(b2) && AllBlank(b3) && w != [] && !IsBlank(w[0])
    ensures var t := w[1..] + r;
      ScanExport("oarr" + (b1 + (":" + (b2 + (":" + (b3 + (w + r)))))))
      == if w[0] == 'e' then ScanName(t) else NotHere(t)
  {
    hide Scan.Exactly, Scan.FirstPrintable, Scan.ScanName, AllBlank;
    assert w + r == [w[0]] + (w[1..] + r);
    ExactlySucceeds("oarr", b1 + (":" + (b2 + (":" + (b3 + (w + r))))));
    NextIs(b1, ':', b2 + (":" + (b3 + (w + r))));
    NextIs(b2, ':', b3 + (w + r));
    NextIs(b3, w[0], w[1..] + r);
  }

  /** A member whose name starts as `exported` does. */
  lemma MemberMisses(w: string, r: string) returns (rest: string, j: nat)
    requires w != [] && w[0] == 'e' && !("exported" <= w) && EndsWord(r)
    ensures ScanName(w[1..] + r) == NotHere(rest)
    ensures AfterMiss(w, r, j, rest)
  {
    var e := "xported";
    PrefixByTail("exported", w);
    assert "exported"[1..] == e;
    assert AllIdent(e) && 'R' !in e;
    var i := MissesInWord(w[1..], r, e);
    hide Scan.Exactly, Scan.FirstPrintable, EndsWord;
    rest := Scan.Exactly(w[1..] + r, e).1;
    j := 1 + i;
    assert w[1..][i..] == w[j..];
    PassedNoR(w, e, i);
  }

  lemma LiteralStep(p: Piece, r: string, prev: char) returns (last: char)
    requires (p.Gap? || p.Str? || p.RawStr?) && IsPiece(p)
    ensures Scan.Scan(Text(p) + r, prev) == Scan.Scan(r, last) && !IsIdentChar(last)
  {
    hide Scan.SkipString, Scan.SkipRawString, Scan.ScanExport;
    match p
    case Gap(c) =>
      last := c;
      assert (Text(p) + r)[1..] == r;
    case Str(body) =>
      last := '"';
      StringStep(body, r, prev);
    case RawStr(delim, content) =>
      last := '"';
      RawStringStep(delim, content, r, prev);
  }

  lemma StringStep(body: string, r: string, prev: char)
    requires IsStringBody(body)
    ensures Scan.Scan(Text(Str(body)) + r, prev) == Scan.Scan(r, '"')
  {
    hide Scan.SkipString, Scan.SkipRawString, Scan.ScanExport, IsStringBody;
    var s := Text(Str(body)) + r;
    assert s[0] == '"';
    assert s[1..] == body + "\"" + r;
    StringSkipped(body, r);
  }

  lemma RawStringStep(delim: string, content: string, r: string, prev: char)
    requires IsPiece(RawStr(delim, content))
    ensures Scan.Scan(Text(RawStr(delim, content)) + r, prev) == Scan.Scan(r, '"')
  {
    hide Scan.SkipString, Scan.SkipRawString, Scan.ScanExport, Closer, IsPiece;
    var s := Text(RawStr(delim, content)) + r;
    var t := delim + "(" + (content + Closer(delim) + r);
    assert s[0] == 'R' && s[1] == '"';
    assert s[2..] == t;
    RawStringSkipped(delim, content, r);
  }

  lemma ExportStep(p: Piece, r: string, prev: char)
    requires IsFoundExport(p) && !IsIdentChar(prev)
    ensures Scan.Scan(Text(p) + r, prev) == Export(p.name, r)
  {
    hide Scan.SkipString, Scan.SkipRawString, Scan.ScanExport;
    var t := "oarr" + ExpTail(p.b1, p.b2, p.b3, p.b4, p.name, p.b5, r);
    ExportText(p, r);
    assert (['d'] + t)[1..] == t;
    ExportRecognised(p, r);
  }

  lemma ExportText(p: Piece, r: string)
    requires p.Exp?
    ensures Text(p) + r == ['d'] + ("oarr" + ExpTail(p.b1, p.b2, p.b3, p.b4, p.name, p.b5, r))
  {
    var e5, f5 := p.b5 + "(", p.b5 + ("(" + r);
    assert e5 + r == f5;
    var e4, f4 := p.b4 + (p.name + e5), p.b4 + (p.name + f5);
    assert e4 + r == f4;
    var e3, f3 := p.b3 + ("exported" + e4), p.b3 + ("exported" + f4);
    assert e3 + r == f3;
    var e2, f2 := p.b2 + (":" + e3), p.b2 + (":" + f3);
    assert e2 + r == f2;
    assert p.b1 + (":" + e2) + r == p.b1 + (":" + f2);
    assert "(" + "" == "(";
  }

  /** Repeated scans return exactly the names of the exports that are heard, in order, and then the end. */
  lemma {:induction false} ScannerEnumeratesExports(ps: seq<Piece>)
    requires IsSource(ps, Other)
    ensures Names(Source(ps), false) == Some(HeardNames(ps, Other))
    decreases |ps|
  {
    ScanReachesExport(ps, ' ', Other);
    ToHeardIsSource(ps, Other);
    var next := ToHeard(ps, Other);
    if next != [] {
      ScannerEnumeratesExports(next[1..]);
    }
  }

  /** No export stands directly after a word that ends in an odd number of `R` and one character. */
  predicate NoneMissed(ps: seq<Piece>, before: Before) {
    ps == [] || (!(ps[0].Exp? && before.Deaf?) && NoneMissed(ps[1..], After(ps[0])))
  }

  lemma {:induction false} NoneMissedMeans(ps: seq<Piece>, before: Before)
    ensures NoneMissed(ps, before) <==>
      && (ps != [] && before.Deaf? ==> !ps[0].Exp?)
      && forall i :: 0 <= i < |ps| - 1 && ps[i].OddWord? ==> !ps[i + 1].Exp?
  {
    if ps != [] {
      var rest := ps[1..];
      NoneMissedMeans(rest, After(ps[0]));
      assert forall i :: 0 <= i < |rest| ==> rest[i] == ps[i + 1];
      assert forall i :: 0 < i < |ps| ==> ps[i] == rest[i - 1];
    }
  }

  lemma {:induction false} AllHeard(ps: seq<Piece>, before: Before)
    ensures NoneMissed(ps, before) <==> |HeardNames(ps, before)| == |ExportNames(ps)|
    ensures NoneMissed(ps, before) ==> HeardNames(ps, before) == ExportNames(ps)
  {
    if ps != [] {
      AllHeard(ps[1..], After(ps[0]));
    }
  }

  /**
   The scans return the names of all exports exactly when none stands directly after a word that ends in an
   odd number of `R` and one character.
   */
  lemma AllExportsIff(ps: seq<Piece>)
    requires IsSource(ps, Other)
    ensures Names(Source(ps), false) == Some(ExportNames(ps)) <==>
      forall i :: 0 <= i < |ps| - 1 && ps[i].OddWord? ==> !ps[i + 1].Exp?
  {
    ScannerEnumeratesExports(ps);
    AllHeard(ps, Other);
    NoneMissedMeans(ps, Other);
    hide Names, Source, HeardNames, ExportNames, NoneMissed;
  }

  /** The names of the exports that have a blank before the name, as C++ demands. */
  function WellFormedNames(ps: seq<Piece>): (names: seq<string>)
    ensures |names| <= |ExportNames(ps)|
  {
    if ps == [] then []
    else (if ps[0].Exp? && IsPiece(ps[0]) then [ps[0].name] else []) + WellFormedNames(ps[1..])
  }

  lemma {:induction false} AllWellFormed(ps: seq<Piece>)
    ensures |WellFormedNames(ps)| == |ExportNames(ps)| <==> forall p :: p in ps && p.Exp? ==> IsPiece(p)
    ensures |WellFormedNames(ps)| == |ExportNames(ps)| ==> WellFormedNames(ps) == ExportNames(ps)
  {
    if ps != [] {
      hide IsPiece;
      AllWellFormed(ps[1..]);
      assert ps == [ps[0]] + ps[1..];
      assert forall p :: p in ps <==> p == ps[0] || p in ps[1..];
    }
  }

  /**
   Where no export is missed, the scans return the names of the well-formed exports, and no others, exactly
   when no name follows `exported` directly.
   */
  lemma OnlyWellFormedIff(ps: seq<Piece>)
    requires IsSource(ps, Other) && NoneMissed(ps, Other)
    ensures Names(Source(ps), false) == Some(WellFormedNames(ps)) <==>
      forall p :: p in ps && p.Exp? ==> p.b4 != []
  {
    ScannerEnumeratesExports(ps);
    AllHeard(ps, Other);
    AllWellFormed(ps);
    hide Names, Source, WellFormedNames, ExportNames, HeardNames, NoneMissed;
    ExportsOfSource(ps, Other);
    assert (forall p :: p in ps && p.Exp? ==> IsPiece(p)) <==> forall p :: p in ps && p.Exp? ==> p.b4 != [];
  }

  lemma {:induction false} ExportsOfSource(ps: seq<Piece>, before: Before)
    requires IsSource(ps, before)
    ensures forall p :: p in ps && p.Exp? ==> IsFoundExport(p) && (IsPiece(p) <==> p.b4 != [])
  {
    if ps != [] {
      hide IsPiece, IsFoundExport;
      SourceStep(ps, before);
      ExportsOfSource(ps[1..], After(ps[0]));
      assert ps == [ps[0]] + ps[1..];
      if ps[0].Exp? {
        SpacedIsPiece(ps[0]);
      }
    }
  }

  lemma SpacedIsPiece(p: Piece)
    requires IsFoundExport(p)
    ensures IsPiece(p) <==> p.b4 != []
  {
  }

  /** An export one blank after a word that ends in `R` is missed. */
  lemma MissedExportExample(p: Piece) returns (text: string)
    requires p.Exp? && IsPiece(p) && IsPlainWord(p.name)
    ensures text == "FOR " + Text(p) && Scan.Scan(text, ' ') == End
  {
    var odd := OddWord("FOR", ' ');
    ForIsOdd(odd);
    text := Text(odd) + Text(p);
    hide *;
    OddStep(odd, Text(p), ' ');
    MissedStep(p, [], 'R');
    assert Text(p) + [] == Text(p);
    ScanOfNothing('(');
  }

  lemma ForIsOdd(odd: Piece)
    requires odd == OddWord("FOR", ' ')
    ensures IsPiece(odd) && Text(odd) == "FOR " && IsIdentChar('R')
  {
    var w := "FOR";
    assert w[..2] == "FO" && TrailingRs("FO") == 0 && TrailingRs(w) == 1;
    assert w[0] != 'd' && w[1] != 'd' && w[2] != 'd';
    forall i | 0 <= i <= |w|
      ensures !("doarr" <= w[i..])
    {
    }
  }
}
