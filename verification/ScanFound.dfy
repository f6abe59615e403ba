/**
 Whatever the scanner finds, on any text, stands there as an export; and where that differs from what C++
 reads (dcc/dcc_scan.c, lines 12-21 and 115-165).
 */
module ScanFound {
  import opened Wrappers
  import opened Scan
  import opened ScanPieces

  // ---------- what is read is a part of the text

  lemma {:induction false} ExactlySuffix(r: string, e: string) returns (k: nat)
    ensures k <= |r|
    ensures Exactly(r, e).1 == r[k..] || Exactly(r, e) == (false, [PHANTOM])
    decreases |e|
  {
    if e == [] {
      k := 0;
    } else if r == [] {
      k := 0;
      if e[0] == PHANTOM {
        var i := ExactlySuffix([], e[1..]);
      }
    } else if r[0] == e[0] {
      var i := ExactlySuffix(r[1..], e[1..]);
      k := i + 1;
      assert r[1..][i..] == r[k..];
    } else {
      k := 0;
    }
  }

  lemma {:induction false} SkipStringSuffix(r: string) returns (k: nat)
    ensures k <= |r| && SkipString(r) == r[k..]
    decreases |r|
  {
    if r == [] {
      k := 0;
    } else if r[0] == '"' {
      k := 1;
    } else {
      var n := if r[0] == '\\' then if |r| == 1 then 1 else 2 else 1;
      var i := SkipStringSuffix(r[n..]);
      k := n + i;
      assert r[n..][i..] == r[k..];
    }
  }

  lemma {:induction false} FindCloseSuffix(r: string, delim: string) returns (k: nat)
    ensures k <= |r| && FindClose(r, delim) == r[k..]
    decreases Measure(r)
  {
    if r == [] {
      k := 0;
    } else if r[0] == ')' {
      var i := ExactlySuffix(r[1..], delim);
      var (ok, rest) := Exactly(r[1..], delim);
      if !ok && rest == [PHANTOM] {
        k := |r|;
        assert FindClose([PHANTOM], delim) == [];
      } else if ok {
        k := i + 1;
        assert r[1..][i..] == r[k..];
      } else {
        var j := FindCloseSuffix(rest, delim);
        k := 1 + i + j;
        assert r[1..][i..][j..] == r[k..];
      }
    } else {
      var i := FindCloseSuffix(r[1..], delim);
      k := i + 1;
      assert r[1..][i..] == r[k..];
    }
  }

  lemma {:induction false} ReadDelimSuffix(r: string, room: nat) returns (k: nat)
    ensures k <= |r| && ReadDelim(r, room).1 == r[k..]
    decreases room
  {
    if room == 0 {
      k := 0;
    } else if r == [] {
      var i := ReadDelimSuffix([], room - 1);
      k := 0;
    } else if r[0] == '(' {
      k := 1;
    } else {
      var i := ReadDelimSuffix(r[1..], room - 1);
      k := i + 1;
      assert r[1..][i..] == r[k..];
    }
  }

  /** The blanks before the next printable character. */
  lemma {:induction false} PrintableParts(r: string) returns (b: string)
    ensures AllBlank(b)
    ensures var (c, s) := FirstPrintable(r);
      if c.Some? then r == b + ([c.value] + s) else s == []
    decreases |r|
  {
    if r == [] || !IsBlank(r[0]) {
      b := [];
    } else {
      var b1 := PrintableParts(r[1..]);
      b := [r[0]] + b1;
      assert r == [r[0]] + r[1..];
    }
  }

  lemma NameParts(r: string) returns (b: string)
    requires Scan.ScanIdent(r).Ident?
    ensures AllBlank(b) && r == b + (Scan.ScanIdent(r).name + Scan.ScanIdent(r).rest)
  {
    b := PrintableParts(r);
    ghost var c, s := FirstPrintable(r).0.value, FirstPrintable(r).1;
    SplitName(c, s, IdentRun(s));
  }

  lemma SplitName(c: char, s: string, n: nat)
    requires n <= |s|
    ensures [c] + s == ([c] + s[..n]) + s[n..]
  {
  }

  lemma NameIsIdent(r: string)
    requires Scan.ScanIdent(r).Ident?
    ensures var name := Scan.ScanIdent(r).name;
      name != "" && IsIdentStart(name[0]) && forall i :: 0 <= i < |name| ==> IsIdentChar(name[i])
  {
    hide Scan.FirstPrintable;
  }

  lemma ExportParts(r: string) returns (p: Piece)
    requires ScanExport(r).Export?
    ensures var f := ScanExport(r);
      IsFoundExport(p) && p.name == f.name && r == "oarr" + ExpTail(p.b1, p.b2, p.b3, p.b4, p.name, p.b5, f.rest)
  {
    hide Scan.FirstPrintable, Scan.Exactly, Scan.ScanName;
    var r1 := Exactly(r, "oarr").1;
    var b1 := PrintableParts(r1);
    var r2 := FirstPrintable(r1).1;
    var b2 := PrintableParts(r2);
    var r3 := FirstPrintable(r2).1;
    var b3 := PrintableParts(r3);
    var r4 := FirstPrintable(r3).1;
    var b4, b5, t := NamePart(r4);
    assert ['e'] + ("xported" + t) == "exported" + t;
    p := Exp(b1, b2, b3, b4, ScanName(r4).name, b5);
  }

  lemma NamePart(r: string) returns (b4: string, b5: string, t: string)
    requires ScanName(r).Export?
    ensures var f := ScanName(r);
      AllBlank(b4) && AllBlank(b5) && IsName(f.name) &&
      r == "xported" + t && t == b4 + (f.name + (b5 + ("(" + f.rest)))
  {
    hide Scan.FirstPrintable, Scan.Exactly, Scan.ScanIdent;
    t := Exactly(r, "xported").1;
    b4 := NameParts(t);
    NameIsIdent(t);
    b5 := PrintableParts(Scan.ScanIdent(t).rest);
  }

  lemma SkipRawSuffix(r: string) returns (k: nat)
    ensures k <= |r| && SkipRawString(r) == r[k..]
  {
    var i := ReadDelimSuffix(r, DELIM_SIZE);
    var (delim, s) := ReadDelim(r, DELIM_SIZE);
    var j := FindCloseSuffix(s, delim);
    k := i + j;
    assert r[i..][j..] == r[k..];
  }

  /** Where a scan goes on after something that is no export. */
  lemma MissSuffix(r: string) returns (k: nat)
    requires ScanExport(r).NotHere?
    ensures k <= |r|
    ensures ScanExport(r).rest == r[k..] || ScanExport(r).rest == [PHANTOM]
  {
    hide Scan.FirstPrintable, Scan.Exactly;
    k := ExactlySuffix(r, "oarr");
    var (ok, s) := Exactly(r, "oarr");
    if ok {
      var colon := ':';
      var i := PrintableSuffix(s);
      k := SuffixOfSuffix(r, k, i);
      s := FirstPrintable(s).1;
      if FirstPrintable(Exactly(r, "oarr").1).0 == Some(colon) {
        var c := FirstPrintable(s).0;
        i := PrintableSuffix(s);
        k := SuffixOfSuffix(r, k, i);
        s := FirstPrintable(s).1;
        if c == Some(colon) {
          c := FirstPrintable(s).0;
          i := PrintableSuffix(s);
          k := SuffixOfSuffix(r, k, i);
          s := FirstPrintable(s).1;
          if c == Some('e') {
            i := ExactlySuffix(s, "xported");
            k := SuffixOfSuffix(r, k, i);
          }
        }
      }
    }
  }

  lemma SuffixOfSuffix(r: string, i: nat, j: nat) returns (k: nat)
    requires i <= |r| && j <= |r| - i
    ensures k == i + j && r[i..][j..] == r[k..]
  {
    k := i + j;
  }

  lemma {:induction false} PrintableSuffix(r: string) returns (k: nat)
    ensures k <= |r| && FirstPrintable(r).1 == r[k..]
    decreases |r|
  {
    if r == [] {
      k := 0;
    } else if !IsBlank(r[0]) {
      k := 1;
    } else {
      var i := PrintableSuffix(r[1..]);
      k := i + 1;
      assert r[1..][i..] == r[k..];
    }
  }

  // ---------- whatever is found is an export

  /** A scan that returns a name finds it here, or goes on with what is left after some characters. */
  lemma ScanNext(r: string, prev: char) returns (here: bool, k: nat, s: string, prev': char)
    requires Scan.Scan(r, prev).Export?
    ensures here ==> r != [] && r[0] == 'd' && ScanExport(r[1..]) == Scan.Scan(r, prev)
    ensures !here ==> 0 < k <= |r| && s == r[k..] && Measure(s) < Measure(r)
    ensures !here ==> Scan.Scan(s, prev') == Scan.Scan(r, prev)
  {
    hide Scan.SkipString, Scan.SkipRawString, Scan.ScanExport;
    here, k, s, prev' := false, 1, r[1..], r[0];
    if r[0] == '"' {
      k := SkipStringSuffix(r[1..]);
      k, s := 1 + k, SkipString(r[1..]);
    } else if r[0] == 'R' && |r| > 1 && r[1] == '"' {
      k := SkipRawSuffix(r[2..]);
      k, s, prev' := 2 + k, SkipRawString(r[2..]), '"';
    } else if r[0] == 'R' {
      assert Scan.Scan([], 'R') == End;
      assert |r| > 1;
      k, s := 2, r[2..];
    } else if r[0] == 'd' && IsIdentChar(prev) {
      prev' := prev;
    } else if r[0] == 'd' {
      here, k, s := ExportNext(r, prev);
      prev' := prev;
    }
  }

  lemma ExportNext(r: string, prev: char) returns (here: bool, k: nat, s: string)
    requires Scan.Scan(r, prev).Export? && r != [] && r[0] == 'd' && !IsIdentChar(prev)
    ensures here ==> ScanExport(r[1..]) == Scan.Scan(r, prev)
    ensures !here ==> 0 < k <= |r| && s == r[k..] && Measure(s) < Measure(r)
    ensures !here ==> Scan.Scan(s, prev) == Scan.Scan(r, prev)
  {
    hide Scan.ScanExport;
    var f := ScanExport(r[1..]);
    here, k, s := f.Export?, 1, [];
    if !here {
      k := MissSuffix(r[1..]);
      assert Scan.Scan([PHANTOM], prev) == End;
      k, s := 1 + k, f.rest;
    }
  }

  /** Where a name that a scan returns stands, and what was passed before it. */
  lemma {:induction false} FoundFrom(r: string, prev: char) returns (pre: string, p: Piece)
    requires Scan.Scan(r, prev).Export?
    ensures var f := Scan.Scan(r, prev);
      IsFoundExport(p) && p.name == f.name && r == pre + (Text(p) + f.rest)
    decreases Measure(r)
  {
    hide Scan.Scan, Scan.ScanExport, IsFoundExport, Text;
    var here, k, s, prev' := ScanNext(r, prev);
    if here {
      var t := r[1..];
      p := ExportParts(t);
      FoundIsExp(p);
      pre := [];
      ExportText(p, ScanExport(t).rest);
      assert r == ['d'] + t;
      assert [] + (Text(p) + ScanExport(t).rest) == Text(p) + ScanExport(t).rest;
    } else {
      var pre1: string;
      pre1, p := FoundFrom(s, prev');
      pre := r[..k] + pre1;
      assert r == r[..k] + s;
    }
  }

  lemma FoundIsExp(p: Piece)
    requires IsFoundExport(p)
    ensures p.Exp?
  {
  }

  /**
   Every name that a scan returns stands in the text as `doarr :: exported NAME (`, and reading goes on after
   it. It is a well-formed export but for the blank after `exported`.
   */
  lemma FoundIsExport(r: string, prev: char) returns (pre: string, p: Piece)
    requires Scan.Scan(r, prev).Export?
    ensures var f := Scan.Scan(r, prev);
      IsFoundExport(p) && p.name == f.name && r == pre + (Text(p) + f.rest)
    ensures IsPiece(p) <==> p.b4 != []
  {
    hide Scan.Scan, Text;
    pre, p := FoundFrom(r, prev);
    SpacedIsPiece(p);
  }

  // ---------- texts on which only well-formed exports are found

  predicate StandsAt(text: string, i: nat, w: string) {
    i + |w| <= |text| && text[i..i + |w|] == w
  }

  /** No identifier character stands directly after `exported`. */
  predicate Spaced(text: string) {
    forall i: nat :: i + 8 < |text| && StandsAt(text, i, "exported") ==> !IsIdentChar(text[i + 8])
  }

  /** No identifier character stands directly before `doarr`. */
  predicate Clear(text: string) {
    forall i: nat :: 0 < i < |text| && StandsAt(text, i, "doarr") ==> !IsIdentChar(text[i - 1])
  }

  predicate EndsClear(pre: string) {
    pre == [] || !IsIdentChar(pre[|pre| - 1])
  }

  lemma Drop(text: string, k: nat, a: string, b: string)
    requires k <= |text| && text[k..] == a + b
    ensures k + |a| <= |text| && text[k + |a|..] == b && StandsAt(text, k, a)
  {
    assert text[k + |a|..] == text[k..][|a|..];
    assert text[k..k + |a|] == text[k..][..|a|];
  }

  lemma DropBlanks(text: string, k: nat, b: string, c: string, t: string)
    requires k <= |text| && text[k..] == b + (c + t)
    ensures k + |b| + |c| <= |text| && text[k + |b| + |c|..] == t && StandsAt(text, k + |b|, c)
  {
    hide StandsAt;
    Drop(text, k, b, c + t);
    Drop(text, k + |b|, c, t);
  }

  /** Where `exported` stands in a text that goes on like an export. */
  lemma ExportedStands(text: string, k: nat, p: Piece, rest: string)
    requires p.Exp? && k <= |text|
    requires text[k..] == ['d'] + ("oarr" + ExpTail(p.b1, p.b2, p.b3, p.b4, p.name, p.b5, rest))
    ensures var i := k + 7 + |p.b1| + |p.b2| + |p.b3|;
      && i + 8 <= |text| && StandsAt(text, i, "exported")
      && text[i + 8..] == p.b4 + (p.name + (p.b5 + ("(" + rest)))
  {
    hide StandsAt;
    var t := ExpTail(p.b1, p.b2, p.b3, p.b4, p.name, p.b5, rest);
    DropBlanks(text, k, ['d'], "oarr", t);
    var t3 := p.b3 + ("exported" + (p.b4 + (p.name + (p.b5 + ("(" + rest)))));
    var t2 := p.b2 + (":" + t3);
    DropBlanks(text, k + 5, p.b1, ":", t2);
    var k2 := k + 6 + |p.b1|;
    DropBlanks(text, k2, p.b2, ":", t3);
    DropBlanks(text, k2 + |p.b2| + 1, p.b3, "exported", p.b4 + (p.name + (p.b5 + ("(" + rest))));
  }

  /** An export without a blank before its name stands where a name follows `exported` directly. */
  lemma UnspacedStands(p: Piece, text: string, k: nat, rest: string)
    requires IsFoundExport(p) && k <= |text| && text[k..] == Text(p) + rest
    ensures p.b4 == [] ==> !Spaced(text)
  {
    hide *;
    FoundIsExp(p);
    NameStarts(p);
    ExportText(p, rest);
    ExportedStands(text, k, p, rest);
    NameFollows(text, k + 7 + |p.b1| + |p.b2| + |p.b3|, p.b4, p.name, p.b5 + ("(" + rest));
  }

  lemma NameFollows(text: string, i: nat, b: string, name: string, t: string)
    requires i + 8 <= |text| && StandsAt(text, i, "exported") && text[i + 8..] == b + (name + t)
    requires name != [] && IsIdentChar(name[0])
    ensures b == [] ==> !Spaced(text)
  {
    if b == [] {
      assert text[i + 8] == text[i + 8..][0] == name[0];
      NotSpaced(text, i);
    }
  }

  lemma NotSpaced(text: string, i: nat)
    requires i + 8 < |text| && StandsAt(text, i, "exported") && IsIdentChar(text[i + 8])
    ensures !Spaced(text)
  {
  }

  lemma NameStarts(p: Piece)
    requires IsFoundExport(p)
    ensures p.name != [] && IsIdentChar(p.name[0])
  {
  }

  lemma ClearMeansApart(p: Piece, text: string, k: nat, rest: string)
    requires p.Exp? && k <= |text| && text[k..] == Text(p) + rest && Clear(text)
    ensures EndsClear(text[..k])
  {
    hide *;
    ExportText(p, rest);
    var t := ExpTail(p.b1, p.b2, p.b3, p.b4, p.name, p.b5, rest);
    Doarr(t);
    Drop(text, k, "doarr", t);
    ClearAt(text, k);
  }

  lemma ClearAt(text: string, k: nat)
    requires k <= |text| && StandsAt(text, k, "doarr") && Clear(text)
    ensures EndsClear(text[..k])
  {
    hide StandsAt;
    if k > 0 {
      NotClearBefore(text, k);
    }
  }

  lemma NotClearBefore(text: string, k: nat)
    requires 0 < k <= |text| && StandsAt(text, k, "doarr")
    ensures Clear(text) ==> !IsIdentChar(text[k - 1])
  {
  }

  lemma NotClear(text: string, i: nat)
    requires 0 < i < |text| && StandsAt(text, i, "doarr") && IsIdentChar(text[i - 1])
    ensures !Clear(text)
  {
  }

  /** An export that was found, and the text passed before it. */
  datatype Find = Find(pre: string, piece: Piece)

  function FindsText(finds: seq<Find>): string {
    if finds == [] then [] else finds[0].pre + (Text(finds[0].piece) + FindsText(finds[1..]))
  }

  function FindsNames(finds: seq<Find>): seq<string> {
    if finds == [] then []
    else (if finds[0].piece.Exp? then [finds[0].piece.name] else []) + FindsNames(finds[1..])
  }

  /** An export as C++ reads it: with a blank before its name if the text has them, and not inside a word. */
  ghost predicate IsFind(f: Find, text: string) {
    && IsFoundExport(f.piece)
    && (IsPiece(f.piece) <==> f.piece.b4 != [])
    && (Spaced(text) ==> IsPiece(f.piece))
    && (Clear(text) ==> EndsClear(f.pre))
  }

  /** The finds from place `k` of the text on. */
  lemma {:induction false} NamesFrom(text: string, r: string, k: nat, broken: bool)
    returns (finds: seq<Find>, tail: string)
    requires k <= |text| && r == text[k..] && Names(r, broken).Some?
    ensures r == FindsText(finds) + tail
    ensures forall f :: f in finds ==> IsFind(f, text)
    ensures Names(r, broken) == Some(FindsNames(finds))
    decreases Measure(r)
  {
    hide Scan.Scan, Text, IsPiece, IsFoundExport, Spaced, Clear, EndsClear;
    match Scan.Scan(r, ' ')
    case End =>
      finds, tail := [], r;
    case Export(name, rest) =>
      var pre, p := FoundIsExport(r, ' ');
      var n := |pre| + |Text(p)|;
      assert r[n..] == rest && text[k..][n..] == text[k + n..];
      var finds1: seq<Find>;
      finds1, tail := NamesFrom(text, rest, k + n, broken);
      var f := Find(pre, p);
      finds := [f] + finds1;
      FoundIsFind(text, k, pre, p, rest);
      assert finds[1..] == finds1;
      assert r == pre + (Text(p) + (FindsText(finds1) + tail)) == pre + (Text(p) + FindsText(finds1)) + tail;
  }

  lemma FoundIsFind(text: string, k: nat, pre: string, p: Piece, rest: string)
    requires k <= |text| && text[k..] == pre + (Text(p) + rest)
    requires IsFoundExport(p) && (IsPiece(p) <==> p.b4 != [])
    ensures p.Exp? && IsFind(Find(pre, p), text)
  {
    hide Text, IsPiece, Spaced, Clear;
    var n := k + |pre|;
    assert text[n..] == text[k..][|pre|..] == Text(p) + rest;
    UnspacedStands(p, text, n, rest);
    if Clear(text) {
      ClearMeansApart(p, text, n, rest);
      assert text[k..n] == text[k..][..|pre|] == pre;
      assert pre != [] ==> pre[|pre| - 1] == text[n - 1] == text[..n][n - 1];
    }
  }

  /**
   The names that repeated scans return stand in the text as exports, in their order. All of them are
   well formed where no name follows `exported` directly, and none stands inside a word where no `doarr`
   follows an identifier character.
   */
  lemma NamesStandInText(text: string) returns (finds: seq<Find>, tail: string)
    requires Names(text, false).Some?
    ensures text == FindsText(finds) + tail
    ensures Names(text, false) == Some(FindsNames(finds))
    ensures forall f :: f in finds ==> IsFoundExport(f.piece) && (IsPiece(f.piece) <==> f.piece.b4 != [])
    ensures Spaced(text) ==> forall f :: f in finds ==> IsPiece(f.piece)
    ensures Clear(text) ==> forall f :: f in finds ==> EndsClear(f.pre)
  {
    assert text[0..] == text;
    finds, tail := NamesFrom(text, text, 0, false);
    hide IsPiece, Spaced, Clear, EndsClear, IsFoundExport;
  }

  // ---------- an export directly after other identifier characters

  /** The length of the longest common start. */
  function Common(s: string, e: string): (n: nat)
    ensures n <= |s| && n <= |e|
  {
    if s == [] || e == [] || s[0] != e[0] then 0 else 1 + Common(s[1..], e[1..])
  }

  /** How many characters the scanner takes for a start of `doarr`. */
  function StumbleLength(u: string): (n: nat)
    requires u != []
    ensures 0 < n <= |u|
  {
    1 + Common(u[1..], "oarr")
  }

  /**
   Whether the scanner, at the start of a word and not after an identifier character, gets to the end of `u`
   still having the character before the word: when `u` is a row of `d`, `do`, `doa`, `doar`, and of `doarr`
   with one character after it.
   */
  predicate Looked(u: string)
    decreases |u|
  {
    u == [] ||
    (u[0] == 'd' && if "doarr" <= u then |u| > 5 && Looked(u[6..]) else Looked(u[StumbleLength(u)..]))
  }

  lemma {:induction false} ExactlyStops(s: string, e: string)
    requires Common(s, e) < |e| && Common(s, e) < |s|
    ensures Exactly(s, e) == (false, s[Common(s, e)..])
    decreases |e|
  {
    if s[0] == e[0] {
      ExactlyStops(s[1..], e[1..]);
    }
  }

  lemma {:induction false} CommonBefore(v: string, c: char, x: string, e: string)
    requires c !in e && !(e <= v)
    ensures Common(v + ([c] + x), e) == Common(v, e) < |e|
    decreases |e|
  {
    var s := v + ([c] + x);
    if v == [] {
      assert s == [c] + x;
    } else if v[0] == e[0] {
      assert s[1..] == v[1..] + ([c] + x);
      PrefixByTail(e, v);
      CommonBefore(v[1..], c, x, e[1..]);
    }
  }

  /** After an identifier character, `doarr` in a word is not looked at. */
  lemma {:induction false} DeafInWord(u: string, t: string, prev: char)
    requires AllIdent(u) && IsIdentChar(prev)
    ensures Scan.Scan(u + ("doarr" + t), prev) == Scan.Scan(t, 'r')
    decreases |u|
  {
    hide Scan.ScanExport, Scan.SkipString, Scan.SkipRawString;
    var s := "doarr" + t;
    var o := "oarr" + t;
    Doarr(t);
    assert s == ['d'] + o && (['d'] + o)[1..] == o;
    if u == [] {
      assert u + s == s;
      FourLetters(t, prev);
    } else if u == "R" {
      assert (u + s)[2..] == o;
      FourLetters(t, 'R');
    } else {
      var n := if u[0] == 'R' then 2 else 1;
      assert (u + s)[n..] == u[n..] + s && (n == 2 ==> (u + s)[1] == u[1]);
      DeafInWord(u[n..], t, if u[0] == 'd' then prev else u[0]);
    }
  }

  /** After `doarr` in a word, the next character is read with it. */
  lemma DoarrMisses(v: string, r: string, prev: char)
    requires v != [] && IsIdentChar(v[0]) && !IsIdentChar(prev)
    ensures Scan.Scan("doarr" + (v + r), prev) == Scan.Scan(v[1..] + r, prev)
  {
    BareMisses("", v, r);
    Doarr(v + r);
    hide *;
    assert "" + (v + r) == v + r;
    MissGoesOn("oarr" + (v + r), v[1..] + r, prev);
  }

  lemma DoarrTwice(t: string, prev: char)
    requires !IsIdentChar(prev)
    ensures Scan.Scan("doarr" + ("doarr" + t), prev) == Scan.Scan(t, 'r')
  {
    var d := "doarr";
    assert IsIdentChar(d[0]) && d[1..] == "oarr";
    DoarrMisses(d, t, prev);
    FourLetters(t, prev);
  }

  /**
   A `doarr` in a word is looked at exactly when what stands before it in the word leaves the scanner with
   the character before the word; otherwise reading goes on after it.
   */
  lemma {:induction false} DoarrInWord(u: string, t: string, prev: char)
    requires AllIdent(u) && !IsIdentChar(prev)
    ensures Scan.Scan(u + ("doarr" + t), prev) ==
      if Looked(u) then Scan.Scan("doarr" + t, prev) else Scan.Scan(t, 'r')
    decreases |u|
  {
    hide Scan.Scan, StumbleLength;
    var d := "doarr";
    var s := d + t;
    if u == [] {
      assert u + s == s;
    } else if u[0] != 'd' {
      WordStarts(u, t, prev);
    } else if d <= u {
      var v := u[5..];
      assert u == d + v;
      if v == [] {
        assert u + s == d + s;
        DoarrTwice(t, prev);
      } else {
        assert u + s == d + (v + s);
        assert v[0] == u[5] && v[1..] == u[6..];
        DoarrMisses(v, s, prev);
        DoarrInWord(u[6..], t, prev);
      }
    } else {
      assert s[0] == 'd';
      StumbleStep(u, s, prev);
      DoarrInWord(u[StumbleLength(u)..], t, prev);
    }
  }

  /** A word that does not start with `d` is not looked at any more. */
  lemma WordStarts(u: string, t: string, prev: char)
    requires AllIdent(u) && u != [] && u[0] != 'd'
    ensures Scan.Scan(u + ("doarr" + t), prev) == Scan.Scan(t, 'r')
  {
    hide Scan.ScanExport, Scan.SkipString, Scan.SkipRawString;
    var s := "doarr" + t;
    if u == "R" {
      DeafInWord(u, t, 'R');
      assert (u + s)[1] == s[0] == 'd';
    } else {
      var n := if u[0] == 'R' then 2 else 1;
      assert (u + s)[n..] == u[n..] + s && (n == 2 ==> (u + s)[1] == u[1]);
      DeafInWord(u[n..], t, u[0]);
    }
  }

  lemma StumbleStep(u: string, s: string, prev: char)
    requires u != [] && u[0] == 'd' && !("doarr" <= u) && !IsIdentChar(prev) && s != [] && s[0] == 'd'
    ensures Scan.Scan(u + s, prev) == Scan.Scan(u[StumbleLength(u)..] + s, prev)
  {
    StumbleStops(u, s);
    HeadFirst(u, s);
    hide *;
    MissedOarr(u[1..] + s);
    MissGoesOn(u[1..] + s, u[StumbleLength(u)..] + s, prev);
  }

  lemma HeadFirst(u: string, s: string)
    requires u != []
    ensures u + s == [u[0]] + (u[1..] + s)
  {
  }

  lemma StumbleStops(u: string, s: string)
    requires u != [] && u[0] == 'd' && !("doarr" <= u) && s != [] && s[0] == 'd'
    ensures Scan.Exactly(u[1..] + s, "oarr") == (false, u[StumbleLength(u)..] + s)
  {
    var e := "oarr";
    PrefixByTail("doarr", u);
    assert "doarr"[1..] == e && 'd' !in e;
    StopsBefore(u[1..], s, e);
    var n := StumbleLength(u);
    assert u[1..][n - 1..] == u[n..];
  }

  lemma StopsBefore(v: string, s: string, e: string)
    requires s != [] && s[0] !in e && !(e <= v)
    ensures Scan.Exactly(v + s, e) == (false, v[Common(v, e)..] + s)
  {
    hide Common, Exactly;
    assert s == [s[0]] + s[1..];
    CommonBefore(v, s[0], s[1..], e);
    ExactlyStops(v + s, e);
    var n := Common(v, e);
    assert (v + s)[n..] == v[n..] + s;
  }

  /** So an export directly after such characters is taken for one. */
  lemma ExportInWord(u: string, p: Piece, rest: string, prev: char)
    requires AllIdent(u) && !IsIdentChar(prev) && IsFoundExport(p)
    ensures Scan.Scan(u + (Text(p) + rest), prev) ==
      if Looked(u) then Export(p.name, rest)
      else Scan.Scan(ExpTail(p.b1, p.b2, p.b3, p.b4, p.name, p.b5, rest), 'r')
  {
    var t := ExpTail(p.b1, p.b2, p.b3, p.b4, p.name, p.b5, rest);
    ExportText(p, rest);
    Doarr(t);
    hide *;
    DoarrInWord(u, t, prev);
    ExportStep(p, rest, prev);
  }

  // ---------- texts that C++ reads differently

  const GLUED := Exp("", "", "", "", "f", "")

  lemma GluedText()
    ensures IsFoundExport(GLUED) && !IsPiece(GLUED) && Text(GLUED) == "doarr::exportedf("
  {
    assert !HasDoubleUnderscore("f");
    assert "f" + ("" + ("(" + "")) == "f(";
    assert "" + ("f" + ("" + ("(" + ""))) == "f(";
    assert "exported" + "f(" == "exportedf(";
    assert "" + (":" + ("" + (":" + ("" + "exportedf(")))) == "::exportedf(";
  }

  /** A name directly after `exported`, where C++ reads one longer word. */
  lemma GluedNameExample() returns (text: string)
    ensures text == "doarr::exportedf(" && !Spaced(text)
    ensures Scan.Scan(text, ' ') == Export("f", "")
  {
    GluedText();
    text := Text(GLUED);
    NotSpaced(text, 7);
    hide *;
    ExportStep(GLUED, "", ' ');
    assert text + "" == text;
  }

  lemma Prefixes() returns (d: string, x: string)
    ensures d == "d" && x == "doarrx" && AllIdent(d) && AllIdent(x) && !IsIdentChar(' ')
    ensures Looked(d) && Looked(x)
  {
    d, x := "d", "doarrx";
    assert d[1..] == [] && x[6..] == [];
    assert x == "doarr" + "x";
  }

  /** A letter directly before `doarr`, where C++ reads one longer word. */
  lemma WordStartExample() returns (text: string)
    ensures text == "ddoarr::exportedf(" && !Clear(text)
    ensures Scan.Scan(text, ' ') == Export("f", "")
  {
    GluedText();
    var d, x := Prefixes();
    var found := Text(GLUED);
    text := AfterLetter(d, found);
    hide *;
    ExportInWord(d, GLUED, "", ' ');
    assert found + "" == found;
  }

  /** Another longer word: the `x` after the first `doarr` is read with it, and forgotten. */
  lemma SecondDoarrExample() returns (text: string)
    ensures text == "doarrxdoarr::exportedf(" && !Clear(text)
    ensures Scan.Scan(text, ' ') == Export("f", "")
  {
    GluedText();
    var d, x := Prefixes();
    var found := Text(GLUED);
    text := AfterWord(x, found);
    hide *;
    ExportInWord(x, GLUED, "", ' ');
    assert found + "" == found;
  }

  lemma AfterLetter(d: string, found: string) returns (text: string)
    requires d == "d" && found == "doarr::exportedf("
    ensures text == d + found == "ddoarr::exportedf(" && !Clear(text)
  {
    text := d + found;
    DoarrAfter(text, d, found);
    NotClear(text, 1);
  }

  lemma AfterWord(x: string, found: string) returns (text: string)
    requires x == "doarrx" && found == "doarr::exportedf("
    ensures text == x + found == "doarrxdoarr::exportedf(" && !Clear(text)
  {
    text := x + found;
    DoarrAfter(text, x, found);
    NotClear(text, 6);
  }

  lemma DoarrAfter(text: string, before: string, found: string)
    requires text == before + found && |found| > 5 && found[..5] == "doarr"
    ensures StandsAt(text, |before|, "doarr")
  {
    assert text[|before|..|before| + 5] == found[..5];
  }

  /**
   A quote in a character literal: C++ reads the rest as a string literal, the scanner as code. Both
   conditions on texts are met.
   */
  lemma QuoteExample() returns (text: string)
    ensures text == "'\"'\"doarr::exported f(" && Spaced(text) && Clear(text)
    ensures Scan.Scan(text, ' ') == Export("f", "")
  {
    var p := Exp("", "", "", " ", "f", "");
    SpacedText(p);
    var quote, body, found := Gap('\''), "'", Text(p);
    var literal := Text(Str(body)) + found;
    text := Text(quote) + literal;
    QuotedText(text, found);
    hide *;
    var last := LiteralStep(quote, literal, ' ');
    StringStep(body, found, last);
    ExportStep(p, "", '"');
    assert found + "" == found;
  }

  lemma SpacedText(p: Piece)
    requires p == Exp("", "", "", " ", "f", "")
    ensures IsFoundExport(p) && Text(p) == "doarr::exported f("
  {
    assert !HasDoubleUnderscore("f");
    assert "f" + ("" + ("(" + "")) == "f(";
    assert " " + ("f" + ("" + ("(" + ""))) == " f(";
    assert "exported" + " f(" == "exported f(";
    assert "" + (":" + ("" + (":" + ("" + "exported f(")))) == "::exported f(";
  }

  lemma QuotedText(text: string, found: string)
    requires found == "doarr::exported f("
    requires text == Text(Gap('\'')) + (Text(Str("'")) + found)
    ensures text == "'\"'\"doarr::exported f(" && Spaced(text) && Clear(text)
    ensures IsPiece(Gap('\'')) && IsStringBody("'")
  {
    assert text == "'\"'\"doarr::exported f(";
    QuotedIsSpaced(text);
    QuotedIsClear(text);
  }

  lemma QuotedIsSpaced(text: string)
    requires text == "'\"'\"doarr::exported f("
    ensures Spaced(text)
  {
    assert |text| == 22 && forall i: nat :: i < 14 && text[i] == 'e' ==> i == 11;
    forall i: nat | i + 8 < |text| && StandsAt(text, i, "exported")
      ensures i == 11
    {
      assert text[i] == text[i..i + 8][0] == 'e';
    }
  }

  lemma QuotedIsClear(text: string)
    requires text == "'\"'\"doarr::exported f("
    ensures Clear(text)
  {
    assert forall i: nat :: i + 1 < |text| && text[i] == 'd' && text[i + 1] == 'o' ==> i == 4;
    forall i: nat | 0 < i < |text| && StandsAt(text, i, "doarr")
      ensures i == 4
    {
      assert text[i] == text[i..i + 5][0] == 'd' && text[i + 1] == text[i..i + 5][1] == 'o';
    }
  }
}
