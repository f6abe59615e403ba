/**
 The compiler arguments as C string literals in the generated file (dcc/dcc_gen.c, lines 83-97).
 */
module GenArgs {
  import opened Wrappers
  import opened CText

  /** A C string: bytes other than NUL. */
  predicate IsArg(a: string) {
    forall i :: 0 <= i < |a| ==> 0 < a[i] as nat < 256
  }

  function LowHex(d: nat): char
    requires d < 16
  {
    (if d < 10 then d + '0' as nat else d - 10 + 'a' as nat) as char
  }

  function HexPair(c: char): (s: string)
    requires c as nat < 256
    ensures |s| == 2
  {
    [LowHex(c as nat / 16), LowHex(c as nat % 16)]
  }

  predicate IsPlain(c: char) {
    32 <= c as nat < 127
  }

  /** What is written for the first character of `a`. */
  function EscapeFirst(a: string): string
    requires a != [] && IsArg(a)
  {
    var c := a[0];
    if c == '?' && |a| > 1 && a[1] == '?' then "?\"\""
    else if c == '"' || c == '\\' then ['\\', c]
    else if IsPlain(c) then [c]
    else "\\x" + HexPair(c)
  }

  function EscapeArg(a: string): string
    requires IsArg(a)
  {
    if a == [] then [] else EscapeFirst(a) + EscapeArg(a[1..])
  }

  function EmitArgs(args: seq<string>): string
    requires forall i :: 0 <= i < |args| ==> IsArg(args[i])
  {
    if args == [] then []
    else " \"" + EscapeArg(args[0]) + "\"," + EmitArgs(args[1..])
  }

  lemma EscapeNext(a: string, p: nat)
    requires IsArg(a) && p < |a|
    ensures EscapeArg(a[p..]) == EscapeFirst(a[p..]) + EscapeArg(a[p + 1..])
  {
    assert a[p..][1..] == a[p + 1..];
  }

  lemma EmitNext(args: seq<string>, k: nat)
    requires k < |args| && forall i :: 0 <= i < |args| ==> IsArg(args[i])
    ensures EmitArgs(args[k..]) == " \"" + EscapeArg(args[k]) + "\"," + EmitArgs(args[k + 1..])
  {
    assert args[k..][1..] == args[k + 1..];
  }

  method GenerateArgs(args: seq<string>) returns (out: string)
    requires forall i :: 0 <= i < |args| ==> IsArg(args[i])
    ensures out == EmitArgs(args)
  {
    hide EscapeArg;
    out := "";
    assert args[0..] == args;
    for k := 0 to |args|
      invariant out + EmitArgs(args[k..]) == EmitArgs(args)
    {
      EmitNext(args, k);
      ghost var before, tail := out, EmitArgs(args[k + 1..]);
      hide EmitArgs;
      out := out + " \"";
      out := WriteArg(out, args[k]);
      out := out + "\",";
      assert out + tail == before + (" \"" + EscapeArg(args[k]) + "\"," + tail);
    }
    assert args[|args|..] == [];
    assert out + EmitArgs([]) == out;
  }

  /** Writes the characters of one argument after `start`. */
  method WriteArg(start: string, arg: string) returns (out: string)
    requires IsArg(arg)
    ensures out == start + EscapeArg(arg)
  {
    out := start;
    ghost var done := "";
    EscapedAll(arg);
    for p := 0 to |arg|
      invariant out == start + done
      invariant done + EscapeArg(arg[p..]) == EscapeArg(arg)
    {
      hide EscapeArg, EscapeFirst;
      EscapeNext(arg, p);
      FirstByIndex(arg, p);
      ghost var first := EscapeFirst(arg[p..]);
      if arg[p] == '?' && p + 1 < |arg| && arg[p + 1] == '?' {
        out := out + "?\"\"";
      } else if arg[p] == '"' || arg[p] == '\\' {
        out := out + ['\\', arg[p]];
      } else if IsPlain(arg[p]) {
        out := out + [arg[p]];
      } else {
        out := out + ("\\x" + HexPair(arg[p]));
      }
      Append(start, done, first, EscapeArg(arg[p + 1..]));
      done := done + first;
    }
    assert done + [] == done;
  }

  lemma EscapedAll(a: string)
    requires IsArg(a)
    ensures "" + EscapeArg(a[0..]) == EscapeArg(a) && EscapeArg(a[|a|..]) == []
  {
    assert a[0..] == a;
  }

  lemma FirstByIndex(a: string, p: nat)
    requires IsArg(a) && p < |a|
    ensures EscapeFirst(a[p..]) ==
      if a[p] == '?' && p + 1 < |a| && a[p + 1] == '?' then "?\"\""
      else if a[p] == '"' || a[p] == '\\' then ['\\', a[p]]
      else if IsPlain(a[p]) then [a[p]]
      else "\\x" + HexPair(a[p])
  {
  }

  // ---------- reading one argument back

  /** A byte outside 32 to 126 directly before a hexadecimal digit. */
  predicate Swallows(a: string, i: nat) {
    && i + 1 < |a|
    && (a[i] as int < 32 || a[i] as int > 126)
    && ('0' <= a[i + 1] <= '9' || 'a' <= a[i + 1] <= 'f' || 'A' <= a[i + 1] <= 'F')
  }

  predicate IsSafe(a: string) {
    forall i :: 0 <= i < |a| ==> !Swallows(a, i)
  }

  /** What follows the escaped characters of an argument: its closing quote and a comma. */
  function Closed(a: string, r: string): string
    requires IsArg(a)
  {
    EscapeArg(a) + ("\"," + r)
  }

  lemma ClosedStep(a: string, r: string)
    requires IsArg(a) && a != []
    ensures Closed(a, r) == EscapeFirst(a) + Closed(a[1..], r)
  {
    assert EscapeFirst(a) + EscapeArg(a[1..]) + ("\"," + r) == EscapeFirst(a) + (EscapeArg(a[1..]) + ("\"," + r));
  }

  lemma HexFirst(a: string)
    requires IsArg(a) && a != []
    ensures EscapeFirst(a) != []
    ensures IsHex(a[0]) ==> EscapeFirst(a) == [a[0]]
    ensures !IsHex(a[0]) ==> !IsHex(EscapeFirst(a)[0])
  {
  }

  lemma RunStep(c: char, s: string)
    ensures HexRun([c] + s) == if IsHex(c) then 1 + HexRun(s) else 0
  {
    assert ([c] + s)[1..] == s;
  }

  /** The digits that a greedy escape before `a` would swallow: the leading ones of `a` itself. */
  lemma {:induction false} DigitsAhead(a: string, r: string)
    requires IsArg(a)
    ensures HexRun(Closed(a, r)) == HexRun(a)
    ensures Closed(a, r)[HexRun(a)..] == Closed(a[HexRun(a)..], r)
  {
    hide Closed, HexRun, EscapeFirst;
    if a == [] || !IsHex(a[0]) {
      NoDigitAhead(a, r);
    } else {
      var t, n := Closed(a[1..], r), HexRun(a[1..]);
      DigitsAhead(a[1..], r);
      ClosedStep(a, r);
      HexFirst(a);
      RunStep(a[0], t);
      RunStep(a[0], a[1..]);
      assert a == [a[0]] + a[1..];
      assert ([a[0]] + t)[n + 1..] == t[n..];
      assert a[1..][n..] == a[n + 1..];
    }
  }

  lemma NoDigitAhead(a: string, r: string)
    requires IsArg(a) && (a == [] || !IsHex(a[0]))
    ensures HexRun(Closed(a, r)) == 0 && HexRun(a) == 0
    ensures Closed(a, r)[0..] == Closed(a[0..], r)
  {
    assert a[0..] == a;
    if a == [] {
      assert Closed(a, r) == ['"'] + ("," + r);
    } else {
      ClosedStep(a, r);
      HexFirst(a);
      assert Closed(a, r)[0] == EscapeFirst(a)[0];
    }
  }

  lemma {:induction false} HexRunAfter(d: string, s: string)
    requires forall i :: 0 <= i < |d| ==> IsHex(d[i])
    ensures HexRun(d + s) == |d| + HexRun(s)
  {
    if d == [] {
      assert d + s == s;
    } else {
      assert (d + s)[1..] == d[1..] + s;
      HexRunAfter(d[1..], s);
    }
  }

  lemma HexPairValue(c: char)
    requires c as nat < 256
    ensures forall i :: 0 <= i < 2 ==> IsHex(HexPair(c)[i])
    ensures HexValue(HexPair(c)) == c as nat
  {
    var d := HexPair(c);
    assert d[..1] == [d[0]] && d[..1][..0] == [];
    assert HexValue([]) == 0;
    assert HexValue(d[..1]) == HexDigit(d[0]);
    assert HexValue(d) == 16 * HexValue(d[..1]) + HexDigit(d[1]);
    LowHexDigit(c as nat / 16);
    LowHexDigit(c as nat % 16);
  }

  lemma LowHexDigit(d: nat)
    requires d < 16
    ensures IsHex(LowHex(d)) && HexDigit(LowHex(d)) == d
  {
  }

  /** An escape in front of digits takes them all; in front of anything else it has its own value. */
  lemma HexEscapeReads(c: char, s: string)
    requires c as nat < 256
    ensures
      var e := Escape(['x'] + (HexPair(c) + s));
      && (HexRun(s) == 0 ==> e == Some((c, 3)))
      && (e.Some? ==> e.value.1 == 3 + HexRun(s))
  {
    var d := HexPair(c);
    HexPairValue(c);
    hide HexPair;
    var t := ['x'] + (d + s);
    assert t[1..] == d + s;
    HexRunAfter(d, s);
    hide HexRun;
    assert (d + s)[..2] == d;
  }

  lemma ReadPlain(c: char, t: string)
    requires c != '"' && c != '\\' && c != '\n'
    ensures Literals([c] + t) == Prefixed(c, Literals(t))
  {
    assert ([c] + t)[1..] == t;
  }

  lemma ReadEscape(e: string)
    ensures Literals(['\\'] + e) ==
      if Escape(e).None? then None else Prefixed(Escape(e).value.0, Literals(e[Escape(e).value.1..]))
  {
    var s := ['\\'] + e;
    assert s[1..] == e;
    if Escape(e).Some? {
      var n := Escape(e).value.1;
      assert s[1 + n..] == e[n..];
    }
  }

  /** A literal closed and opened again between two question marks. */
  lemma ReadSplit(t: string)
    ensures Literals("?\"\"" + t) == Prefixed('?', Literals(t))
  {
    var v := ['"'] + t;
    var u := ['"'] + v;
    assert "?\"\"" + t == ['?'] + u;
    ReadPlain('?', u);
    assert u[1..] == v && v[1..] == t;
    assert SkipSpaces(v) == v;
  }

  lemma ReadEnd(r: string)
    ensures Literals(Closed([], r)) == Some(([], "," + r))
  {
    var u := ['"'] + ("," + r);
    assert Closed([], r) == u;
    assert u[1..] == "," + r;
    assert SkipSpaces("," + r) == "," + r;
  }

  lemma ReadFirst(a: string, r: string)
    requires IsArg(a) && a != [] && !Swallows(a, 0)
    ensures Literals(Closed(a, r)) == Prefixed(a[0], Literals(Closed(a[1..], r)))
  {
    hide Closed, Literals, Escape, EscapeFirst, HexRun;
    var c, t := a[0], Closed(a[1..], r);
    FirstText(a, r);
    if c == '?' && |a| > 1 && a[1] == '?' {
      ReadSplit(t);
    } else if c == '"' || c == '\\' {
      ReadEscape([c] + t);
      QuotedReads(c, t);
      assert ([c] + t)[1..] == t;
    } else if IsPlain(c) {
      ReadPlain(c, t);
    } else {
      ReadHexFirst(a, r);
      NoRun(a);
    }
  }

  lemma NoRun(a: string)
    requires a != [] && !IsPlain(a[0]) && !Swallows(a, 0)
    ensures HexRun(a[1..]) == 0
  {
    assert |a| > 1 ==> a[1..][0] == a[1];
  }

  lemma FirstText(a: string, r: string)
    requires IsArg(a) && a != []
    ensures var t := Closed(a[1..], r);
      if a[0] == '?' && |a| > 1 && a[1] == '?' then Closed(a, r) == "?\"\"" + t
      else if a[0] == '"' || a[0] == '\\' then Closed(a, r) == ['\\'] + ([a[0]] + t)
      else if IsPlain(a[0]) then Closed(a, r) == [a[0]] + t
      else true
  {
    ClosedStep(a, r);
    hide Closed, HexPair, IsArg;
    if a[0] == '"' || a[0] == '\\' {
      BackslashFirst(a[0], Closed(a[1..], r));
    }
  }

  lemma BackslashFirst(c: char, t: string)
    ensures ['\\', c] + t == ['\\'] + ([c] + t)
  {
  }

  lemma QuotedReads(c: char, t: string)
    requires c == '"' || c == '\\'
    ensures Escape([c] + t) == Some((c, 1))
  {
  }

  lemma HexFirstText(a: string, r: string)
    requires IsArg(a) && a != [] && !IsPlain(a[0])
    ensures Closed(a, r) == ['\\'] + (['x'] + (HexPair(a[0]) + Closed(a[1..], r)))
  {
    ClosedStep(a, r);
    assert "\\x" == ['\\'] + ['x'];
  }

  /** What is read for a character written as a hexadecimal escape. */
  lemma ReadHexFirst(a: string, r: string)
    requires IsArg(a) && a != [] && !IsPlain(a[0])
    ensures var n := HexRun(a[1..]);
      && (n == 0 ==> Literals(Closed(a, r)) == Prefixed(a[0], Literals(Closed(a[1..], r))))
      && (n > 0 ==> Literals(Closed(a, r)) == None
                    || SomePrefix(Literals(Closed(a, r)), Literals(Closed(a[1 + n..], r))))
  {
    hide Closed, Literals, Escape, HexRun, HexPair, EscapeFirst;
    var c, t, n := a[0], Closed(a[1..], r), HexRun(a[1..]);
    var e := ['x'] + (HexPair(c) + t);
    HexFirstText(a, r);
    DigitsAhead(a[1..], r);
    HexEscapeReads(c, t);
    ReadEscape(e);
    assert a[1..][n..] == a[1 + n..];
    HexDrop(HexPair(c), t, n);
    if n > 0 && Escape(e).Some? {
      assert Literals(Closed(a, r)) == Prefixed(Escape(e).value.0, Literals(Closed(a[1 + n..], r)));
    }
    assert a[1..][0..] == a[1..];
  }

  lemma HexDrop(d: string, t: string, n: nat)
    requires |d| == 2 && n <= |t|
    ensures (['x'] + (d + t))[3 + n..] == t[n..]
  {
  }

  ghost predicate SomePrefix(r: Option<(string, string)>, s: Option<(string, string)>) {
    exists c :: r == Prefixed(c, s)
  }

  lemma SafeTail(a: string)
    requires a != [] && !Swallows(a, 0)
    ensures IsSafe(a) <==> IsSafe(a[1..])
  {
    forall i | 0 <= i < |a| - 1
      ensures Swallows(a[1..], i) <==> Swallows(a, i + 1)
    {
    }
    if IsSafe(a[1..]) {
      forall i | 0 <= i < |a|
        ensures !Swallows(a, i)
      {
        if i > 0 {
          assert !Swallows(a[1..], i - 1);
        }
      }
    }
  }

  /** Reading an escaped argument gives it back if it is safe, and fewer characters, or nothing, if not. */
  lemma {:induction false} ReadArg(a: string, r: string)
    requires IsArg(a)
    ensures IsSafe(a) ==> Literals(Closed(a, r)) == Some((a, "," + r))
    ensures !IsSafe(a) ==>
      match Literals(Closed(a, r))
      case None => true
      case Some((v, t)) => |v| < |a| && t == "," + r
    decreases |a|
  {
    hide Literals, Closed;
    if a == [] {
      ReadEnd(r);
    } else if !Swallows(a, 0) {
      ReadFirst(a, r);
      SafeTail(a);
      ReadArg(a[1..], r);
      assert a == [a[0]] + a[1..];
    } else {
      var n := HexRun(a[1..]);
      ReadHexFirst(a, r);
      assert n > 0 by {
        assert a[1..][0] == a[1];
      }
      ReadArg(a[1 + n..], r);
    }
  }

  // ---------- the whole list

  /** Every character of the output is printable, so it stands on one line. */
  lemma {:induction false} EscapedIsOneLine(a: string)
    requires IsArg(a)
    ensures OneLine(EscapeArg(a))
  {
    if a != [] {
      EscapedIsOneLine(a[1..]);
    }
  }

  lemma {:induction false} EmittedIsOneLine(args: seq<string>)
    requires forall i :: 0 <= i < |args| ==> IsArg(args[i])
    ensures OneLine(EmitArgs(args))
  {
    if args != [] {
      EscapedIsOneLine(args[0]);
      EmittedIsOneLine(args[1..]);
    }
  }

  lemma MarksApart(s: string, t: string)
    requires NoTwoMarks(s) && NoTwoMarks(t)
    requires s == [] || t == [] || s[|s| - 1] != '?' || t[0] != '?'
    ensures NoTwoMarks(s + t)
  {
  }

  /** Escaping separates question marks; it starts with one only where the argument does. */
  lemma {:induction false} EscapedHasNoTwoMarks(a: string)
    requires IsArg(a)
    ensures NoTwoMarks(EscapeArg(a))
    ensures EscapeArg(a) != [] ==> a != [] && (EscapeArg(a)[0] == '?' ==> a[0] == '?')
  {
    if a != [] {
      EscapedHasNoTwoMarks(a[1..]);
      FirstHasOneMark(a);
      MarksApart(EscapeFirst(a), EscapeArg(a[1..]));
    }
  }

  lemma FirstHasOneMark(a: string)
    requires IsArg(a) && a != []
    ensures NoTwoMarks(EscapeFirst(a)) && EscapeFirst(a) != []
    ensures EscapeFirst(a)[0] == '?' ==> a[0] == '?'
    ensures EscapeFirst(a)[|EscapeFirst(a)| - 1] == '?' ==> |a| == 1 || a[1] != '?'
  {
  }

  lemma {:induction false} EmittedHasNoTwoMarks(args: seq<string>)
    requires forall i :: 0 <= i < |args| ==> IsArg(args[i])
    ensures NoTwoMarks(EmitArgs(args))
    ensures args != [] ==> EmitArgs(args)[0] == ' '
  {
    if args != [] {
      EscapedHasNoTwoMarks(args[0]);
      EmittedHasNoTwoMarks(args[1..]);
      MarksApart(" \"", EscapeArg(args[0]));
      MarksApart(" \"" + EscapeArg(args[0]), "\",");
      MarksApart(" \"" + EscapeArg(args[0]) + "\",", EmitArgs(args[1..]));
    }
  }

  /** What a C compiler makes of the emitted list: trigraphs, splicing, literals. */
  function Decoded(args: seq<string>): Option<seq<string>>
    requires forall i :: 0 <= i < |args| ==> IsArg(args[i])
  {
    Initialiser(Phases12(EmitArgs(args)))
  }

  lemma {:induction false} ReadEmitted(args: seq<string>)
    requires forall i :: 0 <= i < |args| ==> IsArg(args[i])
    ensures Initialiser(EmitArgs(args)) == Some(args) <==> forall i :: 0 <= i < |args| ==> IsSafe(args[i])
  {
    if args != [] {
      hide EscapeArg, IsSafe, IsArg, Literals, Closed, Initialiser;
      var r := EmitArgs(args[1..]);
      ReadEmitted(args[1..]);
      ReadArg(args[0], r);
      InitialiserStep(args[0], r);
      assert args == [args[0]] + args[1..];
      assert (forall i :: 0 <= i < |args| ==> IsSafe(args[i])) <==>
        IsSafe(args[0]) && forall i :: 0 <= i < |args[1..]| ==> IsSafe(args[1..][i]) by {
        AllSafe(args);
      }
    }
  }

  lemma AllSafe(args: seq<string>)
    requires args != []
    ensures (forall i :: 0 <= i < |args| ==> IsSafe(args[i])) <==>
      (IsSafe(args[0]) && forall i :: 0 <= i < |args[1..]| ==> IsSafe(args[1..][i]))
  {
    if IsSafe(args[0]) && forall i :: 0 <= i < |args[1..]| ==> IsSafe(args[1..][i]) {
      forall i | 0 <= i < |args|
        ensures IsSafe(args[i])
      {
        assert i > 0 ==> args[1..][i - 1] == args[i];
      }
    }
  }

  lemma InitialiserStep(a: string, r: string)
    requires IsArg(a)
    requires Literals(Closed(a, r)).Some? ==> Literals(Closed(a, r)).value.1 == "," + r
    ensures Initialiser(" \"" + EscapeArg(a) + "\"," + r) ==
      if Literals(Closed(a, r)).None? || Initialiser(r).None? then None
      else Some([Literals(Closed(a, r)).value.0] + Initialiser(r).value)
  {
    hide EscapeArg, Literals;
    var t := ['"'] + Closed(a, r);
    assert " \"" + EscapeArg(a) + "\"," + r == [' '] + t;
    assert ([' '] + t)[1..] == t;
    assert SkipSpaces([' '] + t) == SkipSpaces(t) == t;
    assert t[1..] == Closed(a, r);
    assert ("," + r)[1..] == r;
  }

  /** The arguments survive exactly when no escaped character stands before a hexadecimal digit. */
  lemma ArgsSurviveIffSafe(args: seq<string>)
    requires forall i :: 0 <= i < |args| ==> IsArg(args[i])
    ensures Decoded(args) == Some(args) <==> forall i :: 0 <= i < |args| ==> IsSafe(args[i])
  {
    EmittedIsOneLine(args);
    EmittedHasNoTwoMarks(args);
    PhasesKeep(EmitArgs(args));
    ReadEmitted(args);
  }

  /** Arguments of bytes 32 to 126 survive. */
  lemma PrintableSurvive(args: seq<string>)
    requires forall i, j :: 0 <= i < |args| && 0 <= j < |args[i]| ==> 32 <= args[i][j] as int <= 126
    ensures (forall i :: 0 <= i < |args| ==> IsArg(args[i])) && Decoded(args) == Some(args)
  {
    forall i | 0 <= i < |args|
      ensures IsArg(args[i]) && IsSafe(args[i])
    {
      PrintableIsSafe(args[i]);
    }
    hide IsArg, IsSafe, Decoded;
    ArgsSurviveIffSafe(args);
  }

  lemma PrintableIsSafe(a: string)
    requires forall j :: 0 <= j < |a| ==> 32 <= a[j] as int <= 126
    ensures IsArg(a) && IsSafe(a)
  {
  }

  /** A line feed before the letter b is read back as one character. */
  lemma GreedyEscapeExample()
    ensures IsArg("\nb") && !IsSafe("\nb")
    ensures Decoded(["\nb"]) != Some(["\nb"])
  {
    assert Swallows("\nb", 0);
    ArgsSurviveIffSafe(["\nb"]);
    assert ["\nb"][0] == "\nb";
  }
}
