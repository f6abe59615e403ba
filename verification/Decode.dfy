/**
 Generated text is uniquely decodable: a decoder that inverts the text generation of expression
 trees, under any of the characters that may follow an expression.
 */
module Decode {
  import opened Decimal
  import opened Atoms
  import opened Exprs

  datatype Parsed<T> = Fail | Done(value: T, rest: string)

  function WordRun(s: string): (n: nat)
    ensures n <= |s|
  {
    if s == [] || !IsWordChar(s[0]) then 0 else 1 + WordRun(s[1..])
  }

  function DigitRun(s: string): (n: nat)
    ensures n <= |s| && AllDigits(s[..n])
  {
    if s == [] || !IsDigit(s[0]) then 0 else 1 + DigitRun(s[1..])
  }

  /** The part of a slot after the array name: `[index].tag`. */
  function ParseSlot(s: string): (r: Parsed<Skel>)
    ensures r.Done? ==> |r.rest| < |s|
  {
    if s == [] || s[0] != '[' then Fail
    else
      var n := DigitRun(s[1..]);
      var t := s[1 + n..];
      if |t| < 3 || t[0] != ']' || t[1] != '.' || !IsTag(t[2]) then Fail
      else Done(Slot(Parse(s[1..][..n]), t[2]), t[3..])
  }

  function ParseAtom(s: string): (r: Parsed<Skel>)
    ensures r.Done? ==> |r.rest| < |s|
  {
    var n := WordRun(s);
    if s == [] then Fail
    else if s[0] == '\'' then if |s| < 3 then Fail else Done(SRaw(s[..3]), s[3..])
    else if n == 0 then Fail
    else if s[..n] == "DOARR_EXPORT" && "[" <= s[n..] then ParseSlot(s[n..])
    else Done(SRaw(s[..n]), s[n..])
  }

  function ParseHead(s: string): (r: Parsed<Skel>)
    ensures r.Done? ==> |r.rest| < |s|
    decreases |s|, 0
  {
    if s == [] || s[0] != '(' then ParseAtom(s)
    else
      var l := ParseExpr(s[1..]);
      if l.Fail? || l.rest == [] || l.rest[0] != '^' then Fail
      else
        var r := ParseExpr(l.rest[1..]);
        if r.Fail? || r.rest == [] || r.rest[0] != ')' then Fail
        else Done(SInfix(l.value, r.value), r.rest[1..])
  }

  function ParseExpr(s: string): (r: Parsed<Skel>)
    ensures r.Done? ==> |r.rest| < |s|
    decreases |s|, 2
  {
    var h := ParseHead(s);
    if h.Fail? then Fail else ParseSuffixes(h.value, h.rest)
  }

  /** The argument lists that follow `fn`, in parentheses or angle brackets. */
  function ParseSuffixes(fn: Skel, s: string): (r: Parsed<Skel>)
    ensures r.Done? ==> |r.rest| <= |s|
    decreases |s|, 1
  {
    if s == [] || (s[0] != '(' && s[0] != '<') then Done(fn, s)
    else
      var rbr := if s[0] == '(' then ')' else '>';
      var a := ParseArgs(s[1..], rbr);
      if a.Fail? then Fail else ParseSuffixes(SCall(fn, a.value, s[0], rbr), a.rest)
  }

  /** Comma-separated expressions up to and including the closing bracket. */
  function ParseArgs(s: string, rbr: char): (r: Parsed<seq<Skel>>)
    ensures r.Done? ==> |r.rest| < |s|
    decreases |s|, 4
  {
    if s != [] && s[0] == rbr then Done([], s[1..]) else ParseMoreArgs(s, rbr)
  }

  function ParseMoreArgs(s: string, rbr: char): (r: Parsed<seq<Skel>>)
    ensures r.Done? ==> |r.rest| < |s|
    decreases |s|, 3
  {
    var e := ParseExpr(s);
    if e.Fail? || e.rest == [] then Fail
    else if e.rest[0] == rbr then Done([e.value], e.rest[1..])
    else if ", " <= e.rest then
      var es := ParseMoreArgs(e.rest[2..], rbr);
      if es.Fail? then Fail else Done([e.value] + es.value, es.rest)
    else Fail
  }

  // ---------- what may follow an expression

  predicate Closes(r: string) {
    r == [] || r[0] == '(' || r[0] == '<' || r[0] == ')' || r[0] == '>' || r[0] == ',' || r[0] == '^'
  }

  lemma {:induction false} WordRunStops(t: string, r: string)
    requires forall i :: 0 <= i < |t| ==> IsWordChar(t[i])
    requires r == [] || !IsWordChar(r[0])
    ensures WordRun(t + r) == |t|
  {
    if t == [] {
      assert t + r == r;
    } else {
      assert (t + r)[1..] == t[1..] + r;
      WordRunStops(t[1..], r);
    }
  }

  lemma {:induction false} DigitRunStops(t: string, r: string)
    requires AllDigits(t)
    requires r == [] || !IsDigit(r[0])
    ensures DigitRun(t + r) == |t|
  {
    if t == [] {
      assert t + r == r;
    } else {
      assert (t + r)[1..] == t[1..] + r;
      DigitRunStops(t[1..], r);
    }
  }

  lemma AtomDecodes(t: string, r: string)
    requires IsAtom(t) && Closes(r)
    ensures ParseHead(t + r) == Done(SRaw(t), r)
  {
    AtomIsLiteralOrWord(t);
    var s := t + r;
    if IsCharLiteral(t) {
      assert s[..3] == t && s[3..] == r;
    } else {
      WordRunStops(t, r);
      assert IsWordChar(s[0]);
      assert s[..|t|] == t && s[|t|..] == r;
      assert !("[" <= r);
    }
  }

  lemma SlotDecodes(k: nat, tag: char, r: string)
    requires IsTag(tag)
    ensures ParseHead(SlotText(k, tag) + r) == Done(Slot(k, tag), r)
  {
    var u := "[" + (Digits(k) + ("]." + [tag] + r));
    SlotTextParts(k, tag, r);
    SlotIndexDecodes(k, tag, r);
    WordRunStops(SLOT_ARRAY, u);
    hide ParseSlot, WordRun, Digits;
    SlotOpens(u);
  }

  lemma SlotTextParts(k: nat, tag: char, r: string)
    ensures SlotText(k, tag) + r == SLOT_ARRAY + ("[" + (Digits(k) + ("]." + [tag] + r)))
  {
    hide SLOT_ARRAY, Digits;
  }

  lemma SlotOpens(u: string)
    requires "[" <= u && WordRun(SLOT_ARRAY + u) == |SLOT_ARRAY|
    ensures ParseHead(SLOT_ARRAY + u) == ParseSlot(u)
  {
    hide ParseSlot, WordRun;
    var s := SLOT_ARRAY + u;
    assert s[..|SLOT_ARRAY|] == SLOT_ARRAY && s[|SLOT_ARRAY|..] == u;
    assert s[0] == 'D';
  }

  lemma SlotIndexDecodes(k: nat, tag: char, r: string)
    requires IsTag(tag)
    ensures ParseSlot("[" + (Digits(k) + ("]." + [tag] + r))) == Done(Slot(k, tag), r)
  {
    var d, tail := Digits(k), "]." + [tag] + r;
    var u := "[" + (d + tail);
    assert u[1..] == d + tail;
    DigitRunStops(d, tail);
    assert (d + tail)[..|d|] == d;
    assert u[1 + |d|..] == tail;
    assert tail[3..] == r;
    ParseDigits(k);
  }

  /** Decoding the text of a tree yields its skeleton and goes on with the text after it. */
  lemma {:induction false} ParseText(e: Expr, k: nat, r: string)
    requires Buildable(e) && Closes(r)
    ensures ParseExpr(WriteTo(e, k).0 + r) == ParseSuffixes(Skeleton(e, k), r)
    decreases e, 1
  {
    match e
    case Dyn(tag, _) =>
      SlotDecodes(k, tag, r);
    case Call(_, _, _, _) =>
      ParseCallText(e, k, r);
    case Infix(_, _) =>
      ParseInfixText(e, k, r);
    case Raw(code) =>
      RawCodeText(code);
      AtomDecodes(CStr(code), r);
  }

  lemma {:induction false} ParseCallText(e: Expr, k: nat, r: string)
    requires e.Call? && Buildable(e) && Closes(r)
    ensures ParseExpr(WriteTo(e, k).0 + r) == ParseSuffixes(Skeleton(e, k), r)
    decreases e, 0
  {
    hide ParseExpr, ParseSuffixes, ParseArgs, WriteTo, WriteList, Skeleton, SkeletonList;
    var k1 := k + NumParams(e.fn);
    var u := WriteList(e.args, k1).0 + [e.rbr] + r;
    CallTextParts(e, k, r);
    ParseText(e.fn, k, [e.lbr] + u);
    ParseListText(e.args, k1, e.rbr, r);
    SuffixStep(Skeleton(e.fn, k), SkeletonList(e.args, k1), e.lbr, e.rbr, u, r);
  }

  lemma CallTextParts(e: Expr, k: nat, r: string)
    requires e.Call?
    ensures WriteTo(e, k).0 + r
         == WriteTo(e.fn, k).0 + ([e.lbr] + (WriteList(e.args, k + NumParams(e.fn)).0 + [e.rbr] + r))
    ensures Skeleton(e, k)
         == SCall(Skeleton(e.fn, k), SkeletonList(e.args, k + NumParams(e.fn)), e.lbr, e.rbr)
  {
    SlotsAdvance(e.fn, k);
  }

  lemma SuffixStep(fn: Skel, args: seq<Skel>, lbr: char, rbr: char, u: string, r: string)
    requires AreBrackets(lbr, rbr) && ParseArgs(u, rbr) == Done(args, r)
    ensures ParseSuffixes(fn, [lbr] + u) == ParseSuffixes(SCall(fn, args, lbr, rbr), r)
  {
    assert ([lbr] + u)[1..] == u;
  }

  lemma {:induction false} ParseInfixText(e: Expr, k: nat, r: string)
    requires e.Infix? && Buildable(e) && Closes(r)
    ensures ParseExpr(WriteTo(e, k).0 + r) == ParseSuffixes(Skeleton(e, k), r)
    decreases e, 0
  {
    hide ParseExpr, ParseSuffixes, ParseHead, WriteTo, Skeleton;
    var k1 := k + NumParams(e.left);
    var lt, rt := WriteTo(e.left, k).0, WriteTo(e.right, k1).0;
    var close := ")" + r;
    var tail := "^" + (rt + close);
    InfixTextParts(e, k, r);
    ParseText(e.left, k, tail);
    ParseText(e.right, k1, close);
    var left, right := Skeleton(e.left, k), Skeleton(e.right, k1);
    NoSuffix(left, tail);
    NoSuffix(right, close);
    InfixStep(lt + tail, rt + close, r, left, right);
    HeadThenSuffixes("(" + (lt + tail), SInfix(left, right), r);
  }

  lemma InfixTextParts(e: Expr, k: nat, r: string)
    requires e.Infix?
    ensures WriteTo(e, k).0 + r
         == "(" + (WriteTo(e.left, k).0 + ("^" + (WriteTo(e.right, k + NumParams(e.left)).0 + (")" + r))))
    ensures Skeleton(e, k) == SInfix(Skeleton(e.left, k), Skeleton(e.right, k + NumParams(e.left)))
  {
    SlotsAdvance(e.left, k);
  }

  lemma NoSuffix(fn: Skel, s: string)
    requires s != [] && s[0] != '(' && s[0] != '<'
    ensures ParseSuffixes(fn, s) == Done(fn, s)
  {
  }

  lemma HeadThenSuffixes(s: string, h: Skel, r: string)
    requires ParseHead(s) == Done(h, r)
    ensures ParseExpr(s) == ParseSuffixes(h, r)
  {
  }

  lemma InfixStep(l: string, t: string, r: string, left: Skel, right: Skel)
    requires ParseExpr(l) == Done(left, "^" + t)
    requires ParseExpr(t) == Done(right, ")" + r)
    ensures ParseHead("(" + l) == Done(SInfix(left, right), r)
  {
    assert ("(" + l)[1..] == l;
    assert ("^" + t)[1..] == t;
    assert (")" + r)[1..] == r;
  }

  lemma {:induction false} ParseListText(es: seq<Expr>, k: nat, rbr: char, r: string)
    requires AllBuildable(es) && (rbr == ')' || rbr == '>')
    ensures ParseArgs(WriteList(es, k).0 + [rbr] + r, rbr) == Done(SkeletonList(es, k), r)
    decreases es, 1
  {
    if es == [] {
      assert WriteList(es, k).0 + [rbr] + r == [rbr] + r;
      assert ([rbr] + r)[1..] == r;
    } else {
      ParseMoreText(es, k, rbr, r);
      FirstCharOfText(es[0], k);
    }
  }

  lemma {:induction false} ParseMoreText(es: seq<Expr>, k: nat, rbr: char, r: string)
    requires es != [] && AllBuildable(es) && (rbr == ')' || rbr == '>')
    ensures ParseMoreArgs(WriteList(es, k).0 + [rbr] + r, rbr) == Done(SkeletonList(es, k), r)
    decreases es, 0
  {
    hide ParseExpr, ParseSuffixes, ParseMoreArgs, WriteTo, WriteList, Skeleton, SkeletonList;
    var t, k1, s := WriteTo(es[0], k).0, k + NumParams(es[0]), Skeleton(es[0], k);
    ListTextParts(es, k, rbr, r);
    if |es| == 1 {
      ParseText(es[0], k, [rbr] + r);
      NoSuffix(s, [rbr] + r);
      LastArg(t + ([rbr] + r), rbr, s, r);
    } else {
      var more := WriteList(es[1..], k1).0 + [rbr] + r;
      ParseText(es[0], k, ", " + more);
      NoSuffix(s, ", " + more);
      ParseMoreText(es[1..], k1, rbr, r);
      NextArg(t + (", " + more), rbr, s, more);
    }
  }

  lemma ListTextParts(es: seq<Expr>, k: nat, rbr: char, r: string)
    requires es != []
    ensures var t, k1 := WriteTo(es[0], k).0, k + NumParams(es[0]);
      WriteList(es, k).0 + [rbr] + r ==
        if |es| == 1 then t + ([rbr] + r) else t + (", " + (WriteList(es[1..], k1).0 + [rbr] + r))
    ensures SkeletonList(es, k) ==
      if |es| == 1 then [Skeleton(es[0], k)]
      else [Skeleton(es[0], k)] + SkeletonList(es[1..], k + NumParams(es[0]))
  {
    SlotsAdvance(es[0], k);
    hide WriteTo, Skeleton;
    var t, k1 := WriteTo(es[0], k).0, k + NumParams(es[0]);
    if |es| == 1 {
      assert es[1..] == [];
    } else {
      var u := WriteList(es[1..], k1).0;
      assert WriteList(es, k).0 == t + ", " + u;
      Regroup(t, u, [rbr], r);
    }
  }

  lemma Regroup(t: string, u: string, c: string, r: string)
    ensures t + ", " + u + c + r == t + (", " + (u + c + r))
  {
  }

  lemma LastArg(s: string, rbr: char, e: Skel, r: string)
    requires ParseExpr(s) == Done(e, [rbr] + r)
    ensures ParseMoreArgs(s, rbr) == Done([e], r)
  {
    hide ParseExpr;
    assert ([rbr] + r)[1..] == r;
  }

  lemma NextArg(s: string, rbr: char, e: Skel, t: string)
    requires rbr != ',' && ParseExpr(s) == Done(e, ", " + t)
    ensures ParseMoreArgs(s, rbr) ==
      if ParseMoreArgs(t, rbr).Fail? then Fail
      else Done([e] + ParseMoreArgs(t, rbr).value, ParseMoreArgs(t, rbr).rest)
  {
    hide ParseExpr;
    var u := ", " + t;
    assert u[..2] == ", " && u[2..] == t;
  }

  lemma {:induction false} FirstCharOfText(e: Expr, k: nat)
    requires Buildable(e)
    ensures var t := WriteTo(e, k).0; t != [] && t[0] != ')' && t[0] != '>'
    decreases e
  {
    match e
    case Dyn(_, _) =>
    case Call(fn, _, _, _) => FirstCharOfText(fn, k);
    case Infix(_, _) =>
    case Raw(code) =>
      RawCodeText(code);
      AtomIsLiteralOrWord(CStr(code));
      assert IsWord(CStr(code)) ==> IsWordChar(CStr(code)[0]);
  }

  /** The text and the parameters of an argument list together give back the list. */
  lemma LosslessSplit(es: seq<Expr>)
    requires AllBuildable(es)
    ensures
      var text := WriteList(es, 0).0;
      var parsed := ParseArgs(text + ")", ')');
      parsed.Done? && parsed.rest == [] && RebuildList(parsed.value, ParamsList(es)) == es
  {
    ParseListText(es, 0, ')', []);
    assert WriteList(es, 0).0 + [')'] + [] == WriteList(es, 0).0 + ")";
    var params := ParamsList(es);
    assert params[0..0 + |params|] == params;
    RebuildSkeletonList(es, 0, params);
  }
}
