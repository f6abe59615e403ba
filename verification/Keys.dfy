/**
 Cache keys and the statement that a call generates (runtime/call.cpp, lines 16-38 and 80-100).
 */
module Keys {
  import opened Wrappers
  import opened Decimal
  import opened Atoms
  import opened Exprs
  import opened Decode
  import opened Equality

  /** A guest function: its own address, the file it is defined in, and its name. */
  datatype GuestFn = GuestFn(addr: nat, file: nat, name: string)

  datatype Key = Key(fn: GuestFn, haveTmplArgs: bool, tmplArgs: seq<Expr>, callArgs: seq<Expr>)

  /**
   The keys that calls through the import wrappers have: only an instance has template arguments
   (include/doarr/import.hpp, lines 31-46).
   */
  ghost predicate PublicKey(k: Key) {
    AllBuildable(k.tmplArgs) && AllBuildable(k.callArgs) && (k.haveTmplArgs || k.tmplArgs == [])
  }

  function KeyHash(k: Key, l: Layout): nat {
    HashAll([k.fn.addr, if k.haveTmplArgs then 1 else 0, HashList(k.tmplArgs, l), HashList(k.callArgs, l)])
  }

  predicate KeyEq(a: Key, b: Key, l: Layout) {
    && KeyHash(a, l) == KeyHash(b, l)
    && a.fn == b.fn
    && a.haveTmplArgs == b.haveTmplArgs
    && ExprsEq(a.tmplArgs, b.tmplArgs, l)
    && ExprsEq(a.callArgs, b.callArgs, l)
  }

  /** The part of the statement after the function name. */
  function ArgsText(k: Key): string {
    (if k.haveTmplArgs then "<" + WriteList(k.tmplArgs, 0).0 + ">" else "")
    + "(" + WriteList(k.callArgs, 0).0 + ");\n"
  }

  /** Everything in the generated file but its first line, which includes the precompiled header. */
  function Body(k: Key): string {
    "#undef DOARR_EXPORT\n"
    + "extern \"C\" __attribute__ ((visibility (\"default\"))) void "
    + "DOARR_EXPORT(const doarr::internal::any *DOARR_EXPORT) {\n"
    + "(void)DOARR_EXPORT;\n"
    + (k.fn.name + ArgsText(k)) + "}\n"
  }

  ghost predicate SameKeyShape(a: Key, b: Key) {
    && a.fn == b.fn
    && a.haveTmplArgs == b.haveTmplArgs
    && SameShapes(a.tmplArgs, b.tmplArgs)
    && SameShapes(a.callArgs, b.callArgs)
  }

  lemma KeyEqIsSameShape(a: Key, b: Key, l: Layout)
    requires PublicKey(a) && PublicKey(b)
    ensures KeyEq(a, b, l) <==> SameKeyShape(a, b)
  {
    ExprsEqIsSameShapes(a.tmplArgs, b.tmplArgs, l);
    ExprsEqIsSameShapes(a.callArgs, b.callArgs, l);
    if SameKeyShape(a, b) {
      SameShapesSameHash(a.tmplArgs, b.tmplArgs, l);
      SameShapesSameHash(a.callArgs, b.callArgs, l);
    }
  }

  // ---------- trees of one shape have one text

  lemma {:induction false} SameShapeSameText(a: Expr, b: Expr, k: nat)
    requires SameShape(a, b)
    ensures WriteTo(a, k) == WriteTo(b, k)
    decreases a, 0
  {
    match a
    case Dyn(_, _) =>
    case Call(fn, args, _, _) =>
      SameShapeSameText(fn, b.fn, k);
      SameShapesSameText(args, b.args, WriteTo(fn, k).1);
    case Infix(left, right) =>
      SameShapeSameText(left, b.left, k);
      SameShapeSameText(right, b.right, WriteTo(left, k).1);
    case Raw(_) =>
  }

  lemma {:induction false} SameShapesSameText(a: seq<Expr>, b: seq<Expr>, k: nat)
    requires SameShapes(a, b)
    ensures WriteList(a, k) == WriteList(b, k)
    decreases a, 0
  {
    if a != [] {
      SameShapeSameText(a[0], b[0], k);
      SameShapesSameText(a[1..], b[1..], WriteTo(a[0], k).1);
    }
  }

  /** A list's text, closed by a bracket, can be told apart from whatever follows it. */
  lemma ListTextDecides(a: seq<Expr>, b: seq<Expr>, rbr: char, r: string, s: string)
    requires AllBuildable(a) && AllBuildable(b) && (rbr == ')' || rbr == '>')
    requires WriteList(a, 0).0 + [rbr] + r == WriteList(b, 0).0 + [rbr] + s
    ensures SameShapes(a, b) && r == s
  {
    ParseListText(a, 0, rbr, r);
    ParseListText(b, 0, rbr, s);
    SameShapesIsSameSkeletons(a, b, 0);
  }

  /** The text of a call list and what closes the statement. */
  function CallText(k: Key): string {
    WriteList(k.callArgs, 0).0 + [')'] + ";\n"
  }

  lemma ArgsTextParts(k: Key)
    ensures ArgsText(k) ==
      if k.haveTmplArgs then ['<'] + (WriteList(k.tmplArgs, 0).0 + ['>'] + ("(" + CallText(k)))
      else ['('] + CallText(k)
  {
    hide WriteList;
    var c := WriteList(k.callArgs, 0).0;
    assert "(" + c + ");\n" == "(" + (c + [')'] + ";\n");
    if !k.haveTmplArgs {
      assert "" + "(" == "(";
    }
  }

  lemma ArgsTextDecides(a: Key, b: Key)
    requires PublicKey(a) && PublicKey(b) && a.fn == b.fn && ArgsText(a) == ArgsText(b)
    ensures SameKeyShape(a, b)
  {
    ArgsTextParts(a);
    ArgsTextParts(b);
    hide ArgsText, WriteList, AllBuildable, SameShapes, CallText;
    assert a.haveTmplArgs == b.haveTmplArgs by {
      assert ArgsText(a)[0] == ArgsText(b)[0];
    }
    if a.haveTmplArgs {
      var ta := WriteList(a.tmplArgs, 0).0 + ['>'] + ("(" + CallText(a));
      var tb := WriteList(b.tmplArgs, 0).0 + ['>'] + ("(" + CallText(b));
      SameTail('<', ta, tb);
      ListTextDecides(a.tmplArgs, b.tmplArgs, '>', "(" + CallText(a), "(" + CallText(b));
      SameTail('(', CallText(a), CallText(b));
    } else {
      SameTail('(', CallText(a), CallText(b));
      assert a.tmplArgs == b.tmplArgs == [];
      NothingSameShape();
    }
    CallTextDecides(a, b);
  }

  lemma CallTextDecides(a: Key, b: Key)
    requires PublicKey(a) && PublicKey(b) && CallText(a) == CallText(b)
    ensures SameShapes(a.callArgs, b.callArgs)
  {
    hide WriteList, AllBuildable, SameShapes;
    ListTextDecides(a.callArgs, b.callArgs, ')', ";\n", ";\n");
  }

  lemma NothingSameShape()
    ensures SameShapes([], [])
  {
  }

  lemma SameTail(c: char, s: string, t: string)
    requires [c] + s == [c] + t
    ensures s == t
  {
    assert ([c] + s)[1..] == s && ([c] + t)[1..] == t;
  }

  // ---------- reading a generated file back

  /** What the statement in a generated file says. */
  datatype Statement = Statement(name: string, haveTmplArgs: bool, tmplArgs: seq<Skel>, callArgs: seq<Skel>)

  /** The length of the text before the first opening bracket. */
  function NameRun(s: string): (n: nat)
    ensures n <= |s|
  {
    if s == [] || s[0] == '(' || s[0] == '<' then 0 else 1 + NameRun(s[1..])
  }

  /** A name, template arguments in angle brackets if there are any, and arguments in parentheses. */
  function ParseStatement(s: string): Parsed<Statement> {
    var n := NameRun(s);
    var t := s[n..];
    if t == [] then Fail
    else if t[0] == '(' then ParseCall(s[..n], false, [], t[1..])
    else
      var a := ParseArgs(t[1..], '>');
      if a.Fail? || a.rest == [] || a.rest[0] != '(' then Fail
      else ParseCall(s[..n], true, a.value, a.rest[1..])
  }

  function ParseCall(name: string, haveTmplArgs: bool, tmplArgs: seq<Skel>, s: string): Parsed<Statement> {
    var a := ParseArgs(s, ')');
    if a.Fail? then Fail else Done(Statement(name, haveTmplArgs, tmplArgs, a.value), a.rest)
  }

  /** The rest after an expected text. */
  function After(expected: string, s: string): Option<string> {
    if expected <= s then Some(s[|expected|..]) else None
  }

  /**
   A generated file after its first line: a function that takes the array of values under the name by which
   slots refer to it, with one statement.
   */
  function ParseBody(s: string): Parsed<Statement> {
    var s1 := After("#undef DOARR_EXPORT\n", s);
    if s1.None? then Fail
    else
      var s2 := After("extern \"C\" __attribute__ ((visibility (\"default\"))) void ", s1.value);
      if s2.None? then Fail
      else
        var s3 := After("DOARR_EXPORT(const doarr::internal::any *DOARR_EXPORT) {\n", s2.value);
        if s3.None? then Fail
        else
          var s4 := After("(void)DOARR_EXPORT;\n", s3.value);
          if s4.None? then Fail else ParseStatement(s4.value)
  }

  /** Any name that a scan can return is one: it holds no bracket. */
  predicate IsFnName(name: string) {
    '(' !in name && '<' !in name
  }

  lemma {:induction false} NameRunStops(name: string, t: string)
    requires IsFnName(name) && t != [] && (t[0] == '(' || t[0] == '<')
    ensures NameRun(name + t) == |name| && (name + t)[..|name|] == name && (name + t)[|name|..] == t
  {
    if name == [] {
      assert name + t == t;
    } else {
      assert (name + t)[1..] == name[1..] + t;
      NameRunStops(name[1..], t);
    }
  }

  lemma Expected(e: string, s: string)
    ensures After(e, e + s) == Some(s)
  {
  }

  lemma BodyParts(k: Key)
    ensures Body(k) == "#undef DOARR_EXPORT\n"
      + ("extern \"C\" __attribute__ ((visibility (\"default\"))) void "
      + ("DOARR_EXPORT(const doarr::internal::any *DOARR_EXPORT) {\n"
      + ("(void)DOARR_EXPORT;\n" + (k.fn.name + (ArgsText(k) + "}\n")))))
  {
    hide ArgsText;
    Nest("#undef DOARR_EXPORT\n", "extern \"C\" __attribute__ ((visibility (\"default\"))) void ",
         "DOARR_EXPORT(const doarr::internal::any *DOARR_EXPORT) {\n", "(void)DOARR_EXPORT;\n",
         k.fn.name, ArgsText(k), "}\n");
  }

  lemma Nest(a: string, b: string, c: string, d: string, e: string, f: string, g: string)
    ensures a + b + c + d + (e + f) + g == a + (b + (c + (d + (e + (f + g)))))
  {
  }

  lemma CallDecodes(k: Key, tmplArgs: seq<Skel>, r: string)
    requires PublicKey(k)
    ensures ParseCall(k.fn.name, k.haveTmplArgs, tmplArgs, CallText(k) + r)
      == Done(Statement(k.fn.name, k.haveTmplArgs, tmplArgs, SkeletonList(k.callArgs, 0)), ";\n" + r)
  {
    hide WriteList, AllBuildable;
    ParseListText(k.callArgs, 0, ')', ";\n" + r);
    assert WriteList(k.callArgs, 0).0 + [')'] + (";\n" + r) == CallText(k) + r;
  }

  lemma StatementDecodes(k: Key, r: string)
    requires PublicKey(k) && IsFnName(k.fn.name)
    ensures ParseStatement(k.fn.name + (ArgsText(k) + r))
      == Done(Statement(k.fn.name, k.haveTmplArgs, SkeletonList(k.tmplArgs, 0), SkeletonList(k.callArgs, 0)), ";\n" + r)
  {
    ArgsTextParts(k);
    CallDecodes(k, SkeletonList(k.tmplArgs, 0), r);
    NameRunStops(k.fn.name, ArgsText(k) + r);
    hide ArgsText, WriteList, AllBuildable, CallText, ParseArgs, NameRun, ParseCall;
    var call := CallText(k) + r;
    if k.haveTmplArgs {
      var list := WriteList(k.tmplArgs, 0).0;
      var t := list + ['>'] + (['('] + call);
      ParseListText(k.tmplArgs, 0, '>', ['('] + call);
      assert ArgsText(k) + r == ['<'] + t by {
        assert list + ['>'] + ("(" + CallText(k)) + r == t;
      }
      assert (['<'] + t)[1..] == t && (['('] + call)[1..] == call;
    } else {
      assert ArgsText(k) + r == ['('] + call && (['('] + call)[1..] == call;
      assert SkeletonList([], 0) == [];
    }
  }

  /**
   The whole text is decodable: it gives back the function's name, whether there are template arguments,
   and both argument lists up to dynamic values.
   */
  lemma BodyDecodes(k: Key)
    requires PublicKey(k) && IsFnName(k.fn.name)
    ensures ParseBody(Body(k))
      == Done(Statement(k.fn.name, k.haveTmplArgs, SkeletonList(k.tmplArgs, 0), SkeletonList(k.callArgs, 0)), ";\n}\n")
  {
    BodyParts(k);
    StatementDecodes(k, "}\n");
    hide ParseStatement, ArgsText, Body, SkeletonList;
    var t4 := k.fn.name + (ArgsText(k) + "}\n");
    var t3 := "(void)DOARR_EXPORT;\n" + t4;
    var t2 := "DOARR_EXPORT(const doarr::internal::any *DOARR_EXPORT) {\n" + t3;
    var t1 := "extern \"C\" __attribute__ ((visibility (\"default\"))) void " + t2;
    Expected("#undef DOARR_EXPORT\n", t1);
    Expected("extern \"C\" __attribute__ ((visibility (\"default\"))) void ", t2);
    Expected("DOARR_EXPORT(const doarr::internal::any *DOARR_EXPORT) {\n", t3);
    Expected("(void)DOARR_EXPORT;\n", t4);
    hide After;
    assert ";\n" + "}\n" == ";\n}\n";
  }

  /** Calls of any functions have the same text exactly when names, flags and both lists agree. */
  lemma BodyDecides(a: Key, b: Key)
    requires PublicKey(a) && PublicKey(b) && IsFnName(a.fn.name) && IsFnName(b.fn.name)
    ensures Body(a) == Body(b) <==>
      && a.fn.name == b.fn.name && a.haveTmplArgs == b.haveTmplArgs
      && SameShapes(a.tmplArgs, b.tmplArgs) && SameShapes(a.callArgs, b.callArgs)
  {
    BodyDecodes(a);
    BodyDecodes(b);
    SameShapesIsSameSkeletons(a.tmplArgs, b.tmplArgs, 0);
    SameShapesIsSameSkeletons(a.callArgs, b.callArgs, 0);
    hide ParseBody, WriteList, SkeletonList, SameShapes, AllBuildable;
    if SameShapes(a.tmplArgs, b.tmplArgs) && SameShapes(a.callArgs, b.callArgs) {
      SameShapesSameText(a.tmplArgs, b.tmplArgs, 0);
      SameShapesSameText(a.callArgs, b.callArgs, 0);
    }
  }

  /** For one guest function, two calls generate the same text exactly when their keys are equal. */
  lemma BodyDecidesKey(a: Key, b: Key, l: Layout)
    requires PublicKey(a) && PublicKey(b) && a.fn == b.fn
    ensures Body(a) == Body(b) <==> KeyEq(a, b, l)
  {
    hide KeyEq, WriteList, SameShapes, AllBuildable;
    KeyEqIsSameShape(a, b, l);
    if SameKeyShape(a, b) {
      SameShapesSameText(a.tmplArgs, b.tmplArgs, 0);
      SameShapesSameText(a.callArgs, b.callArgs, 0);
    }
    hide ArgsText;
    if Body(a) == Body(b) {
      BodyDecidesArgs(a, b);
      ArgsTextDecides(a, b);
    }
  }

  lemma BodyDecidesArgs(a: Key, b: Key)
    requires a.fn == b.fn && Body(a) == Body(b)
    ensures ArgsText(a) == ArgsText(b)
  {
    var head := Body(Key(a.fn, false, [], []));
    var n := |head| - |ArgsText(Key(a.fn, false, [], []))| - 2;
    Cut(Body(a), n, ArgsText(a), "}\n");
    Cut(Body(b), n, ArgsText(b), "}\n");
  }

  lemma Cut(s: string, n: nat, mid: string, end: string)
    requires |s| == n + |mid| + |end| && s[n..n + |mid|] == mid
    ensures mid == s[n..|s| - |end|]
  {
  }
}
