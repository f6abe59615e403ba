/**
 Hashes and equality of expressions, which ignore dynamic values (runtime/expr_all.cpp, lines 90-111
 and 168-276; runtime/expr_util.hpp, lines 25-33).
 */
module Equality {
  import opened Atoms
  import Decimal
  import opened Exprs

  /** Addresses that enter the hashes: the four node classes and the text of the infix operator. */
  datatype Layout = Layout(dynCls: nat, callCls: nat, infixCls: nat, rawCls: nat, opStr: nat)

  function Mix(r: nat, h: nat): nat {
    (r * 31 + h) % Decimal.SIZE_MODULUS
  }

  /** The polynomial hash of a list of component hashes. */
  function HashAll(hs: seq<nat>): nat {
    if hs == [] then 1 else Mix(HashAll(hs[..|hs| - 1]), hs[|hs| - 1])
  }

  function CharHashes(s: string): (r: seq<nat>)
    ensures |r| == |s|
  {
    seq(|s|, i requires 0 <= i < |s| => s[i] as nat)
  }

  /** The hash that a node stores when it is built. */
  function Hash(e: Expr, l: Layout): nat
    decreases e, 0
  {
    match e
    case Dyn(tag, _) => HashAll([l.dynCls, tag as nat])
    case Call(fn, args, lbr, _) => HashAll([l.callCls, Hash(fn, l), HashList(args, l), lbr as nat])
    case Infix(left, right) => HashAll([l.infixCls, l.opStr, Hash(left, l), Hash(right, l)])
    case Raw(code) => HashAll([l.rawCls, HashAll(CharHashes(code))])
  }

  function HashList(es: seq<Expr>, l: Layout): nat
    decreases es, 1
  {
    HashAll(Hashes(es, l))
  }

  function Hashes(es: seq<Expr>, l: Layout): (r: seq<nat>)
    ensures |r| == |es|
    decreases es, 0
  {
    if es == [] then [] else [Hash(es[0], l)] + Hashes(es[1..], l)
  }

  lemma {:induction false} HashesAt(es: seq<Expr>, l: Layout, i: nat)
    requires i < |es|
    ensures Hashes(es, l)[i] == Hash(es[i], l)
  {
    if i > 0 {
      HashesAt(es[1..], l, i - 1);
    }
  }

  method HashStr(str: string) returns (r: nat)
    ensures r == HashAll(CharHashes(str))
  {
    r := 1;
    for i := 0 to |str|
      invariant r == HashAll(CharHashes(str)[..i])
    {
      assert CharHashes(str)[..i + 1][..i] == CharHashes(str)[..i];
      r := r * 31 % Decimal.SIZE_MODULUS;
      r := (r + str[i] as nat) % Decimal.SIZE_MODULUS;
      MixInSteps(HashAll(CharHashes(str)[..i]), str[i] as nat);
    }
    assert CharHashes(str)[..|str|] == CharHashes(str);
  }

  method HashExprs(es: seq<Expr>, l: Layout) returns (r: nat)
    ensures r == HashList(es, l)
  {
    r := 1;
    ghost var hs := Hashes(es, l);
    for i := 0 to |es|
      invariant r == HashAll(hs[..i])
    {
      HashesAt(es, l, i);
      assert hs[..i + 1][..i] == hs[..i];
      r := r * 31 % Decimal.SIZE_MODULUS;
      r := (r + Hash(es[i], l)) % Decimal.SIZE_MODULUS;
      MixInSteps(HashAll(hs[..i]), Hash(es[i], l));
    }
    assert hs[..|es|] == hs;
  }

  /** Wrapping after the multiplication and again after the addition is wrapping once. */
  lemma MixInSteps(r: nat, h: nat)
    ensures (r * 31 % Decimal.SIZE_MODULUS + h) % Decimal.SIZE_MODULUS == Mix(r, h)
  {
  }

  // ---------- equality as the nodes compute it

  /** `operator ==` on two nodes: stored hashes, then classes, then the class's own comparison. */
  predicate ExprEq(a: Expr, b: Expr, l: Layout)
    decreases a, 1
  {
    Hash(a, l) == Hash(b, l) && SameClass(a, b) && AreEqual(a, b, l)
  }

  predicate SameClass(a: Expr, b: Expr) {
    (a.Dyn? <==> b.Dyn?) && (a.Call? <==> b.Call?) && (a.Infix? <==> b.Infix?)
  }

  predicate AreEqual(a: Expr, b: Expr, l: Layout)
    requires SameClass(a, b)
    decreases a, 0
  {
    match a
    case Dyn(tag, _) => tag == b.tag
    case Call(fn, args, lbr, rbr) =>
      ExprEq(fn, b.fn, l) && ExprsEq(args, b.args, l) && lbr == b.lbr && rbr == b.rbr
    case Infix(left, right) => ExprEq(left, b.left, l) && ExprEq(right, b.right, l)
    case Raw(code) => CStr(code) == CStr(b.code)
  }

  predicate ExprsEq(a: seq<Expr>, b: seq<Expr>, l: Layout)
    decreases a, 1
  {
    |a| == |b| && (a == [] || (ExprEq(a[0], b[0], l) && ExprsEq(a[1..], b[1..], l)))
  }

  /** The comparison loop of two raw atoms. */
  method RawEqual(a: string, b: string) returns (eq: bool)
    requires NUL in a && NUL in b
    ensures eq <==> CStr(a) == CStr(b)
  {
    var i := 0;
    while true
      invariant i < |a| && i < |b|
      invariant NUL in a[i..] && NUL in b[i..]
      invariant CStr(a) == CStr(b) <==> CStr(a[i..]) == CStr(b[i..])
      decreases |a| - i
    {
      ghost var x, y := CStr(a[i..]), CStr(b[i..]);
      CStrStep(a, i);
      CStrStep(b, i);
      if a[i] != b[i] {
        assert x == [] || y == [] || x[0] != y[0];
        return false;
      }
      if a[i] == NUL {
        return true;
      }
      assert x[1..] == CStr(a[i + 1..]) && y[1..] == CStr(b[i + 1..]);
      i := i + 1;
    }
  }

  lemma CStrStep(s: string, i: nat)
    requires i < |s|
    ensures CStr(s[i..]) == if s[i] == NUL then [] else [s[i]] + CStr(s[i + 1..])
    ensures NUL in s[i..] && s[i] != NUL ==> NUL in s[i + 1..]
  {
    assert s[i..] == [s[i]] + s[i + 1..];
  }

  // ---------- equality as it is meant

  /** The same tree up to the values of its dynamic leaves. */
  predicate SameShape(a: Expr, b: Expr)
    decreases a, 0
  {
    match a
    case Dyn(tag, _) => b.Dyn? && tag == b.tag
    case Call(fn, args, lbr, rbr) =>
      b.Call? && SameShape(fn, b.fn) && SameShapes(args, b.args) && lbr == b.lbr && rbr == b.rbr
    case Infix(left, right) => b.Infix? && SameShape(left, b.left) && SameShape(right, b.right)
    case Raw(code) => b.Raw? && code == b.code
  }

  predicate SameShapes(a: seq<Expr>, b: seq<Expr>)
    decreases a, 0
  {
    |a| == |b| && (a == [] || (SameShape(a[0], b[0]) && SameShapes(a[1..], b[1..])))
  }

  lemma {:induction false} SameShapeSameHash(a: Expr, b: Expr, l: Layout)
    requires SameShape(a, b)
    ensures Hash(a, l) == Hash(b, l)
    decreases a, 0
  {
    match a
    case Dyn(_, _) =>
    case Call(fn, args, _, _) =>
      SameShapeSameHash(fn, b.fn, l);
      SameShapesSameHash(args, b.args, l);
    case Infix(left, right) =>
      SameShapeSameHash(left, b.left, l);
      SameShapeSameHash(right, b.right, l);
    case Raw(_) =>
  }

  lemma {:induction false} SameShapesSameHash(a: seq<Expr>, b: seq<Expr>, l: Layout)
    requires SameShapes(a, b)
    ensures Hashes(a, l) == Hashes(b, l)
    ensures HashList(a, l) == HashList(b, l)
    decreases a, 0
  {
    if a != [] {
      SameShapeSameHash(a[0], b[0], l);
      SameShapesSameHash(a[1..], b[1..], l);
    }
  }

  /** The hash pre-checks reject no pair of trees that are equal up to dynamic values. */
  lemma {:induction false} ExprEqIsSameShape(a: Expr, b: Expr, l: Layout)
    requires Buildable(a) && Buildable(b)
    ensures ExprEq(a, b, l) <==> SameShape(a, b)
    decreases a, 1
  {
    if SameShape(a, b) {
      SameShapeSameHash(a, b, l);
    }
    if SameClass(a, b) {
      match a
      case Dyn(_, _) =>
      case Call(fn, args, _, _) =>
        ExprEqIsSameShape(fn, b.fn, l);
        ExprsEqIsSameShapes(args, b.args, l);
      case Infix(left, right) =>
        ExprEqIsSameShape(left, b.left, l);
        ExprEqIsSameShape(right, b.right, l);
      case Raw(code) =>
        RawCodeText(code);
        RawCodeText(b.code);
    }
  }

  lemma {:induction false} ExprsEqIsSameShapes(a: seq<Expr>, b: seq<Expr>, l: Layout)
    requires AllBuildable(a) && AllBuildable(b)
    ensures ExprsEq(a, b, l) <==> SameShapes(a, b)
    decreases a, 0
  {
    if a != [] && |a| == |b| {
      ExprEqIsSameShape(a[0], b[0], l);
      ExprsEqIsSameShapes(a[1..], b[1..], l);
    }
  }

  /** Same shape is having the same skeleton. */
  lemma {:induction false} SameShapeIsSameSkeleton(a: Expr, b: Expr, k: nat)
    requires Buildable(a) && Buildable(b)
    ensures SameShape(a, b) <==> Skeleton(a, k) == Skeleton(b, k)
    ensures SameShape(a, b) ==> NumParams(a) == NumParams(b)
    decreases a, 1
  {
    match a
    case Dyn(_, _) =>
    case Call(fn, args, _, _) =>
      if b.Call? {
        SameShapeIsSameSkeleton(fn, b.fn, k);
        SameShapesIsSameSkeletons(args, b.args, k + NumParams(fn));
      }
    case Infix(left, right) =>
      if b.Infix? {
        SameShapeIsSameSkeleton(left, b.left, k);
        SameShapeIsSameSkeleton(right, b.right, k + NumParams(left));
      }
    case Raw(code) =>
      RawCodeText(code);
      if b.Raw? {
        RawCodeText(b.code);
      }
  }

  lemma ConsEqual(x: Skel, s: seq<Skel>, y: Skel, t: seq<Skel>)
    ensures [x] + s == [y] + t <==> x == y && s == t
  {
    assert ([x] + s)[0] == x && ([x] + s)[1..] == s;
    assert ([y] + t)[0] == y && ([y] + t)[1..] == t;
  }

  lemma DifferentLengths(a: seq<Expr>, b: seq<Expr>, k: nat)
    requires a == [] || |a| != |b|
    ensures SameShapes(a, b) <==> SkeletonList(a, k) == SkeletonList(b, k)
    ensures SameShapes(a, b) ==> a == b == []
  {
    hide SameShape, Skeleton;
    assert |SkeletonList(a, k)| == |a| && |SkeletonList(b, k)| == |b|;
  }

  lemma {:induction false} SameShapesIsSameSkeletons(a: seq<Expr>, b: seq<Expr>, k: nat)
    requires AllBuildable(a) && AllBuildable(b)
    ensures SameShapes(a, b) <==> SkeletonList(a, k) == SkeletonList(b, k)
    ensures SameShapes(a, b) ==> NumParamsList(a) == NumParamsList(b)
    decreases a, 0
  {
    hide Buildable, SameShape, Skeleton, NumParams;
    if a == [] || |a| != |b| {
      DifferentLengths(a, b, k);
    } else {
      SameShapeIsSameSkeleton(a[0], b[0], k);
      SameShapesIsSameSkeletons(a[1..], b[1..], k + NumParams(a[0]));
      hide AllBuildable;
      ConsEqual(Skeleton(a[0], k), SkeletonList(a[1..], k + NumParams(a[0])),
                Skeleton(b[0], k), SkeletonList(b[1..], k + NumParams(b[0])));
    }
  }

  lemma EqualityIsEquivalence(a: Expr, b: Expr, c: Expr, l: Layout)
    requires Buildable(a) && Buildable(b) && Buildable(c)
    ensures ExprEq(a, a, l)
    ensures ExprEq(a, b, l) ==> ExprEq(b, a, l)
    ensures ExprEq(a, b, l) && ExprEq(b, c, l) ==> ExprEq(a, c, l)
  {
    ExprEqIsSameShape(a, a, l);
    ExprEqIsSameShape(a, b, l);
    ExprEqIsSameShape(b, a, l);
    ExprEqIsSameShape(b, c, l);
    ExprEqIsSameShape(a, c, l);
    SameShapeIsSameSkeleton(a, a, 0);
    SameShapeIsSameSkeleton(a, b, 0);
    SameShapeIsSameSkeleton(b, a, 0);
    SameShapeIsSameSkeleton(b, c, 0);
    SameShapeIsSameSkeleton(a, c, 0);
  }
}
