/**
 Expression trees and the two halves a call splits them into: C++ text, in which dynamic leaves are
 numbered slots, and the array of their values (runtime/expr_all.cpp, lines 125-291).
 */
module Exprs {
  import opened Decimal
  import opened Atoms

  /** The contents of the union that carries a dynamic value; only its tag says how to read it. */
  datatype Any = Any(bits: nat)

  /** `Raw` holds its characters with the terminating NUL, as the node does. */
  datatype Expr =
    | Dyn(tag: char, value: Any)
    | Call(fn: Expr, args: seq<Expr>, lbr: char, rbr: char)
    | Infix(left: Expr, right: Expr)
    | Raw(code: string)

  predicate IsTag(c: char) {
    c == 'i' || c == 'f' || c == 'p'
  }

  predicate AreBrackets(lbr: char, rbr: char) {
    (lbr == '(' && rbr == ')') || (lbr == '<' && rbr == '>')
  }

  ghost predicate IsRawCode(code: string) {
    code != [] && IsAtom(code[..|code| - 1]) && code[|code| - 1] == NUL
  }

  /** The trees that the public constructors can build. */
  ghost predicate Buildable(e: Expr)
    decreases e, 0
  {
    match e
    case Dyn(tag, _) => IsTag(tag)
    case Call(fn, args, lbr, rbr) => Buildable(fn) && AllBuildable(args) && AreBrackets(lbr, rbr)
    case Infix(left, right) => Buildable(left) && Buildable(right)
    case Raw(code) => IsRawCode(code)
  }

  ghost predicate AllBuildable(es: seq<Expr>)
    decreases es, 0
  {
    es == [] || (Buildable(es[0]) && AllBuildable(es[1..]))
  }

  lemma {:induction false} AllBuildableMeans(es: seq<Expr>)
    ensures AllBuildable(es) <==> forall i :: 0 <= i < |es| ==> Buildable(es[i])
  {
    if es != [] {
      AllBuildableMeans(es[1..]);
      assert es == [es[0]] + es[1..];
      assert forall i :: 0 < i < |es| ==> es[i] == es[1..][i - 1];
    }
  }

  /** What the public constructors build: values of three kinds, calls, instances, infix expressions and atoms. */
  lemma ConstructorsBuild(e: Expr, fn: Expr, args: seq<Expr>, value: Any, atom: string)
    requires Buildable(e) && Buildable(fn) && IsAtom(atom) && forall i :: 0 <= i < |args| ==> Buildable(args[i])
    ensures Buildable(Dyn('i', value)) && Buildable(Dyn('f', value)) && Buildable(Dyn('p', value))
    ensures Buildable(Call(fn, args, '(', ')')) && Buildable(Call(fn, args, '<', '>'))
    ensures Buildable(Infix(e, fn)) && Buildable(Raw(atom + ['\0']))
  {
    AllBuildableMeans(args);
    assert (atom + ['\0'])[..|atom|] == atom;
  }

  // ---------- counting and extracting dynamic values

  function NumParams(e: Expr): nat
    decreases e, 0
  {
    match e
    case Dyn(_, _) => 1
    case Call(fn, args, _, _) => NumParams(fn) + NumParamsList(args)
    case Infix(left, right) => NumParams(left) + NumParams(right)
    case Raw(_) => 0
  }

  function NumParamsList(es: seq<Expr>): nat
    decreases es, 0
  {
    if es == [] then 0 else NumParams(es[0]) + NumParamsList(es[1..])
  }

  /** The dynamic leaves in the order in which their values are extracted. */
  function Leaves(e: Expr): (ds: seq<Expr>)
    ensures |ds| == NumParams(e)
    ensures forall i :: 0 <= i < |ds| ==> ds[i].Dyn?
    decreases e, 0
  {
    match e
    case Dyn(_, _) => [e]
    case Call(fn, args, _, _) => Leaves(fn) + LeavesList(args)
    case Infix(left, right) => Leaves(left) + Leaves(right)
    case Raw(_) => []
  }

  function LeavesList(es: seq<Expr>): (ds: seq<Expr>)
    ensures |ds| == NumParamsList(es)
    ensures forall i :: 0 <= i < |ds| ==> ds[i].Dyn?
    decreases es, 0
  {
    if es == [] then [] else Leaves(es[0]) + LeavesList(es[1..])
  }

  function Values(ds: seq<Expr>): seq<Any>
    requires forall i :: 0 <= i < |ds| ==> ds[i].Dyn?
  {
    seq(|ds|, i requires 0 <= i < |ds| => ds[i].value)
  }

  function Params(e: Expr): (r: seq<Any>)
    ensures |r| == NumParams(e)
  {
    Values(Leaves(e))
  }

  function ParamsList(es: seq<Expr>): (r: seq<Any>)
    ensures |r| == NumParamsList(es)
  {
    Values(LeavesList(es))
  }

  lemma LeavesCons(e: Expr, es: seq<Expr>)
    ensures LeavesList([e] + es) == Leaves(e) + LeavesList(es)
  {
    assert ([e] + es)[1..] == es;
  }

  lemma {:induction false} LeavesSnoc(es: seq<Expr>, i: nat)
    requires i < |es|
    ensures LeavesList(es[..i + 1]) == LeavesList(es[..i]) + Leaves(es[i])
    decreases i
  {
    hide Leaves;
    var head, tail := es[0], es[1..];
    if i == 0 {
      assert es[..1] == [head];
    } else {
      LeavesSnoc(tail, i - 1);
      LeavesCons(head, tail[..i]);
      LeavesCons(head, tail[..i - 1]);
      assert es[..i + 1] == [head] + tail[..i];
      assert es[..i] == [head] + tail[..i - 1];
    }
  }

  lemma NumParamsSnoc(es: seq<Expr>, i: nat)
    requires i < |es|
    ensures NumParamsList(es[..i + 1]) == NumParamsList(es[..i]) + NumParams(es[i])
  {
    LeavesSnoc(es, i);
    assert |LeavesList(es[..i + 1])| == |LeavesList(es[..i])| + |Leaves(es[i])|;
  }

  lemma {:induction false} NumParamsPrefix(es: seq<Expr>, i: nat)
    requires i <= |es|
    ensures NumParamsList(es[..i]) <= NumParamsList(es)
    decreases |es| - i
  {
    if i == |es| {
      assert es[..i] == es;
    } else {
      NumParamsSnoc(es, i);
      NumParamsPrefix(es, i + 1);
    }
  }

  method SumNumParams(es: seq<Expr>) returns (sum: nat)
    ensures sum == NumParamsList(es)
  {
    sum := 0;
    for i := 0 to |es|
      invariant sum == NumParamsList(es[..i])
    {
      NumParamsSnoc(es, i);
      sum := sum + NumParams(es[i]);
    }
    assert es[..|es|] == es;
  }

  /** The array contents `s` with `values` stored from index `at` on. */
  function Stored(s: seq<Any>, at: nat, values: seq<Any>): seq<Any>
    requires at + |values| <= |s|
  {
    s[..at] + values + s[at + |values|..]
  }

  lemma StoredTwice(s: seq<Any>, at: nat, v: seq<Any>, w: seq<Any>)
    requires at + |v| + |w| <= |s|
    ensures Stored(Stored(s, at, v), at + |v|, w) == Stored(s, at, v + w)
  {
  }

  lemma ValuesConcat(ds: seq<Expr>, es: seq<Expr>)
    requires forall i :: 0 <= i < |ds| ==> ds[i].Dyn?
    requires forall i :: 0 <= i < |es| ==> es[i].Dyn?
    ensures Values(ds + es) == Values(ds) + Values(es)
  {
  }

  /** Stores the values of `e` from index `at` on and returns the index after the last one. */
  method ExtractParams(e: Expr, out: array<Any>, at: nat) returns (next: nat)
    requires at + NumParams(e) <= out.Length
    modifies out
    ensures next == at + NumParams(e)
    ensures out[..] == Stored(old(out[..]), at, Params(e))
    decreases e, 0
  {
    ParamsByCase(e);
    hide Stored, Params, ParamsList, NumParams, NumParamsList;
    match e
    case Dyn(_, value) =>
      out[at] := value;
      next := at + 1;
      StoredOne(old(out[..]), at, value);
      assert out[..] == old(out[..])[at := value];
    case Call(fn, args, _, _) =>
      next := ExtractParams(fn, out, at);
      next := ExtractParamsList(args, out, next);
      StoredTwice(old(out[..]), at, Params(fn), ParamsList(args));
    case Infix(left, right) =>
      next := ExtractParams(left, out, at);
      next := ExtractParams(right, out, next);
      StoredTwice(old(out[..]), at, Params(left), Params(right));
    case Raw(_) =>
      next := at;
      StoredNothing(old(out[..]), at);
  }

  lemma ParamsByCase(e: Expr)
    ensures |Params(e)| == NumParams(e)
    ensures match e
      case Dyn(_, value) => Params(e) == [value]
      case Call(fn, args, _, _) =>
        Params(e) == Params(fn) + ParamsList(args) && NumParams(e) == NumParams(fn) + NumParamsList(args)
      case Infix(left, right) =>
        Params(e) == Params(left) + Params(right) && NumParams(e) == NumParams(left) + NumParams(right)
      case Raw(_) => Params(e) == []
  {
    match e
    case Dyn(_, _) =>
    case Call(fn, args, _, _) => ValuesConcat(Leaves(fn), LeavesList(args));
    case Infix(left, right) => ValuesConcat(Leaves(left), Leaves(right));
    case Raw(_) =>
  }

  lemma StoredOne(s: seq<Any>, at: nat, value: Any)
    requires at < |s|
    ensures s[at := value] == Stored(s, at, [value])
  {
  }

  lemma StoredNothing(s: seq<Any>, at: nat)
    requires at <= |s|
    ensures s == Stored(s, at, [])
  {
  }

  method ExtractParamsList(es: seq<Expr>, out: array<Any>, at: nat) returns (next: nat)
    requires at + NumParamsList(es) <= out.Length
    modifies out
    ensures next == at + NumParamsList(es)
    ensures out[..] == Stored(old(out[..]), at, ParamsList(es))
    decreases es, 0
  {
    hide Stored, ParamsList, Params;
    StoredNothing(out[..], at);
    NoParams();
    next := at;
    ghost var before := out[..];
    ghost var values: seq<Any> := [];
    for i := 0 to |es|
      invariant next == at + |values| <= out.Length == |before|
      invariant values == ParamsList(es[..i])
      invariant out[..] == Stored(before, at, values)
    {
      RoomForNext(es, i, at, out.Length);
      next := ExtractParams(es[i], out, next);
      StoredTwice(before, at, values, Params(es[i]));
      values := values + Params(es[i]);
    }
    assert es[..|es|] == es;
  }

  lemma NoParams()
    ensures ParamsList([]) == []
  {
  }

  lemma RoomForNext(es: seq<Expr>, i: nat, at: nat, length: nat)
    requires i < |es| && at + NumParamsList(es) <= length
    ensures at + |ParamsList(es[..i])| + NumParams(es[i]) <= length
    ensures ParamsList(es[..i + 1]) == ParamsList(es[..i]) + Params(es[i])
  {
    assert ParamsList(es[..i + 1]) == ParamsList(es[..i]) + Params(es[i]) by {
      LeavesSnoc(es, i);
      ValuesConcat(LeavesList(es[..i]), Leaves(es[i]));
    }
    NumParamsPrefix(es, i + 1);
  }

  // ---------- generating text

  const SLOT_ARRAY := "DOARR_EXPORT"

  function SlotText(index: nat, tag: char): string {
    SLOT_ARRAY + "[" + Digits(index) + "]." + [tag]
  }

  /** The text written for `e` when the next free slot is `k`, and the next free slot after it. */
  function WriteTo(e: Expr, k: nat): (string, nat)
    decreases e, 0
  {
    match e
    case Dyn(tag, _) => (SlotText(k, tag), k + 1)
    case Call(fn, args, lbr, rbr) =>
      var (f, k1) := WriteTo(fn, k);
      var (a, k2) := WriteList(args, k1);
      (f + [lbr] + a + [rbr], k2)
    case Infix(left, right) =>
      var (l, k1) := WriteTo(left, k);
      var (r, k2) := WriteTo(right, k1);
      ("(" + l + "^" + r + ")", k2)
    case Raw(code) => (CStr(code), k)
  }

  function WriteList(es: seq<Expr>, k: nat): (string, nat)
    decreases es, 0
  {
    if es == [] then ("", k)
    else
      var (t, k1) := WriteTo(es[0], k);
      var (u, k2) := WriteList(es[1..], k1);
      (if |es| == 1 then t else t + ", " + u, k2)
  }

  lemma {:induction false} SlotsAdvance(e: Expr, k: nat)
    ensures WriteTo(e, k).1 == k + NumParams(e)
    decreases e, 0
  {
    match e
    case Dyn(_, _) =>
    case Call(fn, args, _, _) =>
      SlotsAdvance(fn, k);
      SlotsAdvanceList(args, k + NumParams(fn));
    case Infix(left, right) =>
      SlotsAdvance(left, k);
      SlotsAdvance(right, k + NumParams(left));
    case Raw(_) =>
  }

  lemma {:induction false} SlotsAdvanceList(es: seq<Expr>, k: nat)
    ensures WriteList(es, k).1 == k + NumParamsList(es)
    decreases es, 0
  {
    if es != [] {
      SlotsAdvance(es[0], k);
      SlotsAdvanceList(es[1..], k + NumParams(es[0]));
    }
  }

  // ---------- skeletons: a tree with numbered slots in place of its values

  datatype Skel =
    | Slot(index: nat, tag: char)
    | SCall(fn: Skel, args: seq<Skel>, lbr: char, rbr: char)
    | SInfix(left: Skel, right: Skel)
    | SRaw(text: string)

  function Skeleton(e: Expr, k: nat): Skel
    decreases e, 0
  {
    match e
    case Dyn(tag, _) => Slot(k, tag)
    case Call(fn, args, lbr, rbr) =>
      SCall(Skeleton(fn, k), SkeletonList(args, k + NumParams(fn)), lbr, rbr)
    case Infix(left, right) => SInfix(Skeleton(left, k), Skeleton(right, k + NumParams(left)))
    case Raw(code) => SRaw(CStr(code))
  }

  function SkeletonList(es: seq<Expr>, k: nat): (r: seq<Skel>)
    ensures |r| == |es|
    decreases es, 0
  {
    if es == [] then []
    else [Skeleton(es[0], k)] + SkeletonList(es[1..], k + NumParams(es[0]))
  }

  /** The slots of a skeleton from left to right. */
  function Slots(s: Skel): (r: seq<Skel>)
    ensures forall i :: 0 <= i < |r| ==> r[i].Slot?
    decreases s, 0
  {
    match s
    case Slot(_, _) => [s]
    case SCall(fn, args, _, _) => Slots(fn) + SlotsList(args)
    case SInfix(left, right) => Slots(left) + Slots(right)
    case SRaw(_) => []
  }

  function SlotsList(ss: seq<Skel>): (r: seq<Skel>)
    ensures forall i :: 0 <= i < |r| ==> r[i].Slot?
    decreases ss, 0
  {
    if ss == [] then [] else Slots(ss[0]) + SlotsList(ss[1..])
  }

  /** The slots for a list of leaves, numbered from `k`. */
  function SlotsFor(ds: seq<Expr>, k: nat): seq<Skel>
    requires forall i :: 0 <= i < |ds| ==> ds[i].Dyn?
  {
    seq(|ds|, i requires 0 <= i < |ds| => Slot(k + i, ds[i].tag))
  }

  /** Slot number k + j is the j-th slot of the text and carries the tag of the j-th extracted value. */
  lemma {:induction false} SlotsLineUp(e: Expr, k: nat)
    ensures Slots(Skeleton(e, k)) == SlotsFor(Leaves(e), k)
    decreases e, 0
  {
    hide SlotsFor;
    match e
    case Dyn(_, _) => SlotsForOne(e, k);
    case Call(fn, args, _, _) =>
      SlotsLineUp(fn, k);
      SlotsLineUpList(args, k + NumParams(fn));
      SlotsForConcat(Leaves(fn), LeavesList(args), k);
    case Infix(left, right) =>
      SlotsLineUp(left, k);
      SlotsLineUp(right, k + NumParams(left));
      SlotsForConcat(Leaves(left), Leaves(right), k);
    case Raw(_) => SlotsForNone(k);
  }

  lemma SlotsForOne(e: Expr, k: nat)
    requires e.Dyn?
    ensures SlotsFor([e], k) == [Slot(k, e.tag)]
  {
  }

  lemma SlotsForNone(k: nat)
    ensures SlotsFor([], k) == []
  {
  }

  lemma SlotsForConcat(ds: seq<Expr>, es: seq<Expr>, k: nat)
    requires forall i :: 0 <= i < |ds| ==> ds[i].Dyn?
    requires forall i :: 0 <= i < |es| ==> es[i].Dyn?
    ensures SlotsFor(ds + es, k) == SlotsFor(ds, k) + SlotsFor(es, k + |ds|)
  {
  }

  lemma {:induction false} SlotsLineUpList(es: seq<Expr>, k: nat)
    ensures SlotsList(SkeletonList(es, k)) == SlotsFor(LeavesList(es), k)
    decreases es, 0
  {
    hide SlotsFor, Slots, Skeleton, Leaves;
    if es == [] {
      SlotsForNone(k);
    } else {
      SlotsLineUp(es[0], k);
      SlotsLineUpList(es[1..], k + NumParams(es[0]));
      SlotsForConcat(Leaves(es[0]), LeavesList(es[1..]), k);
    }
  }

  /** Puts parameter values back into the slots of a skeleton. */
  function Rebuild(s: Skel, params: seq<Any>): Expr
    decreases s, 0
  {
    match s
    case Slot(index, tag) => Dyn(tag, if index < |params| then params[index] else Any(0))
    case SCall(fn, args, lbr, rbr) => Call(Rebuild(fn, params), RebuildList(args, params), lbr, rbr)
    case SInfix(left, right) => Infix(Rebuild(left, params), Rebuild(right, params))
    case SRaw(text) => Raw(text + [NUL])
  }

  function RebuildList(ss: seq<Skel>, params: seq<Any>): seq<Expr>
    decreases ss, 0
  {
    if ss == [] then [] else [Rebuild(ss[0], params)] + RebuildList(ss[1..], params)
  }

  /** `values` are the parameters from slot `k` on. */
  ghost predicate HoldsAt(params: seq<Any>, k: nat, values: seq<Any>) {
    k + |values| <= |params| && params[k..k + |values|] == values
  }

  lemma HoldsAtSplit(params: seq<Any>, k: nat, ds: seq<Expr>, es: seq<Expr>)
    requires forall i :: 0 <= i < |ds| ==> ds[i].Dyn?
    requires forall i :: 0 <= i < |es| ==> es[i].Dyn?
    requires HoldsAt(params, k, Values(ds + es))
    ensures HoldsAt(params, k, Values(ds)) && HoldsAt(params, k + |ds|, Values(es))
  {
    var all := Values(ds + es);
    assert all[..|ds|] == Values(ds);
    assert all[|ds|..] == Values(es);
    assert params[k..k + |all|][..|ds|] == params[k..k + |ds|];
    assert params[k..k + |all|][|ds|..] == params[k + |ds|..k + |all|];
  }

  lemma {:induction false} RebuildSkeleton(e: Expr, k: nat, params: seq<Any>)
    requires Buildable(e) && HoldsAt(params, k, Params(e))
    ensures Rebuild(Skeleton(e, k), params) == e
    decreases e, 0
  {
    HoldsByCase(e, k, params);
    BuildableByCase(e);
    hide HoldsAt, Params, ParamsList, Leaves, LeavesList, SkeletonList, RebuildList, NumParams, Buildable, IsRawCode;
    match e
    case Dyn(_, value) =>
      HoldsOne(params, k, value);
    case Call(fn, args, _, _) =>
      RebuildSkeleton(fn, k, params);
      RebuildSkeletonList(args, k + NumParams(fn), params);
    case Infix(left, right) =>
      RebuildSkeleton(left, k, params);
      RebuildSkeleton(right, k + NumParams(left), params);
    case Raw(code) =>
      RawCodeText(code);
  }

  lemma BuildableByCase(e: Expr)
    requires Buildable(e)
    ensures match e
      case Dyn(_, _) => true
      case Call(fn, args, _, _) => Buildable(fn) && AllBuildable(args)
      case Infix(left, right) => Buildable(left) && Buildable(right)
      case Raw(code) => IsRawCode(code)
  {
  }

  lemma HoldsOne(params: seq<Any>, k: nat, value: Any)
    requires HoldsAt(params, k, [value])
    ensures k < |params| && params[k] == value
  {
    assert params[k..k + 1][0] == value;
  }

  lemma HoldsByCase(e: Expr, k: nat, params: seq<Any>)
    requires HoldsAt(params, k, Params(e))
    ensures match e
      case Dyn(_, value) => HoldsAt(params, k, [value])
      case Call(fn, args, _, _) =>
        HoldsAt(params, k, Params(fn)) && HoldsAt(params, k + NumParams(fn), ParamsList(args))
      case Infix(left, right) =>
        HoldsAt(params, k, Params(left)) && HoldsAt(params, k + NumParams(left), Params(right))
      case Raw(_) => true
  {
    match e
    case Dyn(_, value) => assert Params(e) == [value];
    case Call(fn, args, _, _) => HoldsAtSplit(params, k, Leaves(fn), LeavesList(args));
    case Infix(left, right) => HoldsAtSplit(params, k, Leaves(left), Leaves(right));
    case Raw(_) =>
  }

  lemma {:induction false} RebuildSkeletonList(es: seq<Expr>, k: nat, params: seq<Any>)
    requires AllBuildable(es) && HoldsAt(params, k, ParamsList(es))
    ensures RebuildList(SkeletonList(es, k), params) == es
    decreases es, 0
  {
    if es != [] {
      HoldsAtSplit(params, k, Leaves(es[0]), LeavesList(es[1..]));
      hide Buildable, HoldsAt, Skeleton, Rebuild, Leaves, LeavesList, Values;
      RebuildSkeleton(es[0], k, params);
      RebuildSkeletonList(es[1..], k + NumParams(es[0]), params);
      var first, more := Skeleton(es[0], k), SkeletonList(es[1..], k + NumParams(es[0]));
      assert ([first] + more)[0] == first && ([first] + more)[1..] == more;
      assert es == [es[0]] + es[1..];
    }
  }

  lemma RawCodeText(code: string)
    requires IsRawCode(code)
    ensures CStr(code) == code[..|code| - 1]
    ensures code == CStr(code) + [NUL]
    ensures IsAtom(CStr(code))
  {
    hide IsAtom, CStr, NoNul;
    var t := code[..|code| - 1];
    AtomIsLiteralOrWord(t);
    CStrOfTerminated(t);
    assert code == t + [NUL];
  }
}
