/**
 What the driver's entry point prepares: names for temporary outputs, and the search path
 (dcc/dcc.c, lines 110-124 and 208-212).
 */
module Setup {
  import opened Wrappers
  import opened Decimal
  import opened Build

  // ---------- temporary output names

  const NAME_SIZE := 64

  /** A number, a dot and a base name, cut to fit a buffer with its terminator. */
  function TmpOutputName(i: nat, base: string): string {
    var s := Digits(i) + ("." + base);
    if |s| < NAME_SIZE then s else s[..NAME_SIZE - 1]
  }

  /** A name is what 63 characters hold of its number, the dot and the base name. */
  lemma NameMeans(i: nat, base: string)
    ensures var name := TmpOutputName(i, base);
      && name <= Digits(i) + ['.'] + base
      && |name| == (if |Digits(i)| + 1 + |base| <= 63 then |Digits(i)| + 1 + |base| else 63)
  {
    assert Digits(i) + ("." + base) == Digits(i) + ['.'] + base;
  }

  function TmpOutputNames(bases: seq<string>): seq<string> {
    seq(|bases|, i requires 0 <= i < |bases| => TmpOutputName(i, bases[i]))
  }

  lemma NameStartsWithNumber(i: nat, base: string)
    requires i <= INT_MAX
    ensures var d := Digits(i);
      |d| < |TmpOutputName(i, base)| && TmpOutputName(i, base)[..|d|] == d && TmpOutputName(i, base)[|d|] == '.'
  {
    SizeFitsTwentyDigits(i);
  }

  lemma NamesDiffer(i: nat, j: nat, a: string, b: string)
    requires i <= INT_MAX && j <= INT_MAX && i != j
    ensures TmpOutputName(i, a) != TmpOutputName(j, b)
  {
    NameStartsWithNumber(i, a);
    NameStartsWithNumber(j, b);
    hide TmpOutputName;
    var x, y, d, e := TmpOutputName(i, a), TmpOutputName(j, b), Digits(i), Digits(j);
    DigitsInjective(i, j);
    assert |d| < |e| ==> y[|d|] == y[..|e|][|d|] == e[|d|];
    assert |e| < |d| ==> x[|e|] == x[..|d|][|e|] == d[|e|];
  }

  /** Cut or not, the temporary names differ from each other and from the driver's own. */
  lemma TmpOutputNamesAreGood(bases: seq<string>)
    requires |bases| <= INT_MAX
    ensures GoodNames(TmpOutputNames(bases))
  {
    var names := TmpOutputNames(bases);
    hide TmpOutputName;
    forall i, j | 0 <= i < j < |names|
      ensures names[i] != names[j]
    {
      NamesDiffer(i, j, bases[i], bases[j]);
    }
    forall n | n in NameSet(names)
      ensures n !in Reserved() + {ALL_O}
    {
      var i :| 0 <= i < |names| && names[i] == n;
      NameStartsWithNumber(i, bases[i]);
      assert n[0] == Digits(i)[0];
      assert IsDigit(n[0]);
    }
  }

  // ---------- a run that loses an object

  /** An outside world in which nothing fails and no two steps write the same. */
  function AllGood(i: nat): Event {
    Event(true, true, Write(Digits(i)))
  }

  /** Then two objects that the driver made are different. */
  lemma TwoDiffer(driver: Driver, names: seq<string>, start: nat)
    requires driver.script == AllGood && driver.compile && |names| == 2
    requires driver.AllMade(driver.made, names, driver.doneAt, start)
    ensures names[0] in driver.made && names[1] in driver.made
    ensures driver.made[names[0]] != driver.made[names[1]]
  {
    var i, j := driver.doneAt[0], driver.doneAt[1];
    assert driver.OneMade(driver.made, names[0], start, i) && driver.OneMade(driver.made, names[1], i, j);
    DigitsInjective(i - 1, j - 1);
  }

  lemma CollidingInputs(inputs: seq<string>)
    requires inputs == ["a/k.cpp", "b/k.cpp"]
    ensures Basename(inputs[0]) == Basename(inputs[1]) == "k.cpp"
    ensures ObjectNames(inputs) == ["k.o", "k.o"]
  {
    var a, b := CollisionExample();
    hide Basename, ObjectName;
    assert inputs[0] == a && inputs[1] == b;
  }

  /**
   The driver compiles two inputs of one name without an output file: it succeeds, the two objects differ,
   and the first is nowhere to be found.
   */
  method CollisionRun() returns (driver: Driver, ok: bool, ghost first: string, ghost second: string)
    ensures fresh(driver) && driver.compile && driver.output == None && ok
    ensures var names := TmpOutputNames(["k.cpp", "k.cpp"]);
      && driver.made.Keys == NameSet(names)
      && driver.made[names[0]] == first && driver.made[names[1]] == second && first != second
    ensures driver.results == map["k.o" := second]
  {
    var inputs, bases := ["a/k.cpp", "b/k.cpp"], ["k.cpp", "k.cpp"];
    CollidingInputs(inputs);
    TmpOutputNamesAreGood(bases);
    hide Basename, ObjectName, ObjectNames, TmpOutputName, Digits, Delivered, GoodNames;
    var names := TmpOutputNames(bases);
    driver := new Driver(AllGood, false, true, None);
    assert driver.Healthy();
    ghost var start := driver.step;
    hide Driver.Made, Driver.AllMade;
    ok := driver.GenMain(inputs, names);
    TwoDiffer(driver, names, start);
    SecondOnly(driver.made, names);
    first, second := driver.made[names[0]], driver.made[names[1]];
  }

  lemma SecondOnly(made: Files, names: seq<string>)
    requires |names| == 2 && names[0] in made && names[1] in made
    ensures forall n :: n in names ==> n in made
    ensures Delivered(made, names, ["k.o", "k.o"], map[]) == map["k.o" := made[names[1]]]
  {
    var none: Files := map[];
    hide Delivered;
    DeliveredTwo(made, names[0], names[1], "k.o", "k.o", none);
    assert names == [names[0], names[1]];
    assert none["k.o" := made[names[0]]]["k.o" := made[names[1]]] == map["k.o" := made[names[1]]];
  }

  // ---------- the search path

  /** The elements of a path, separated by colons. */
  function Elements(path: string): (r: seq<string>)
    ensures r != []
  {
    if path == [] then [""]
    else if path[0] == ':' then [""] + Elements(path[1..])
    else
      var rest := Elements(path[1..]);
      [[path[0]] + rest[0]] + rest[1..]
  }

  function JoinElements(elements: seq<string>): string {
    if elements == [] then ""
    else if |elements| == 1 then elements[0]
    else elements[0] + ":" + JoinElements(elements[1..])
  }

  lemma JoinFirst(c: char, elements: seq<string>)
    requires elements != []
    ensures JoinElements([[c] + elements[0]] + elements[1..]) == [c] + JoinElements(elements)
  {
    var longer := [[c] + elements[0]] + elements[1..];
    assert longer[1..] == elements[1..];
  }

  lemma JoinEmpty(elements: seq<string>)
    requires elements != []
    ensures JoinElements([""] + elements) == ":" + JoinElements(elements)
  {
    assert ([""] + elements)[1..] == elements;
  }

  lemma {:induction false} ElementsJoin(path: string)
    ensures JoinElements(Elements(path)) == path
    ensures forall i :: 0 <= i < |Elements(path)| ==> ':' !in Elements(path)[i]
  {
    if path != [] {
      ElementsJoin(path[1..]);
      hide JoinElements;
      var rest := Elements(path[1..]);
      assert path == [path[0]] + path[1..];
      if path[0] == ':' {
        JoinEmpty(rest);
      } else {
        JoinFirst(path[0], rest);
      }
    }
  }

  lemma {:induction false} ElementsSplit(elem: string, rest: string)
    requires ':' !in elem
    ensures Elements(elem + ":" + rest) == [elem] + Elements(rest)
    ensures Elements(elem) == [elem]
  {
    if elem == [] {
      assert [] + ":" + rest == ":" + rest && (":" + rest)[1..] == rest;
    } else {
      ElementsSplit(elem[1..], rest);
      assert (elem + ":" + rest)[1..] == elem[1..] + ":" + rest;
      assert elem == [elem[0]] + elem[1..];
    }
  }

  lemma ElementsStep(text: string, from: nat, to: nat)
    requires from <= to <= |text| && ':' !in text[from..to] && (to == |text| || text[to] == ':')
    ensures Elements(text[from..]) ==
      [text[from..to]] + (if to == |text| then [] else Elements(text[to + 1..]))
  {
    hide Elements;
    var elem := text[from..to];
    if to == |text| {
      ElementsSplit(elem, "");
      assert text[from..] == elem;
    } else {
      ElementsSplit(elem, text[to + 1..]);
      assert text[from..] == elem + ":" + text[to + 1..];
    }
  }

  method FindColon(path: array<char>, from: nat, end: nat) returns (at: nat)
    requires from <= end < path.Length
    ensures from <= at <= end && ':' !in path[from..at] && (at < end ==> path[at] == ':')
  {
    at := from;
    while at < end && path[at] != ':'
      invariant from <= at <= end && ':' !in path[from..at]
    {
      at := at + 1;
    }
  }

  /** The string that starts at `from`, up to the terminator that stands at `to`. */
  method CString(path: array<char>, from: nat, ghost to: nat) returns (s: string)
    requires from <= to < path.Length && path[to] == '\0'
    requires forall i :: from <= i < to ==> path[i] != '\0'
    ensures s == path[from..to]
  {
    var i := from;
    while path[i] != '\0'
      invariant from <= i && i <= to
      decreases path.Length - i
    {
      i := i + 1;
    }
    s := path[from..i];
  }

  /**
   Visits the elements of a path: each colon is overwritten by a terminator while the element before
   it is looked at, and put back. The path, which ends in a terminator, is left as it was.
   */
  method VisitPath(path: array<char>) returns (visited: seq<string>)
    requires path.Length > 0 && path[path.Length - 1] == '\0'
    requires forall i :: 0 <= i < path.Length - 1 ==> path[i] != '\0'
    modifies path
    ensures path[..] == old(path[..])
    ensures visited == Elements(path[..path.Length - 1])
  {
    hide Elements;
    var end := path.Length - 1;
    ghost var text := path[..end];
    var elem := 0;
    visited := [];
    assert text[0..] == text;
    while true
      invariant elem <= end && path[..] == old(path[..])
      invariant visited + Elements(text[elem..]) == Elements(text)
      decreases end - elem
    {
      assert path[..end] == old(path[..])[..end] == text;
      var colon := FindColon(path, elem, end);
      ghost var seen := path[elem..colon];
      assert text[elem..colon] == path[..end][elem..colon] == seen;
      ElementsStep(text, elem, colon);
      if colon == end {
        var last := CString(path, elem, end);
        visited := visited + [last];
        return;
      }
      path[colon] := '\0';
      var element := CString(path, elem, colon);
      assert element == seen;
      path[colon] := ':';
      assert path[..] == old(path[..]);
      assert visited + ([seen] + Elements(text[colon + 1..])) == visited + [seen] + Elements(text[colon + 1..]);
      visited := visited + [element];
      elem := colon + 1;
    }
  }
}
