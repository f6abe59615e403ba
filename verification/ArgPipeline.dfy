/**
 From compiler arguments to argument vectors: the compiler at build time, the linker, the arguments
 kept for run time, and the compiler at run time
 (dcc/dcc_gen.c, lines 142-202, 301-302, 479-518; runtime/io.c, lines 157-171).
 */
module ArgPipeline {
  import opened Wrappers
  import opened ParseArgs
  import Decimal
  import GenArgs
  import Options

  const COMMON_OPTS := ["-shared", "-fPIC", "-fvisibility=hidden", "-O3"]
  const EXPORT_FINDER_OPTS := ["-E", "-P", "-xc++-header"]
  const PRECOMPILER_OPTS := ["-xc++-header"]

  /** An argument vector: strings and a terminating null pointer. */
  function Terminated(words: seq<string>): (r: seq<Option<string>>)
    ensures |r| == |words| + 1
  {
    seq(|words|, i requires 0 <= i < |words| => Some(words[i])) + [None]
  }

  // ---------- one buffer for every vector

  function Max(a: nat, b: nat): nat {
    if a > b then a else b
  }

  function MaxCxxArgs(numCompilerArgs: nat): nat {
    1 + 1 + |COMMON_OPTS| + Max(|EXPORT_FINDER_OPTS|, |PRECOMPILER_OPTS|) + (numCompilerArgs + 1) + 1
  }

  /** The size of the buffer that is reused for every vector the driver builds. */
  function RequiredSize(numCompilerArgs: nat, compile: bool, output: bool, numFiles: nat): nat {
    var forCxx := MaxCxxArgs(numCompilerArgs);
    if compile && output then Max(forCxx, 2 + numFiles + 2 + 1) else forCxx
  }

  /** The size in words: eleven more than the compiler arguments, or five more than the files if that is more. */
  lemma SizeSpelled(numCompilerArgs: nat, compile: bool, output: bool, numFiles: nat)
    ensures RequiredSize(numCompilerArgs, compile, output, numFiles) ==
      if compile && output && numFiles > numCompilerArgs + 6 then numFiles + 5 else numCompilerArgs + 11
  {
  }

  function Optional(word: Option<string>): seq<string> {
    if word.Some? then [word.value] else []
  }

  /** The words that a compiler run at build time gets. */
  function CxxWords(program: string, argv1: Option<string>, argv2: Option<string>, specific: seq<string>,
                    args: seq<CompilerArg>, input: InputFile): seq<string>
    requires input.pos <= |args|
  {
    OptionWords(program, argv1, argv2, specific) + WithFile(args, input.pos, input.name)
  }

  function OptionWords(program: string, argv1: Option<string>, argv2: Option<string>, specific: seq<string>)
    : seq<string>
  {
    [program] + Optional(argv1) + Optional(argv2) + COMMON_OPTS + specific
  }

  /** The buffer starts with these words. */
  ghost predicate Holds(buff: array<Option<string>>, words: seq<string>)
    reads buff
  {
    |words| <= buff.Length && forall i :: 0 <= i < |words| ==> buff[i] == Some(words[i])
  }

  lemma HoldsTerminated(buff: array<Option<string>>, words: seq<string>)
    requires Holds(buff, words) && |words| < buff.Length && buff[|words|] == None
    ensures buff[..|words| + 1] == Terminated(words)
  {
  }

  method Put(buff: array<Option<string>>, ghost words: seq<string>, at: nat, word: string) returns (next: nat)
    requires Holds(buff, words) && at == |words| < buff.Length
    modifies buff
    ensures Holds(buff, words + [word]) && next == at + 1
  {
    buff[at] := Some(word);
    next := at + 1;
  }

  method PutAll(buff: array<Option<string>>, ghost words: seq<string>, at: nat, more: seq<string>) returns (next: nat)
    requires Holds(buff, words) && at == |words| && at + |more| <= buff.Length
    modifies buff
    ensures Holds(buff, words + more) && next == at + |more|
  {
    next := at;
    assert words + more[..0] == words;
    for i := 0 to |more|
      invariant next == at + i && Holds(buff, words + more[..i])
    {
      next := Put(buff, words + more[..i], next, more[i]);
      assert words + more[..i + 1] == words + more[..i] + [more[i]];
    }
    assert more[..|more|] == more;
  }

  method PutArgs(buff: array<Option<string>>, ghost words: seq<string>, at: nat, args: seq<CompilerArg>,
                 from: nat, to: nat)
    returns (next: nat)
    requires Holds(buff, words) && at == |words| && from <= to <= |args| && at + (to - from) <= buff.Length
    modifies buff
    ensures Holds(buff, words + Strings(args[from..to])) && next == at + (to - from)
  {
    next := at;
    assert words + Strings(args[from..from]) == words;
    for i := from to to
      invariant next == at + (i - from) && Holds(buff, words + Strings(args[from..i]))
    {
      next := Put(buff, words + Strings(args[from..i]), next, args[i].arg);
      assert words + Strings(args[from..i + 1]) == words + Strings(args[from..i]) + [args[i].arg];
    }
  }

  /** Builds the vector of a compiler run; the buffer's first element already is the program. */
  method ExecCxx(program: string, argv1: Option<string>, argv2: Option<string>, specific: seq<string>,
                 args: seq<CompilerArg>, input: InputFile, buff: array<Option<string>>) returns (argc: nat)
    requires input.pos <= |args| && buff.Length >= MaxCxxArgs(|args|)
    requires |Optional(argv1)| + |Optional(argv2)| + |specific| <= 4
    requires buff[0] == Some(program)
    modifies buff
    ensures var words := CxxWords(program, argv1, argv2, specific, args, input);
      argc == |words| < buff.Length && buff[..argc + 1] == Terminated(words)
  {
    argc := PutOptions(program, argv1, argv2, specific, buff);
    ghost var head := OptionWords(program, argv1, argv2, specific);
    hide OptionWords, WithFile;
    WithFileLength(args, input.pos, input.name);
    argc := PutWithFile(buff, head, argc, args, input);
    buff[argc] := None;
    HoldsTerminated(buff, head + WithFile(args, input.pos, input.name));
  }

  lemma WithFileLength(args: seq<CompilerArg>, pos: nat, name: string)
    requires pos <= |args|
    ensures |WithFile(args, pos, name)| == |args| + 1
  {
  }

  /** The compiler arguments with the input file among them. */
  method PutWithFile(buff: array<Option<string>>, ghost words: seq<string>, at: nat, args: seq<CompilerArg>,
                     input: InputFile)
    returns (next: nat)
    requires Holds(buff, words) && at == |words| && input.pos <= |args| && at + |args| + 1 <= buff.Length
    modifies buff
    ensures Holds(buff, words + WithFile(args, input.pos, input.name)) && next == at + |args| + 1
  {
    hide Strings, Holds;
    ghost var before, after := Strings(args[0..input.pos]), Strings(args[input.pos..|args|]);
    next := PutArgs(buff, words, at, args, 0, input.pos);
    next := Put(buff, words + before, next, input.name);
    next := PutArgs(buff, words + before + [input.name], next, args, input.pos, |args|);
    assert args[0..input.pos] == args[..input.pos] && args[input.pos..|args|] == args[input.pos..];
    assert words + before + [input.name] + after == words + (before + [input.name] + after);
  }

  method PutOptions(program: string, argv1: Option<string>, argv2: Option<string>, specific: seq<string>,
                    buff: array<Option<string>>) returns (argc: nat)
    requires |OptionWords(program, argv1, argv2, specific)| <= buff.Length
    requires buff.Length > 0 && buff[0] == Some(program)
    modifies buff
    ensures Holds(buff, OptionWords(program, argv1, argv2, specific))
    ensures argc == |OptionWords(program, argv1, argv2, specific)|
  {
    ghost var words := [program];
    argc := 1;
    if argv1.Some? {
      argc := Put(buff, words, argc, argv1.value);
    }
    words := words + Optional(argv1);
    if argv2.Some? {
      argc := Put(buff, words, argc, argv2.value);
    }
    words := words + Optional(argv2);
    argc := PutAll(buff, words, argc, COMMON_OPTS);
    words := words + COMMON_OPTS;
    argc := PutAll(buff, words, argc, specific);
  }

  /** The options of both runs, word by word. */
  lemma OptionsSpelled(program: string, outName: string)
    ensures OptionWords(program, Some("-o"), Some(outName), PRECOMPILER_OPTS) ==
      [program, "-o", outName, "-shared", "-fPIC", "-fvisibility=hidden", "-O3", "-xc++-header"]
    ensures OptionWords(program, None, None, EXPORT_FINDER_OPTS) ==
      [program, "-shared", "-fPIC", "-fvisibility=hidden", "-O3", "-E", "-P", "-xc++-header"]
  {
  }

  /** The buffer is large enough for both build-time runs of the compiler. */
  method BuildTimeRuns(program: string, outName: string, args: seq<CompilerArg>, input: InputFile,
                       compile: bool, output: bool, numFiles: nat, buff: array<Option<string>>)
    returns (precompiler: seq<Option<string>>, preprocessor: seq<Option<string>>)
    requires input.pos <= |args| && buff.Length == RequiredSize(|args|, compile, output, numFiles)
    requires buff[0] == Some(program)
    modifies buff
    ensures precompiler == Terminated(
      [program, "-o", outName, "-shared", "-fPIC", "-fvisibility=hidden", "-O3", "-xc++-header"]
      + WithFile(args, input.pos, input.name))
    ensures preprocessor == Terminated(
      [program, "-shared", "-fPIC", "-fvisibility=hidden", "-O3", "-E", "-P", "-xc++-header"]
      + WithFile(args, input.pos, input.name))
  {
    OptionsSpelled(program, outName);
    hide OptionWords, WithFile, Terminated;
    var n := ExecCxx(program, Some("-o"), Some(outName), PRECOMPILER_OPTS, args, input, buff);
    precompiler := buff[..n + 1];
    buff[0] := Some(program);
    n := ExecCxx(program, None, None, EXPORT_FINDER_OPTS, args, input, buff);
    preprocessor := buff[..n + 1];
  }

  /** The linker line that combines the objects of all files. */
  method LinkerLine(files: seq<string>, output: string, numCompilerArgs: nat, buff: array<Option<string>>)
    returns (argc: nat)
    requires buff.Length == RequiredSize(numCompilerArgs, true, true, |files|)
    modifies buff
    ensures var words := ["ld", "-r"] + files + ["-o", output];
      argc == |words| < buff.Length && buff[..argc + 1] == Terminated(words)
  {
    ghost var words := ["ld"];
    buff[0] := Some("ld");
    argc := Put(buff, words, 1, "-r");
    words := words + ["-r"];
    assert words == ["ld", "-r"];
    argc := PutAll(buff, words, argc, files);
    words := words + files;
    ghost var head := words;
    argc := Put(buff, words, argc, "-o");
    words := words + ["-o"];
    argc := Put(buff, words, argc, output);
    words := words + [output];
    assert words == head + ["-o", output];
    buff[argc] := None;
    HoldsTerminated(buff, words);
  }

  // ---------- arguments kept for run time

  /** The words that the compiler gets at run time too. */
  function RuntimeWords(args: seq<CompilerArg>): (r: seq<string>)
    ensures |r| == |args| - BuildOnly(args)
  {
    if args == [] then []
    else
      var last := args[|args| - 1];
      RuntimeWords(args[..|args| - 1]) + (if last.alsoRuntime then [last.arg] else [])
  }

  /** The number of words that only the build-time compiler gets. */
  function BuildOnly(args: seq<CompilerArg>): (n: nat)
    ensures n <= |args|
  {
    if args == [] then 0
    else BuildOnly(args[..|args| - 1]) + (if args[|args| - 1].alsoRuntime then 0 else 1)
  }

  lemma {:induction false} RuntimeWordsConcat(a: seq<CompilerArg>, b: seq<CompilerArg>)
    ensures RuntimeWords(a + b) == RuntimeWords(a) + RuntimeWords(b)
    ensures BuildOnly(a + b) == BuildOnly(a) + BuildOnly(b)
    decreases |b|
  {
    if b == [] {
      assert a + b == a;
    } else {
      assert (a + b)[..|a + b| - 1] == a + b[..|b| - 1];
      RuntimeWordsConcat(a, b[..|b| - 1]);
    }
  }

  /** The position that the driver stores for the input file among the arguments kept for run time. */
  function StoredPosition(args: seq<CompilerArg>, pos: nat): int {
    pos + (1 + |COMMON_OPTS|) - BuildOnly(args)
  }

  /** The arguments kept for run time, the compiler first. */
  function KeptWords(program: string, args: seq<CompilerArg>): seq<string> {
    [program] + COMMON_OPTS + RuntimeWords(args)
  }

  lemma NextKept(args: seq<CompilerArg>, i: nat)
    requires i < |args|
    ensures RuntimeWords(args[..i + 1]) ==
      if args[i].alsoRuntime then RuntimeWords(args[..i]) + [args[i].arg] else RuntimeWords(args[..i])
    ensures BuildOnly(args[..i + 1]) == BuildOnly(args[..i]) + if args[i].alsoRuntime then 0 else 1
  {
    assert args[..i + 1][..i] == args[..i];
  }

  method BuildRuntimeArgs(program: string, args: seq<CompilerArg>, pos: nat, compile: bool, output: bool, numFiles: nat,
                          buff: array<Option<string>>) returns (stored: int, argc: nat)
    requires buff.Length == RequiredSize(|args|, compile, output, numFiles) && buff[0] == Some(program)
    modifies buff
    ensures stored == StoredPosition(args, pos)
    ensures argc == |KeptWords(program, args)| < buff.Length
    ensures buff[..argc + 1] == Terminated(KeptWords(program, args))
  {
    stored := pos + (1 + |COMMON_OPTS|);
    argc := PutAll(buff, [program], 1, COMMON_OPTS);
    ghost var head := [program] + COMMON_OPTS;
    assert head + RuntimeWords(args[..0]) == head;
    for i := 0 to |args|
      invariant stored == pos + (1 + |COMMON_OPTS|) - BuildOnly(args[..i])
      invariant argc == |head| + |RuntimeWords(args[..i])| && Holds(buff, head + RuntimeWords(args[..i]))
    {
      hide Holds;
      NextKept(args, i);
      hide RuntimeWords, BuildOnly;
      if args[i].alsoRuntime {
        argc := Put(buff, head + RuntimeWords(args[..i]), argc, args[i].arg);
        assert head + RuntimeWords(args[..i + 1]) == head + RuntimeWords(args[..i]) + [args[i].arg];
      } else {
        stored := stored - 1;
      }
    }
    assert args[..|args|] == args;
    buff[argc] := None;
    HoldsTerminated(buff, head + RuntimeWords(args));
  }

  // ---------- the compiler at run time

  /** The vector for position `k`, which the run-time library takes as it is stored. */
  function RuntimeVector(kept: seq<string>, k: nat, cxx: string, so: string): seq<string>
    requires k <= |kept|
  {
    kept[..k] + [cxx] + kept[k..] + ["-o", so]
  }

  /** A C `int` converted to `size_t`. */
  function ToSize(n: int): nat {
    n % Decimal.SIZE_MODULUS
  }

  /**
   Builds the run-time vector for the position as it is stored, converted to an unsigned size. A position
   that is negative or too high makes the copying leave the array of arguments, where the result is false;
   otherwise the vector is filled exactly.
   */
  method ExecuteCompiler(kept: seq<string>, stored: int, cxx: string, so: string)
    returns (ok: bool, argv: array<Option<string>>)
    requires |kept| <= Decimal.INT_MAX && -Decimal.INT_MAX - 1 <= stored <= Decimal.INT_MAX
    ensures ok <==> 0 <= stored <= |kept|
    ensures ok ==> argv.Length == |kept| + 4 && argv[..] == Terminated(RuntimeVector(kept, stored, cxx, so))
  {
    var n, k := |kept|, ToSize(stored);
    argv := new Option<string>[n + 4](_ => None);
    ghost var words: seq<string> := [];
    var p: nat := 0;
    while p < k
      invariant p <= k && p <= n && Holds(argv, kept[..p])
    {
      if p >= n {
        return false, argv;
      }
      p := Put(argv, kept[..p], p, kept[p]);
      assert kept[..p] == kept[..p - 1] + [kept[p - 1]];
    }
    assert k == stored;
    words := kept[..k];
    p := Put(argv, words, p, cxx);
    words := words + [cxx];
    p := PutAll(argv, words, p, kept[k..]);
    words := words + kept[k..];
    ghost var head := words;
    p := Put(argv, words, p, "-o");
    words := words + ["-o"];
    p := Put(argv, words, p, so);
    words := words + [so];
    assert words == head + ["-o", so];
    argv[p] := None;
    p := p + 1;
    assert p == argv.Length;
    HoldsTerminated(argv, words);
    assert argv[..] == argv[..|words| + 1];
    assert words == RuntimeVector(kept, k, cxx, so);
    ok := true;
  }

  /** The vector that is meant: the file where the input file stood among the arguments. */
  function IntendedVector(program: string, args: seq<CompilerArg>, pos: nat, cxx: string, so: string): seq<string>
    requires pos <= |args|
  {
    [program] + COMMON_OPTS + RuntimeWords(args[..pos]) + [cxx] + RuntimeWords(args[pos..]) + ["-o", so]
  }

  /** The stored position is too low by the number of build-only words after the input file. */
  lemma PositionIsLow(program: string, args: seq<CompilerArg>, pos: nat)
    requires pos <= |args|
    ensures StoredPosition(args, pos)
      == |[program] + COMMON_OPTS + RuntimeWords(args[..pos])| - BuildOnly(args[pos..])
    ensures StoredPosition(args, pos) <= |KeptWords(program, args)|
  {
    assert args == args[..pos] + args[pos..];
    RuntimeWordsConcat(args[..pos], args[pos..]);
  }

  /** The stored position stays inside the kept words exactly when the words before the file make up for it. */
  lemma StoredInBoundsIff(program: string, args: seq<CompilerArg>, pos: nat)
    requires pos <= |args|
    ensures 0 <= StoredPosition(args, pos) <= |KeptWords(program, args)| <==>
      BuildOnly(args[pos..]) <= 1 + |COMMON_OPTS| + |RuntimeWords(args[..pos])|
  {
    PositionIsLow(program, args, pos);
  }

  /** Putting `x` into `v` at or before the length of `head` gives the list meant only for the right place and `v`. */
  lemma InsertedInPlace(v: seq<string>, k: nat, head: seq<string>, x: string, tail: seq<string>, rest: seq<string>)
    requires k <= |v| && k <= |head| && x !in head
    ensures v[..k] + [x] + v[k..] + rest == head + [x] + tail + rest <==> k == |head| && v == head + tail
  {
    var actual, intended := v[..k] + [x] + v[k..] + rest, head + [x] + tail + rest;
    assert actual[k] == x;
    if k < |head| {
      assert intended[k] == head[k];
    } else if actual == intended {
      assert |v| == |head + tail|;
      assert v[..k] == actual[..k] == head;
      assert v[k..] == actual[k + 1..|v| + 1] == tail;
      assert v == v[..k] + v[k..];
    }
  }

  /**
   The run-time compiler sees the file in its place exactly when no build-only word follows the input
   file. Otherwise the file comes too early, or the position is negative and no vector is meant by it.
   The generated file's name differs from every argument.
   */
  lemma FileInPlaceIff(program: string, args: seq<CompilerArg>, pos: nat, cxx: string, so: string)
    requires pos <= |args| && cxx !in KeptWords(program, args)
    ensures var kept, k := KeptWords(program, args), StoredPosition(args, pos);
      && k <= |kept|
      && (0 <= k && RuntimeVector(kept, k, cxx, so) == IntendedVector(program, args, pos, cxx, so)
          <==> BuildOnly(args[pos..]) == 0)
  {
    PositionIsLow(program, args, pos);
    KeptSplit(program, args, pos);
    hide RuntimeWords, BuildOnly, StoredPosition, KeptWords, COMMON_OPTS;
    var head, tail := [program] + COMMON_OPTS + RuntimeWords(args[..pos]), RuntimeWords(args[pos..]);
    var k := StoredPosition(args, pos);
    if k >= 0 {
      InsertedInPlace(head + tail, k, head, cxx, tail, ["-o", so]);
    }
  }

  lemma KeptSplit(program: string, args: seq<CompilerArg>, pos: nat)
    requires pos <= |args|
    ensures KeptWords(program, args) == [program] + COMMON_OPTS + RuntimeWords(args[..pos]) + RuntimeWords(args[pos..])
  {
    assert args == args[..pos] + args[pos..];
    RuntimeWordsConcat(args[..pos], args[pos..]);
  }

  // ---------- from the command line to the run-time compiler

  lemma {:induction false} ArgsConcat(a: seq<Item>, b: seq<Item>)
    ensures CompilerArgs(a + b) == CompilerArgs(a) + CompilerArgs(b)
    decreases |b|
  {
    hide ForwardedBy;
    LastOfConcat(a, b);
    if b == [] {
      assert CompilerArgs(a) + [] == CompilerArgs(a);
    } else {
      var before, last := b[..|b| - 1], ForwardedBy(b[|b| - 1]);
      ArgsConcat(a, before);
      assert CompilerArgs(a + b) == CompilerArgs(a + before) + last;
      assert CompilerArgs(b) == CompilerArgs(before) + last;
      hide CompilerArgs;
      assert CompilerArgs(a) + CompilerArgs(before) + last == CompilerArgs(a) + (CompilerArgs(before) + last);
    }
  }

  lemma LastOfConcat(a: seq<Item>, b: seq<Item>)
    ensures b == [] ==> a + b == a
    ensures b != [] ==>
      (a + b)[..|a + b| - 1] == a + b[..|b| - 1] && (a + b)[|a + b| - 1] == b[|b| - 1]
  {
  }

  /** An option whose words only the build-time compiler gets. */
  predicate IsBuildOnly(item: Item) {
    item.Opt? && item.action == Options.ForwardNoRt
  }

  predicate NoBuildOnly(items: seq<Item>) {
    forall item :: item in items ==> !IsBuildOnly(item)
  }

  /** The number of words of a command line that only the build-time compiler gets. */
  function BuildOnlyCount(items: seq<Item>): nat {
    if items == [] then 0
    else BuildOnlyCount(items[..|items| - 1]) + BuildOnlyOf(items[|items| - 1])
  }

  function BuildOnlyOf(item: Item): nat {
    if IsBuildOnly(item) then |item.words| else 0
  }

  lemma {:induction false} BuildOnlyIsCount(items: seq<Item>)
    requires forall i :: 0 <= i < |items| ==> |items[i].Words()| >= 1
    ensures BuildOnly(CompilerArgs(items)) == BuildOnlyCount(items)
    ensures BuildOnlyCount(items) == 0 <==> NoBuildOnly(items)
  {
    if items != [] {
      var before, last := items[..|items| - 1], items[|items| - 1];
      hide BuildOnly, RuntimeWords, ForwardedBy, IsBuildOnly, BuildOnlyOf;
      BuildOnlyIsCount(before);
      RuntimeWordsConcat(CompilerArgs(before), ForwardedBy(last));
      WordsOfOne(last);
      hide CompilerArgs;
      assert items == before + [last];
      assert forall item :: item in items <==> item in before || item == last;
    }
  }

  /** The words of an item that the compiler gets at run time too. */
  function RuntimeWordsOf(item: Item): seq<string> {
    if item.Opt? && item.action in {Options.Forward, Options.SetNowarn, Options.SetVerbose} then item.words else []
  }

  lemma WordsOfOne(item: Item)
    requires |item.Words()| >= 1
    ensures BuildOnly(ForwardedBy(item)) == BuildOnlyOf(item)
    ensures BuildOnlyOf(item) == 0 <==> !IsBuildOnly(item)
    ensures RuntimeWords(ForwardedBy(item)) == RuntimeWordsOf(item)
  {
    hide Marked;
    if item.Opt? {
      AllMarked(item.words, true);
      AllMarked(item.words, false);
    }
  }

  lemma {:induction false} AllMarked(words: seq<string>, alsoRuntime: bool)
    ensures BuildOnly(Marked(words, alsoRuntime)) == if alsoRuntime then 0 else |words|
    ensures RuntimeWords(Marked(words, alsoRuntime)) == if alsoRuntime then words else []
  {
    if words != [] {
      AllMarked(words[..|words| - 1], alsoRuntime);
      assert Marked(words, alsoRuntime)[..|words| - 1] == Marked(words[..|words| - 1], alsoRuntime);
    }
  }

  /** The run-time words of a command line, in order. */
  function RuntimeLine(items: seq<Item>): seq<string> {
    if items == [] then [] else RuntimeLine(items[..|items| - 1]) + RuntimeWordsOf(items[|items| - 1])
  }

  lemma {:induction false} RuntimeLineIsKept(items: seq<Item>)
    requires forall i :: 0 <= i < |items| ==> |items[i].Words()| >= 1
    ensures RuntimeWords(CompilerArgs(items)) == RuntimeLine(items)
  {
    if items != [] {
      var before, last := items[..|items| - 1], items[|items| - 1];
      hide RuntimeWords, BuildOnly, ForwardedBy, RuntimeWordsOf;
      RuntimeLineIsKept(before);
      RuntimeWordsConcat(CompilerArgs(before), ForwardedBy(last));
      WordsOfOne(last);
    }
  }

  /** The vector meant for input `k` of a command line: the run-time words in order, the file where the input stood. */
  function MeantVector(program: string, items: seq<Item>, k: nat, cxx: string, so: string): seq<string>
    requires k < |items|
  {
    [program] + COMMON_OPTS + RuntimeLine(items[..k]) + [cxx] + RuntimeLine(items[k + 1..]) + ["-o", so]
  }

  /** The position that is stored for input `k` of a command line. */
  function StoredFor(items: seq<Item>, k: nat): int
    requires k < |items|
  {
    StoredPosition(CompilerArgs(items), |CompilerArgs(items[..k])|)
  }

  lemma AroundInput(items: seq<Item>, k: nat)
    requires k < |items| && items[k].File?
    requires forall i :: 0 <= i < |items| ==> |items[i].Words()| >= 1
    ensures
      var args, pos := CompilerArgs(items), |CompilerArgs(items[..k])|;
      && pos <= |args|
      && RuntimeWords(args[..pos]) == RuntimeLine(items[..k])
      && RuntimeWords(args[pos..]) == RuntimeLine(items[k + 1..])
      && BuildOnly(args[pos..]) == BuildOnlyCount(items[k + 1..])
      && (BuildOnlyCount(items[k + 1..]) == 0 <==> NoBuildOnly(items[k + 1..]))
  {
    hide RuntimeWords, BuildOnly, NoBuildOnly;
    var a, b := items[..k], items[k + 1..];
    ArgsAround(items, k);
    RuntimeLineIsKept(a);
    RuntimeLineIsKept(b);
    BuildOnlyIsCount(b);
  }

  lemma CommandLineItems(argv: seq<string>)
    ensures forall i :: 0 <= i < |Items(argv)| ==> |Items(argv)[i].Words()| >= 1
  {
    forall i | 0 <= i < |Items(argv)|
      ensures |Items(argv)[i].Words()| >= 1
    {
      ItemsHaveWords(argv, i);
    }
  }

  /**
   For input `k` of a command line, the run-time compiler gets the words that are forwarded to it in
   their order, with the generated file where the input stood, exactly when no build-only option
   stands after the input.
   */
  lemma RuntimeFollowsCommandLine(program: string, argv: seq<string>, k: nat, cxx: string, so: string)
    requires k < |Items(argv)| && Items(argv)[k].File?
    requires cxx !in KeptWords(program, CompilerArgs(Items(argv)))
    ensures
      var items, kept, stored := Items(argv), KeptWords(program, CompilerArgs(Items(argv))), StoredFor(Items(argv), k);
      && stored <= |kept|
      && (0 <= stored && RuntimeVector(kept, stored, cxx, so) == MeantVector(program, items, k, cxx, so)
          <==> NoBuildOnly(items[k + 1..]))
  {
    hide Items, RuntimeWords, BuildOnly, NoBuildOnly, KeptWords, StoredPosition;
    var items := Items(argv);
    CommandLineItems(argv);
    AroundInput(items, k);
    FileInPlaceIff(program, CompilerArgs(items), |CompilerArgs(items[..k])|, cxx, so);
  }

  /** The run-time library's copying stays inside its arrays exactly when no more build-only words follow than that. */
  lemma FillInBoundsIff(program: string, argv: seq<string>, k: nat)
    requires k < |Items(argv)| && Items(argv)[k].File?
    ensures var items := Items(argv);
      0 <= StoredFor(items, k) <= |KeptWords(program, CompilerArgs(items))| <==>
      BuildOnlyCount(items[k + 1..]) <= 1 + |COMMON_OPTS| + |RuntimeLine(items[..k])|
  {
    hide Items, RuntimeWords, BuildOnly, NoBuildOnly, KeptWords, StoredPosition;
    var items := Items(argv);
    CommandLineItems(argv);
    AroundInput(items, k);
    StoredInBoundsIff(program, CompilerArgs(items), |CompilerArgs(items[..k])|);
  }

  // ---------- command lines that go wrong

  lemma {:induction false} IncludesOnly(files: seq<string>)
    ensures RuntimeWords(CompilerArgs(IncludeItems(files))) == []
    ensures BuildOnly(CompilerArgs(IncludeItems(files))) == 2 * |files|
  {
    var items := IncludeItems(files);
    if files != [] {
      var before, last := files[..|files| - 1], IncludeItem(files[|files| - 1]);
      IncludesOnly(before);
      assert items[..|items| - 1] == IncludeItems(before);
      assert CompilerArgs(items) == CompilerArgs(IncludeItems(before)) + ForwardedBy(last);
      hide CompilerArgs, RuntimeWords, BuildOnly, IncludeItems;
      RuntimeWordsConcat(CompilerArgs(IncludeItems(before)), ForwardedBy(last));
      AllMarked(last.words, false);
    }
  }

  /** What is kept and stored for an input file with nothing but `-include` options after it. */
  lemma FileThenIncludes(program: string, file: string, files: seq<string>)
    ensures var line := [File(file)] + IncludeItems(files);
      && KeptWords(program, CompilerArgs(line)) == [program] + COMMON_OPTS
      && StoredFor(line, 0) == 1 + |COMMON_OPTS| - 2 * |files|
      && RuntimeLine(line[..0]) == RuntimeLine(line[1..]) == []
  {
    var items := IncludeItems(files);
    FileForwardsNothing(file, items);
    IncludesOnly(files);
    RuntimeLineIsKept(items);
    hide CompilerArgs, RuntimeWords, BuildOnly, IncludeItems;
  }

  lemma FileForwardsNothing(file: string, items: seq<Item>)
    ensures var line := [File(file)] + items;
      && line[..0] == [] && line[1..] == items
      && CompilerArgs(line) == CompilerArgs(items) && CompilerArgs(line[..0]) == []
      && RuntimeLine(line[..0]) == []
  {
    var line := [File(file)] + items;
    assert line[1..] == items && line[..0] == [];
    ArgsAround(line, 0);
    assert CompilerArgs([]) == [] && RuntimeLine([]) == [];
    hide CompilerArgs, RuntimeLine;
    assert [] + CompilerArgs(items) == CompilerArgs(items);
  }

  lemma MisplacedItems()
    ensures Items(["x.cpp", "-include", "a.h"]) == [File("x.cpp")] + IncludeItems(["a.h"])
  {
    FileThenIncludeItems("x.cpp", ["a.h"]);
    hide FirstItem, Items, IncludeItems;
    assert ["a.h"][1..] == [];
    assert IncludeWords(["a.h"]) == [Options.INCLUDE, "a.h"] + IncludeWords([]);
    assert ["x.cpp"] + IncludeWords(["a.h"]) == ["x.cpp", "-include", "a.h"];
  }

  /** With one `-include` after the input, the run-time compiler gets the file among its own options. */
  lemma MisplacedExample(program: string, cxx: string, so: string)
    ensures var items := Items(["x.cpp", "-include", "a.h"]);
      && items == [File("x.cpp")] + IncludeItems(["a.h"])
      && StoredFor(items, 0) == 3
      && RuntimeVector(KeptWords(program, CompilerArgs(items)), 3, cxx, so)
         == [program, "-shared", "-fPIC", cxx, "-fvisibility=hidden", "-O3", "-o", so]
      && MeantVector(program, items, 0, cxx, so)
         == [program, "-shared", "-fPIC", "-fvisibility=hidden", "-O3", cxx, "-o", so]
  {
    MisplacedItems();
    FileThenIncludes(program, "x.cpp", ["a.h"]);
    hide Items, CompilerArgs, KeptWords, StoredFor, RuntimeLine, IncludeItems;
  }

  lemma OutOfBoundsItems()
    ensures Items(["x.cpp", "-include", "a", "-include", "b", "-include", "c"])
      == [File("x.cpp")] + IncludeItems(["a", "b", "c"])
  {
    FileThenIncludeItems("x.cpp", ["a", "b", "c"]);
    hide FirstItem, Items, IncludeItems;
    var i := Options.INCLUDE;
    assert ["a", "b", "c"][1..] == ["b", "c"] && ["b", "c"][1..] == ["c"] && ["c"][1..] == [];
    assert IncludeWords(["c"]) == [i, "c"] + IncludeWords([]) == [i, "c"];
    assert IncludeWords(["b", "c"]) == [i, "b"] + IncludeWords(["c"]) == [i, "b", i, "c"];
    assert IncludeWords(["a", "b", "c"]) == [i, "a"] + IncludeWords(["b", "c"]) == [i, "a", i, "b", i, "c"];
    hide IncludeWords;
    assert ["x.cpp"] + [i, "a", i, "b", i, "c"] == ["x.cpp", "-include", "a", "-include", "b", "-include", "c"];
  }

  /** With three of them the stored position is negative, and the copying leaves its arrays. */
  lemma OutOfBoundsExample(program: string) returns (argv: seq<string>)
    ensures argv == ["x.cpp", "-include", "a", "-include", "b", "-include", "c"]
    ensures Items(argv) == [File("x.cpp")] + IncludeItems(["a", "b", "c"])
    ensures StoredFor(Items(argv), 0) == -1
    ensures ToSize(StoredFor(Items(argv), 0)) > |KeptWords(program, CompilerArgs(Items(argv)))| + 4
  {
    argv := ["x.cpp", "-include", "a", "-include", "b", "-include", "c"];
    OutOfBoundsItems();
    FileThenIncludes(program, "x.cpp", ["a", "b", "c"]);
    hide Items, CompilerArgs, KeptWords, StoredFor, RuntimeLine, IncludeItems;
  }

  // ---------- through the generated C file

  lemma CommonAreArgs(i: nat)
    requires i < |COMMON_OPTS|
    ensures GenArgs.IsArg(COMMON_OPTS[i])
  {
  }

  /** The options that every compiler run gets survive. */
  lemma CommonSurvive()
    ensures (forall i :: 0 <= i < |COMMON_OPTS| ==> GenArgs.IsArg(COMMON_OPTS[i]))
    ensures GenArgs.Decoded(COMMON_OPTS) == Some(COMMON_OPTS)
  {
    forall i, j | 0 <= i < |COMMON_OPTS| && 0 <= j < |COMMON_OPTS[i]|
      ensures 32 <= COMMON_OPTS[i][j] as int <= 126
    {
    }
    hide COMMON_OPTS;
    GenArgs.PrintableSurvive(COMMON_OPTS);
  }

  lemma KeptAreArgs(program: string, argv: seq<string>)
    requires GenArgs.IsArg(program) && forall i :: 0 <= i < |argv| ==> GenArgs.IsArg(argv[i])
    ensures var kept := KeptWords(program, CompilerArgs(Items(argv)));
      forall i :: 0 <= i < |kept| ==> GenArgs.IsArg(kept[i])
  {
    hide Items, GenArgs.IsArg, RuntimeWords, CompilerArgs, COMMON_OPTS;
    var args := CompilerArgs(Items(argv));
    var kept := KeptWords(program, args);
    forall i | 0 <= i < |kept|
      ensures GenArgs.IsArg(kept[i])
    {
      if 0 < i <= |COMMON_OPTS| {
        CommonAreArgs(i - 1);
      } else if i > 0 {
        var arg := KeptIsForwarded(args, i - 1 - |COMMON_OPTS|);
        ForwardedInLine(argv, arg);
      }
    }
  }

  lemma {:induction false} KeptIsForwarded(args: seq<CompilerArg>, i: nat) returns (arg: CompilerArg)
    requires i < |RuntimeWords(args)|
    ensures arg in args && arg.arg == RuntimeWords(args)[i]
  {
    var before, last := args[..|args| - 1], args[|args| - 1];
    if i < |RuntimeWords(before)| {
      arg := KeptIsForwarded(before, i);
    } else {
      arg := last;
    }
  }

  /**
   From the command line through the generated C file: the arguments that the C compiler reads back,
   with the file at the stored position, are the vector meant exactly when every word kept survives its
   escaping and no build-only option stands after the input.
   */
  lemma GeneratedVectorIff(program: string, argv: seq<string>, k: nat, cxx: string, so: string)
    requires k < |Items(argv)| && Items(argv)[k].File?
    requires GenArgs.IsArg(program) && forall i :: 0 <= i < |argv| ==> GenArgs.IsArg(argv[i])
    requires cxx !in KeptWords(program, CompilerArgs(Items(argv)))
    ensures
      var items, kept, stored := Items(argv), KeptWords(program, CompilerArgs(Items(argv))), StoredFor(Items(argv), k);
      && (forall i :: 0 <= i < |kept| ==> GenArgs.IsArg(kept[i]))
      && var read := GenArgs.Decoded(kept);
      && (read.Some? && 0 <= stored <= |read.value|
          && RuntimeVector(read.value, stored, cxx, so) == MeantVector(program, items, k, cxx, so)
          <==>
          && (forall i :: 0 <= i < |kept| ==> GenArgs.IsSafe(kept[i]))
          && NoBuildOnly(items[k + 1..]))
  {
    var items, kept := Items(argv), KeptWords(program, CompilerArgs(Items(argv)));
    var args, pos, stored := CompilerArgs(items), |CompilerArgs(items[..k])|, StoredFor(items, k);
    CommandLineItems(argv);
    AroundInput(items, k);
    KeptAreArgs(program, argv);
    GenArgs.ArgsSurviveIffSafe(kept);
    PositionIsLow(program, args, pos);
    KeptSplit(program, args, pos);
    hide Items, RuntimeWords, BuildOnly, NoBuildOnly, KeptWords, StoredPosition, COMMON_OPTS;
    hide GenArgs.Decoded, GenArgs.IsSafe, GenArgs.IsArg;
    var read := GenArgs.Decoded(kept);
    var head, tail := [program] + COMMON_OPTS + RuntimeLine(items[..k]), RuntimeLine(items[k + 1..]);
    if read.Some? && 0 <= stored <= |read.value| {
      InsertedInPlace(read.value, stored, head, cxx, tail, ["-o", so]);
    }
  }

  lemma ArgsAround(items: seq<Item>, k: nat)
    requires k < |items| && items[k].File?
    ensures CompilerArgs(items) == CompilerArgs(items[..k]) + CompilerArgs(items[k + 1..])
  {
    var a, b := items[..k + 1], items[k + 1..];
    assert items == a + b;
    ArgsConcat(a, b);
    assert a[..k] == items[..k] && a[k] == items[k];
    assert CompilerArgs(a) == CompilerArgs(items[..k]) + ForwardedBy(items[k]);
    hide CompilerArgs;
    assert CompilerArgs(items[..k]) + [] == CompilerArgs(items[..k]);
  }
}
