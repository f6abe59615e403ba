/**
 Parsing the command line into forwarded arguments and positioned input files
 (dcc/dcc_options.c, lines 37-103 and 247-302; dcc/dcc.c, lines 166-193).
 */
module ParseArgs {
  import opened Wrappers
  import opened Options

  datatype CompilerArg = CompilerArg(arg: string, alsoRuntime: bool)

  /** An input file and the number of compiler arguments before it. */
  datatype InputFile = InputFile(name: string, pos: nat)

  // ---------- what a command line says

  /** One or two words: an input file, an option with its value, or a word that is an error. */
  datatype Item = File(name: string) | Opt(words: seq<string>, action: Action, value: string) | Bad(word: string)
  {
    function Words(): seq<string> {
      match this
      case File(name) => [name]
      case Opt(words, _, _) => words
      case Bad(word) => [word]
    }
  }

  predicate StartsWith(word: string, c: char) {
    word != [] && word[0] == c
  }

  /** An option that takes its value from the next word. */
  function Separated(argv: seq<string>, action: Action): Item
    requires argv != []
  {
    if |argv| > 1 then Opt(argv[..2], action, argv[1]) else Bad(argv[0])
  }

  function FirstItem(argv: seq<string>): (item: Item)
    requires argv != []
    ensures 1 <= |item.Words()| <= 2 && |item.Words()| <= |argv| && item.Words() == argv[..|item.Words()|]
  {
    var word := argv[0];
    if StartsWith(word, '@') then Bad(word)
    else if StartsWith(word, '-') then
      match Lookup(word)
      case None => Bad(word)
      case Some(m) =>
        var value := word[|m.str|..];
        match m.syntax
        case Immediate => Opt([word], m.action, value)
        case ImmOrSep => if value != "" then Opt([word], m.action, value) else Separated(argv, m.action)
        case Separate => if value != "" then Bad(word) else Separated(argv, m.action)
        case NoArg => if value != "" then Bad(word) else Opt([word], m.action, "")
    else File(word)
  }

  /** What is an input file, and what is an error without a look at the options. */
  lemma WordKinds(argv: seq<string>)
    requires argv != []
    ensures FirstItem(argv).File? <==> argv[0] == "" || argv[0][0] !in "@-"
    ensures argv[0] != "" && argv[0][0] == '@' ==> FirstItem(argv) == Bad(argv[0])
    ensures argv[0] != "" && argv[0][0] == '-' && Lookup(argv[0]) == None ==> FirstItem(argv) == Bad(argv[0])
  {
  }

  /**
   An option is its key with its value, in one word or in two. The value is in the next word exactly if the
   option may have it there, the word is the key alone, and there is a next word; an option that gets a value
   it does not take, or none that it needs, is an error.
   */
  lemma OptionMeans(argv: seq<string>, m: Match)
    requires argv != [] && argv[0] != "" && argv[0][0] == '-' && Lookup(argv[0]) == Some(m)
    ensures var item := FirstItem(argv);
      && (item.Opt? ==> item.action == m.action)
      && (item.Opt? && |item.words| == 1 ==> item.words == [m.str + item.value])
      && (item.Opt? && |item.words| == 2 ==> item.words == [m.str, item.value])
      && (|item.Words()| == 2 <==> m.syntax in {Separate, ImmOrSep} && argv[0] == m.str && |argv| > 1)
      && (item.Bad? <==>
            || (m.syntax in {NoArg, Separate} && argv[0] != m.str)
            || (m.syntax in {Separate, ImmOrSep} && argv[0] == m.str && |argv| == 1))
  {
    assert m.str <= argv[0];
    var value := argv[0][|m.str|..];
    assert m.str + value == argv[0] && (value == "" <==> argv[0] == m.str);
    assert |argv| > 1 ==> argv[..2] == [argv[0], argv[1]];
    hide Lookup;
  }

  predicate Exits(item: Item) {
    item.Opt? && item.action == HelpAndExit
  }

  /** The items of a command line, up to one that ends the program. */
  function Items(argv: seq<string>): seq<Item> {
    if argv == [] then []
    else
      var item := FirstItem(argv);
      [item] + (if Exits(item) then [] else Items(argv[|item.Words()|..]))
  }

  function Flatten(items: seq<Item>): seq<string> {
    if items == [] then [] else items[0].Words() + Flatten(items[1..])
  }

  /** Every word is in exactly one item, in order, unless help was asked for. */
  lemma {:induction false} ItemsCoverWords(argv: seq<string>)
    ensures Flatten(Items(argv)) <= argv
    ensures (forall i :: 0 <= i < |Items(argv)| ==> !Exits(Items(argv)[i])) ==> Flatten(Items(argv)) == argv
    decreases |argv|
  {
    if argv != [] {
      var item := FirstItem(argv);
      var n := |item.Words()|;
      assert argv == argv[..n] + argv[n..];
      if Exits(item) {
        assert Items(argv)[0] == item;
        assert Flatten([item]) == item.Words() + Flatten([]);
      } else {
        ItemsCoverWords(argv[n..]);
        assert Items(argv)[1..] == Items(argv[n..]);
      }
    }
  }

  /** Every item has one or two words, and a file its own name only. */
  lemma {:induction false} ItemsHaveWords(argv: seq<string>, i: nat)
    requires i < |Items(argv)|
    ensures 1 <= |Items(argv)[i].Words()| <= 2
    decreases |argv|
  {
    hide FirstItem;
    var item := FirstItem(argv);
    if i > 0 {
      ItemsHaveWords(argv[|item.Words()|..], i - 1);
    }
  }

  // ---------- what the parser makes of it

  function Marked(words: seq<string>, alsoRuntime: bool): (r: seq<CompilerArg>)
    ensures |r| == |words|
  {
    seq(|words|, i requires 0 <= i < |words| => CompilerArg(words[i], alsoRuntime))
  }

  function ForwardedBy(item: Item): seq<CompilerArg> {
    if !item.Opt? then []
    else
      match item.action
      case Forward => Marked(item.words, true)
      case SetNowarn => Marked(item.words, true)
      case SetVerbose => Marked(item.words, true)
      case ForwardNoRt => Marked(item.words, false)
      case _ => []
  }

  function CompilerArgs(items: seq<Item>): seq<CompilerArg> {
    if items == [] then [] else CompilerArgs(items[..|items| - 1]) + ForwardedBy(items[|items| - 1])
  }

  function Inputs(items: seq<Item>): seq<InputFile> {
    if items == [] then []
    else
      var before, last := items[..|items| - 1], items[|items| - 1];
      Inputs(before) + if last.File? then [InputFile(last.name, |CompilerArgs(before)|)] else []
  }

  /** The settings other than the argument list. */
  datatype Settings = Settings(output: Option<string>, compile: bool, preproc: bool, nowarn: bool, verbose: bool,
                               invalid: bool)

  function Apply(item: Item, s: Settings): Settings {
    match item
    case File(_) => s
    case Bad(_) => s.(invalid := true)
    case Opt(_, action, value) =>
      match action
      case Reject => s.(invalid := true)
      case SetOutput => if s.output.Some? then s.(invalid := true) else s.(output := Some(value))
      case SetCompile => s.(compile := true)
      case SetPreproc => s.(preproc := true)
      case SetNowarn => s.(nowarn := true)
      case SetVerbose => s.(verbose := true)
      case SetLanguage => if value == "c++" then s else s.(invalid := true)
      case _ => s
  }

  function ApplyAll(items: seq<Item>, s: Settings): Settings {
    if items == [] then s else Apply(items[|items| - 1], ApplyAll(items[..|items| - 1], s))
  }

  /** Each word is forwarded at most once, or names at most one input. */
  lemma {:induction false} ArgsFit(items: seq<Item>)
    requires forall i :: 0 <= i < |items| ==> |items[i].Words()| >= 1
    ensures |CompilerArgs(items)| + |Inputs(items)| <= |Flatten(items)|
  {
    if items != [] {
      var before, last := items[..|items| - 1], items[|items| - 1];
      assert items == before + [last];
      ArgsFit(before);
      FlattenSnoc(before, last);
      ForwardedFits(last);
      ItemDone(before, last);
      hide *;
    }
  }

  /** Arrays of as many elements as there are words, with the program name, are large enough for both. */
  lemma CommandLineFits(argv: seq<string>)
    ensures |CompilerArgs(Items(argv))| + |Inputs(Items(argv))| <= |argv|
  {
    forall i | 0 <= i < |Items(argv)|
      ensures |Items(argv)[i].Words()| >= 1
    {
      ItemsHaveWords(argv, i);
    }
    ArgsFit(Items(argv));
    ItemsCoverWords(argv);
  }

  lemma {:induction false} FlattenSnoc(items: seq<Item>, item: Item)
    ensures Flatten(items + [item]) == Flatten(items) + item.Words()
  {
    if items == [] {
      assert [item][1..] == [];
      assert [] + [item] == [item];
    } else {
      assert (items + [item])[1..] == items[1..] + [item];
      FlattenSnoc(items[1..], item);
    }
  }

  // ---------- the parser

  const NO_SETTINGS := Settings(None, false, false, false, false, false)

  /** The configuration with its array of compiler arguments. */
  class Config {
    const compilerArgs: array<CompilerArg>
    var numCompilerArgs: nat
    var settings: Settings

    ghost predicate Valid()
      reads this
    {
      numCompilerArgs <= compilerArgs.Length
    }

    ghost function Args(): seq<CompilerArg>
      requires Valid()
      reads this, compilerArgs
    {
      compilerArgs[..numCompilerArgs]
    }

    constructor (argc: nat)
      ensures Valid() && fresh(compilerArgs) && compilerArgs.Length == argc
      ensures Args() == [] && settings == NO_SETTINGS
    {
      compilerArgs := new CompilerArg[argc](_ => CompilerArg("", false));
      numCompilerArgs := 0;
      settings := NO_SETTINGS;
    }

    method Fwd(arg: string, alsoRuntime: bool)
      requires Valid() && numCompilerArgs < compilerArgs.Length
      modifies this, compilerArgs
      ensures Valid() && Args() == old(Args()) + [CompilerArg(arg, alsoRuntime)]
      ensures settings == old(settings)
    {
      compilerArgs[numCompilerArgs] := CompilerArg(arg, alsoRuntime);
      numCompilerArgs := numCompilerArgs + 1;
    }

    method ForwardWords(words: seq<string>, alsoRuntime: bool)
      requires Valid() && 1 <= |words| <= 2 && numCompilerArgs + |words| <= compilerArgs.Length
      modifies this, compilerArgs
      ensures Valid() && Args() == old(Args()) + Marked(words, alsoRuntime)
      ensures settings == old(settings)
    {
      Fwd(words[0], alsoRuntime);
      if |words| == 2 {
        Fwd(words[1], alsoRuntime);
      }
    }

    /** Carries out an option's action; help, which ends the program, is left to the caller. */
    method Act(words: seq<string>, action: Action, value: string)
      requires Valid() && 1 <= |words| <= 2 && numCompilerArgs + |words| <= compilerArgs.Length
      modifies this, compilerArgs
      ensures Valid() && Args() == old(Args()) + ForwardedBy(Opt(words, action, value))
      ensures settings == Apply(Opt(words, action, value), old(settings))
    {
      assert Args() + [] == Args();
      match action
      case Forward => ForwardWords(words, true);
      case ForwardNoRt => ForwardWords(words, false);
      case Reject => settings := settings.(invalid := true);
      case SetOutput =>
        settings := if settings.output.Some? then settings.(invalid := true) else settings.(output := Some(value));
      case SetCompile => settings := settings.(compile := true);
      case SetPreproc => settings := settings.(preproc := true);
      case SetNowarn =>
        settings := settings.(nowarn := true);
        ForwardWords(words, true);
      case SetVerbose =>
        settings := settings.(verbose := true);
        ForwardWords(words, true);
      case SetLanguage =>
        if value != "c++" {
          settings := settings.(invalid := true);
        }
      case HelpAndExit =>
    }
  }

  /** The state of a parse that has dealt with the given items, in words before index `p`. */
  ghost predicate ParsedTo(config: Config, inputs: array<InputFile>, num: nat, items: seq<Item>, p: nat)
    reads config, config.compilerArgs, inputs
  {
    && config.Valid() && num <= inputs.Length
    && config.Args() == CompilerArgs(items)
    && inputs[..num] == Inputs(items)
    && config.settings == ApplyAll(items, NO_SETTINGS)
    && config.numCompilerArgs + num <= p
  }

  lemma ItemsNext(argv: seq<string>, p: nat, done: seq<Item>)
    requires p < |argv| && done + Items(argv[p..]) == Items(argv)
    ensures var item := FirstItem(argv[p..]);
      var next := p + |item.Words()|;
      && next <= |argv|
      && (Exits(item) ==> Items(argv) == done + [item])
      && (!Exits(item) ==> done + [item] + Items(argv[next..]) == Items(argv))
  {
    hide Items, FirstItem, Exits;
    var item := FirstItem(argv[p..]);
    var more := Items(argv[p + |item.Words()|..]);
    ItemsFirst(argv[p..]);
    assert argv[p..][|item.Words()|..] == argv[p + |item.Words()|..];
    assert done + ([item] + more) == done + [item] + more;
    assert [item] + [] == [item];
  }

  lemma ItemsFirst(argv: seq<string>)
    requires argv != []
    ensures var item := FirstItem(argv);
      Items(argv) == [item] + (if Exits(item) then [] else Items(argv[|item.Words()|..]))
  {
  }

  lemma ItemDone(items: seq<Item>, item: Item)
    ensures CompilerArgs(items + [item]) == CompilerArgs(items) + ForwardedBy(item)
    ensures Inputs(items + [item]) ==
      Inputs(items) + if item.File? then [InputFile(item.name, |CompilerArgs(items)|)] else []
    ensures ApplyAll(items + [item], NO_SETTINGS) == Apply(item, ApplyAll(items, NO_SETTINGS))
  {
    assert (items + [item])[..|items|] == items;
  }

  lemma NothingParsed()
    ensures CompilerArgs([]) == [] && Inputs([]) == [] && ApplyAll([], NO_SETTINGS) == NO_SETTINGS && Items([]) == []
  {
  }

  lemma ForwardedFits(item: Item)
    ensures |ForwardedBy(item)| + (if item.File? then 1 else 0) <= |item.Words()|
  {
  }

  lemma FirstIsFile(argv: seq<string>)
    requires argv != [] && FirstItem(argv).File?
    ensures FirstItem(argv) == File(argv[0])
  {
  }

  /**
   Parses the words after the program name. When it does not end the program, the arrays, which have
   room for as many elements as there are words with the program name, hold what the items say.
   */
  method Parse(argv: seq<string>, config: Config, inputs: array<InputFile>) returns (exited: bool, num: nat)
    requires config.Valid() && config.Args() == [] && config.settings == NO_SETTINGS
    requires config.compilerArgs.Length == inputs.Length == |argv| + 1
    modifies config, config.compilerArgs, inputs
    ensures exited <==> exists i :: 0 <= i < |Items(argv)| && Exits(Items(argv)[i])
    ensures !exited ==> ParsedTo(config, inputs, num, Items(argv), |argv|)
  {
    hide Items, CompilerArgs, Inputs, ApplyAll, FirstItem, ForwardedBy, Apply;
    NothingParsed();
    num := 0;
    var p := 0;
    ghost var done: seq<Item> := [];
    assert argv[0..] == argv && done + Items(argv) == Items(argv);
    while p < |argv|
      invariant p <= |argv| && ParsedTo(config, inputs, num, done, p)
      invariant done + Items(argv[p..]) == Items(argv)
      invariant forall i :: 0 <= i < |done| ==> !Exits(done[i])
    {
      ghost var item := FirstItem(argv[p..]);
      ItemsNext(argv, p, done);
      ItemDone(done, item);
      ForwardedFits(item);
      var count, isFile := 1, false;
      exited, count, isFile := ParseOne(argv, p, config);
      if exited {
        assert Items(argv)[|done|] == item;
        return;
      }
      if isFile {
        FirstIsFile(argv[p..]);
        inputs[num] := InputFile(argv[p], config.numCompilerArgs);
        num := num + 1;
        assert inputs[..num] == Inputs(done) + [InputFile(argv[p], |CompilerArgs(done)|)];
      }
      p := p + count;
      done := done + [item];
    }
    assert argv[p..] == [];
    assert done + [] == done;
    return false, num;
  }

  /** One round of the parser's loop: how many words it takes up, and whether they are an input file. */
  method ParseOne(argv: seq<string>, p: nat, config: Config) returns (exited: bool, count: nat, isFile: bool)
    requires p < |argv| && config.Valid() && config.compilerArgs.Length == |argv| + 1 && config.numCompilerArgs <= p
    modifies config, config.compilerArgs
    ensures config.Valid()
    ensures var item := FirstItem(argv[p..]);
      && exited == Exits(item) && count == |item.Words()| && isFile == item.File?
      && config.Args() == old(config.Args()) + ForwardedBy(item)
      && config.settings == Apply(item, old(config.settings))
  {
    exited, count, isFile := false, 1, false;
    ghost var rest := argv[p..];
    var arg := argv[p];
    assert config.Args() + [] == config.Args();
    if StartsWith(arg, '@') {
      config.settings := config.settings.(invalid := true);
      return;
    }
    if !StartsWith(arg, '-') {
      isFile := true;
      return;
    }
    var key := LookupOpt(arg);
    if key == None {
      config.settings := config.settings.(invalid := true);
      return;
    }
    var value, syntax, action := arg[|key.value.str|..], key.value.syntax, key.value.action;
    if syntax == Immediate || (syntax == ImmOrSep && value != "") {
      exited := action == HelpAndExit;
      config.Act([arg], action, value);
    } else if syntax == NoArg && value == "" {
      exited := action == HelpAndExit;
      config.Act([arg], action, "");
    } else if value != "" {
      config.settings := config.settings.(invalid := true);
    } else if p + 1 < |argv| {
      assert rest[..2] == [arg, argv[p + 1]];
      count := 2;
      exited := action == HelpAndExit;
      config.Act([arg, argv[p + 1]], action, argv[p + 1]);
    } else {
      config.settings := config.settings.(invalid := true);
    }
  }

  // ---------- what the settings say about the command line

  predicate Does(items: seq<Item>, i: int, action: Action) {
    0 <= i < |items| && items[i].Opt? && items[i].action == action
  }

  /** What makes a command line invalid. */
  predicate Refused(items: seq<Item>, i: int) {
    && 0 <= i < |items|
    && (|| items[i].Bad?
        || Does(items, i, Reject)
        || (Does(items, i, SetLanguage) && items[i].value != "c++")
        || (Does(items, i, SetOutput) && exists j :: 0 <= j < i && Does(items, j, SetOutput)))
  }

  lemma DoesLast(items: seq<Item>, action: Action)
    requires items != []
    ensures var n := |items| - 1;
      (exists i :: Does(items, i, action)) <==> (exists i :: Does(items[..n], i, action)) || Does(items, n, action)
  {
    var n := |items| - 1;
    forall i
      ensures Does(items, i, action) <==> Does(items[..n], i, action) || (i == n && Does(items, n, action))
    {
    }
    if exists i :: Does(items[..n], i, action) {
      var i :| Does(items[..n], i, action);
      assert Does(items, i, action);
    }
  }

  lemma RefusedLast(items: seq<Item>)
    requires items != []
    ensures var n := |items| - 1;
      (exists i :: Refused(items, i)) <==> (exists i :: Refused(items[..n], i)) || Refused(items, n)
  {
    var n := |items| - 1;
    forall i | 0 <= i < n
      ensures Refused(items, i) <==> Refused(items[..n], i)
    {
      assert forall j, a :: j < n ==> (Does(items, j, a) <==> Does(items[..n], j, a));
    }
    if exists i :: Refused(items[..n], i) {
      var i :| Refused(items[..n], i);
      assert Refused(items, i);
    }
  }

  /** A setting is made exactly if an option makes it. */
  lemma {:induction false} FlagsMean(items: seq<Item>)
    ensures var s := ApplyAll(items, NO_SETTINGS);
      && (s.compile <==> exists i :: Does(items, i, SetCompile))
      && (s.preproc <==> exists i :: Does(items, i, SetPreproc))
      && (s.nowarn <==> exists i :: Does(items, i, SetNowarn))
      && (s.verbose <==> exists i :: Does(items, i, SetVerbose))
  {
    if items != [] {
      var n := |items| - 1;
      FlagsMean(items[..n]);
      DoesLast(items, SetCompile);
      DoesLast(items, SetPreproc);
      DoesLast(items, SetNowarn);
      DoesLast(items, SetVerbose);
      assert forall a :: Does(items, n, a) <==> items[n].Opt? && items[n].action == a;
      hide Does;
    }
  }

  /** The output is that of the first `-o`. */
  lemma {:induction false} OutputMeans(items: seq<Item>)
    ensures var s := ApplyAll(items, NO_SETTINGS);
      && (s.output == None <==> !exists i :: Does(items, i, SetOutput))
      && (forall i :: Does(items, i, SetOutput) && (forall j :: j < i ==> !Does(items, j, SetOutput)) ==>
            s.output == Some(items[i].value))
  {
    if items != [] {
      var n := |items| - 1;
      OutputMeans(items[..n]);
      DoesLast(items, SetOutput);
      assert forall j :: j < n ==> (Does(items, j, SetOutput) <==> Does(items[..n], j, SetOutput));
      assert Does(items, n, SetOutput) <==> items[n].Opt? && items[n].action == SetOutput;
      assert forall j :: Does(items, j, SetOutput) ==> j <= n;
      hide Does;
    }
  }

  /** The command line is invalid exactly if a word is refused or a second output is named. */
  lemma {:induction false} InvalidMeans(items: seq<Item>)
    ensures ApplyAll(items, NO_SETTINGS).invalid <==> exists i :: Refused(items, i)
  {
    if items != [] {
      var n := |items| - 1;
      var before, last := items[..n], items[n];
      InvalidMeans(before);
      OutputMeans(before);
      RefusedLast(items);
      RefusedIff(items);
      hide Refused;
    }
  }

  lemma RefusedIff(items: seq<Item>)
    requires items != []
    ensures var n := |items| - 1;
      Refused(items, n) <==>
        || items[n].Bad?
        || (items[n].Opt? && items[n].action == Reject)
        || (items[n].Opt? && items[n].action == SetLanguage && items[n].value != "c++")
        || (items[n].Opt? && items[n].action == SetOutput && exists i :: Does(items[..n], i, SetOutput))
  {
    var n := |items| - 1;
    assert forall j :: j < n ==> (Does(items, j, SetOutput) <==> Does(items[..n], j, SetOutput));
  }

  // ---------- every forwarded word is a word of the command line

  lemma {:induction false} ForwardedInFlat(items: seq<Item>, arg: CompilerArg)
    requires arg in CompilerArgs(items)
    ensures arg.arg in Flatten(items)
  {
    var before, last := items[..|items| - 1], items[|items| - 1];
    FlattenSnoc(before, last);
    assert items == before + [last];
    if arg in CompilerArgs(before) {
      ForwardedInFlat(before, arg);
    } else {
      assert arg in ForwardedBy(last);
    }
  }

  lemma ForwardedInLine(argv: seq<string>, arg: CompilerArg)
    requires arg in CompilerArgs(Items(argv))
    ensures arg.arg in argv
  {
    ForwardedInFlat(Items(argv), arg);
    ItemsCoverWords(argv);
  }

  // ---------- a build-only option

  /** `-include` and the word after it. */
  function IncludeItem(file: string): Item {
    Opt([INCLUDE, file], ForwardNoRt, file)
  }

  function IncludeItems(files: seq<string>): seq<Item> {
    seq(|files|, i requires 0 <= i < |files| => IncludeItem(files[i]))
  }

  lemma IncludeFirst(file: string, rest: seq<string>)
    ensures Items([INCLUDE, file] + rest) == [IncludeItem(file)] + Items(rest)
  {
    var argv := [INCLUDE, file] + rest;
    FirstIsInclude(argv);
    ItemsFirst(argv);
    hide FirstItem, Items, INCLUDE;
    assert argv[..2] == [INCLUDE, file] && argv[2..] == rest;
  }

  lemma FirstIsInclude(argv: seq<string>)
    requires |argv| > 1 && argv[0] == INCLUDE
    ensures FirstItem(argv) == Opt(argv[..2], ForwardNoRt, argv[1])
  {
    assert StartsWith(INCLUDE, '-') && !StartsWith(INCLUDE, '@');
    IncludeIsBuildOnly();
    hide Lookup, INCLUDE, StartsWith;
    assert INCLUDE[|INCLUDE|..] == "";
  }

  function IncludeWords(files: seq<string>): seq<string> {
    if files == [] then [] else [INCLUDE, files[0]] + IncludeWords(files[1..])
  }

  lemma {:induction false} ItemsOfIncludes(files: seq<string>)
    ensures Items(IncludeWords(files)) == IncludeItems(files)
  {
    hide FirstItem, IncludeItem, IncludeItems;
    IncludeItemsStep(files);
    if files != [] {
      IncludeFirst(files[0], IncludeWords(files[1..]));
      ItemsOfIncludes(files[1..]);
      hide Items;
    }
  }

  lemma IncludeItemsStep(files: seq<string>)
    ensures IncludeItems(files) ==
      if files == [] then [] else [IncludeItem(files[0])] + IncludeItems(files[1..])
  {
  }

  /** The items of a command line with one input file and `-include` options after it. */
  lemma FileThenIncludeItems(file: string, files: seq<string>)
    requires !StartsWith(file, '-') && !StartsWith(file, '@')
    ensures Items([file] + IncludeWords(files)) == [File(file)] + IncludeItems(files)
  {
    ItemsOfIncludes(files);
    assert ([file] + IncludeWords(files))[1..] == IncludeWords(files);
  }

  // ---------- where an input file stands

  /** The forwarded words and one input, in the order of the command line. */
  function InOrder(items: seq<Item>, k: nat): seq<string> {
    if items == [] then []
    else
      InOrder(items[..|items| - 1], k) + (if |items| - 1 == k then items[k].Words() else Passed(items[|items| - 1]))
  }

  /** The words of an option that any compiler gets, as they stand on the command line. */
  function Passed(item: Item): seq<string> {
    if item.Opt? && item.action in {Forward, ForwardNoRt, SetNowarn, SetVerbose} then item.Words() else []
  }

  lemma PassedWords(item: Item)
    ensures Strings(ForwardedBy(item)) == Passed(item)
  {
  }

  function Strings(args: seq<CompilerArg>): (r: seq<string>)
    ensures |r| == |args|
  {
    seq(|args|, i requires 0 <= i < |args| => args[i].arg)
  }

  lemma StringsConcat(a: seq<CompilerArg>, b: seq<CompilerArg>)
    ensures Strings(a + b) == Strings(a) + Strings(b)
  {
  }

  lemma {:induction false} ArgsGrow(items: seq<Item>, k: nat)
    requires k <= |items|
    ensures CompilerArgs(items[..k]) <= CompilerArgs(items)
  {
    if k == |items| {
      assert items[..k] == items;
    } else {
      ArgsGrow(items[..|items| - 1], k);
      assert items[..|items| - 1][..k] == items[..k];
    }
  }

  lemma {:induction false} InOrderBefore(items: seq<Item>, k: nat)
    requires k >= |items|
    ensures InOrder(items, k) == Strings(CompilerArgs(items))
  {
    if items != [] {
      InOrderBefore(items[..|items| - 1], k);
      PassedWords(items[|items| - 1]);
      hide ForwardedBy, Passed, Strings;
      StringsConcat(CompilerArgs(items[..|items| - 1]), ForwardedBy(items[|items| - 1]));
    }
  }

  /** An input file put at its position among the compiler arguments. */
  function WithFile(args: seq<CompilerArg>, pos: nat, name: string): seq<string>
    requires pos <= |args|
  {
    Strings(args[..pos]) + [name] + Strings(args[pos..])
  }

  lemma WithFileAppend(a: seq<CompilerArg>, b: seq<CompilerArg>, pos: nat, name: string)
    requires pos <= |a|
    ensures WithFile(a + b, pos, name) == WithFile(a, pos, name) + Strings(b)
  {
    assert (a + b)[..pos] == a[..pos] && (a + b)[pos..] == a[pos..] + b;
    StringsConcat(a[pos..], b);
  }

  lemma WithFileLast(a: seq<CompilerArg>, name: string)
    ensures WithFile(a, |a|, name) == Strings(a) + [name]
  {
    assert a[..|a|] == a && Strings(a[|a|..]) == [];
  }

  /**
   Putting an input file at its position among the compiler arguments gives all forwarded words and
   that file in the order of the command line; no option is parted from its value.
   */
  lemma {:induction false} FilePositionKeepsOrder(items: seq<Item>, k: nat)
    requires k < |items| && items[k].File?
    ensures
      var args, pos := CompilerArgs(items), |CompilerArgs(items[..k])|;
      && pos <= |args|
      && InputFile(items[k].name, pos) in Inputs(items)
      && WithFile(args, pos, items[k].name) == InOrder(items, k)
    decreases |items|
  {
    hide Strings, WithFile;
    var before, last, name := items[..|items| - 1], items[|items| - 1], items[k].name;
    var pos := |CompilerArgs(items[..k])|;
    ArgsGrow(items, k);
    if k == |items| - 1 {
      InOrderBefore(before, k);
      WithFileLast(CompilerArgs(before), name);
      assert CompilerArgs(before) + [] == CompilerArgs(before);
      assert Inputs(items)[|Inputs(before)|] == InputFile(name, pos);
    } else {
      assert before[..k] == items[..k];
      PassedWords(last);
      hide ForwardedBy, Passed;
      FilePositionKeepsOrder(before, k);
      WithFileAppend(CompilerArgs(before), ForwardedBy(last), pos, name);
    }
  }
}
