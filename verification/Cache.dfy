/**
 The specialisation cache: a call runs memoised code, or compiles it first
 (runtime/call.cpp, lines 80-134; runtime/io.c, lines 131-155 and 220-249).
 */
module Cache {
  import opened Wrappers
  import opened Exprs
  import opened Equality
  import opened Keys
  import opened TmpNames

  /** What the environment does with each step of one call. */
  datatype Env = Env(inits: bool, opens: bool, writes: bool, closes: bool, compiles: bool, loads: bool, hasSymbol: bool)
  {
    predicate Extracts() { opens && writes && closes }
    predicate AllOk() { inits && Extracts() && compiles && loads && hasSymbol }
  }

  /**
   What the compiler makes of a generated file: the guest file whose header was found at the included
   path, if a complete one was there, and the text after the include line.
   */
  datatype Code = NullCode | Code(header: Option<nat>, body: string)

  datatype Error = LogicError | InitError | ExtractionError | CompilationError | LoadError

  datatype Outcome = Ran(code: Code, params: seq<Any>) | Threw(error: Error) | Aborted

  datatype Entry = Entry(key: Key, code: Code)

  /**
   `names` are the temporary names handed out so far, `headers` the paths stored in the guest files,
   `disk` the guest file whose header each extracted path holds (none after a failed write). `ready` says
   that the temporary directory has been set up, which every compilation tries until it succeeds.
   */
  datatype State = State(names: seq<string>, headers: map<nat, string>, disk: map<string, Option<nat>>,
                         entries: seq<Entry>, ready: bool)

  /** The fixed surroundings of a process: addresses and the temporary directory. */
  datatype Setting = Setting(layout: Layout, prefix: string)

  // ---------- one call as a step

  predicate HasName(st: State) {
    |st.names| + 1 < NAME_LIMIT
  }

  function NextName(s: Setting, st: State, ext: string): string {
    BareName(s.prefix, |st.names|) + ext
  }

  function Issue(s: Setting, st: State, ext: string): State {
    st.(names := st.names + [NextName(s, st, ext)])
  }

  datatype Extraction = Header(path: string) | NotExtracted | OutOfNames

  function ExtractStep(s: Setting, st: State, file: nat, env: Env): (State, Extraction) {
    if file in st.headers then (st, Header(st.headers[file]))
    else if !HasName(st) then (st, OutOfNames)
    else
      var path := NextName(s, st, "");
      var st1 := Issue(s, st, ".gch");
      if !env.opens then (st1, NotExtracted)
      else if !env.writes || !env.closes then (st1.(disk := st1.disk[path := None]), NotExtracted)
      else (st1.(disk := st1.disk[path := Some(file)], headers := st1.headers[file := path]), Header(path))
  }

  datatype Compilation = Loaded(code: Code) | Failed(error: Error) | NoName

  function Resolve(disk: map<string, Option<nat>>, path: string): Option<nat> {
    if path in disk then disk[path] else None
  }

  function CompileStep(s: Setting, st: State, key: Key, env: Env): (State, Compilation) {
    if !st.ready && !env.inits then (st, Failed(InitError)) else ReadyStep(s, st.(ready := true), key, env)
  }

  /** The header, then the rest. */
  function ReadyStep(s: Setting, st: State, key: Key, env: Env): (State, Compilation) {
    var (st1, x) := ExtractStep(s, st, key.fn.file, env);
    if x.OutOfNames? then (st1, NoName)
    else if x.NotExtracted? then (st1, Failed(ExtractionError))
    else BuildStep(s, st1, x.path, key, env)
  }

  /** Names for the source and the library, then compiling and loading. */
  function BuildStep(s: Setting, st: State, header: string, key: Key, env: Env): (State, Compilation) {
    if !HasName(st) then (st, NoName)
    else
      var st1 := Issue(s, st, ".cxx");
      if !HasName(st1) then (st1, NoName)
      else
        var st2 := Issue(s, st1, "");
        (st2,
         if !env.compiles then Failed(CompilationError)
         else if !env.loads || !env.hasSymbol then Failed(LoadError)
         else Loaded(Code(Resolve(st2.disk, header), Body(key))))
  }

  /** The index of an entry with an equal key. */
  function Find(entries: seq<Entry>, key: Key, l: Layout): (r: Option<nat>)
    ensures r.Some? ==> r.value < |entries| && KeyEq(entries[r.value].key, key, l)
    ensures r.None? ==> forall i :: 0 <= i < |entries| ==> !KeyEq(entries[i].key, key, l)
  {
    if entries == [] then None
    else if KeyEq(entries[|entries| - 1].key, key, l) then Some(|entries| - 1)
    else Find(entries[..|entries| - 1], key, l)
  }

  function CallStep(s: Setting, st: State, key: Key, env: Env): (State, Outcome) {
    if NumParamsList(key.tmplArgs) > 0 then (st, Threw(LogicError))
    else
      var params := ParamsList(key.callArgs);
      var at := Find(st.entries, key, s.layout);
      if at.Some? then (st, Ran(st.entries[at.value].code, params))
      else
        var (st1, c) := CompileStep(s, st, key, env);
        match c
        case Loaded(code) => (st1.(entries := st1.entries + [Entry(key, code)]), Ran(code, params))
        case Failed(error) => (st1, Threw(error))
        case NoName => (st1, Aborted)
  }

  // ---------- what a runtime without a cache would do

  /** The code that a fresh compilation of this very call yields. */
  function FreshCode(key: Key): Code {
    Code(Some(key.fn.file), Body(key))
  }

  function Fresh(key: Key): Outcome {
    if NumParamsList(key.tmplArgs) > 0 then Threw(LogicError)
    else Ran(FreshCode(key), ParamsList(key.callArgs))
  }

  /** The errors that a failing environment may cause. */
  predicate EnvError(error: Error, env: Env) {
    match error
    case LogicError => false
    case InitError => !env.inits
    case ExtractionError => !env.Extracts()
    case CompilationError => !env.compiles
    case LoadError => !env.loads || !env.hasSymbol
  }

  /** As fresh; or an error of the environment; or the process ran out of names and aborted. */
  predicate Agrees(o: Outcome, key: Key, env: Env) {
    o == Fresh(key) || (o.Threw? && EnvError(o.error, env)) || o == Aborted
  }

  // ---------- invariant

  predicate IsExt(ext: string) {
    ext == ".gch" || ext == ".cxx" || ext == ""
  }

  ghost predicate NamesInv(s: Setting, names: seq<string>) {
    && IsPrefix(s.prefix)
    && |names| < NAME_LIMIT
    && forall i :: 0 <= i < |names| ==> IsNameNumber(s, names[i], i)
  }

  ghost predicate IsNameNumber(s: Setting, name: string, n: nat) {
    exists ext :: IsExt(ext) && name == BareName(s.prefix, n) + ext
  }

  ghost predicate WasIssued(s: Setting, path: string, count: nat) {
    exists n: nat :: n < count && path == BareName(s.prefix, n)
  }

  ghost predicate DiskInv(s: Setting, headers: map<nat, string>, disk: map<string, Option<nat>>, count: nat) {
    && (forall p :: p in disk ==> WasIssued(s, p, count))
    && (forall f :: f in headers ==> headers[f] in disk && disk[headers[f]] == Some(f))
    && (forall p :: p in disk && disk[p].Some? ==> disk[p].value in headers && headers[disk[p].value] == p)
  }

  ghost predicate EntryInv(e: Entry) {
    PublicKey(e.key) && NumParamsList(e.key.tmplArgs) == 0 && e.code == FreshCode(e.key)
  }

  ghost predicate EntriesInv(s: Setting, entries: seq<Entry>) {
    && (forall i :: 0 <= i < |entries| ==> EntryInv(entries[i]))
    && (forall i, j :: 0 <= i < j < |entries| ==> !KeyEq(entries[i].key, entries[j].key, s.layout))
  }

  ghost predicate Inv(s: Setting, st: State) {
    && NamesInv(s, st.names)
    && DiskInv(s, st.headers, st.disk, |st.names|)
    && EntriesInv(s, st.entries)
  }

  /** Nothing is lost: names, stored paths and entries only grow. */
  ghost predicate Extends(st: State, st': State) {
    && (st.ready ==> st'.ready)
    && st.names <= st'.names
    && st.entries <= st'.entries
    && (forall f :: f in st.headers ==> f in st'.headers && st'.headers[f] == st.headers[f])
    && (forall p :: p in st.disk ==> p in st'.disk && st'.disk[p] == st.disk[p])
  }

  lemma IssueKeepsInv(s: Setting, st: State, ext: string)
    requires Inv(s, st) && HasName(st) && IsExt(ext)
    ensures Inv(s, Issue(s, st, ext)) && Extends(st, Issue(s, st, ext))
  {
    hide BareName, KeyEq, PublicKey, Body, NAME_LIMIT;
    var st' := Issue(s, st, ext);
    forall p | p in st'.disk
      ensures WasIssued(s, p, |st'.names|)
    {
      var n: nat :| n < |st.names| && p == BareName(s.prefix, n);
    }
    forall i | 0 <= i < |st'.names|
      ensures IsNameNumber(s, st'.names[i], i)
    {
      if i < |st.names| {
        assert st'.names[i] == st.names[i];
      } else {
        assert st'.names[i] == BareName(s.prefix, i) + ext;
      }
    }
  }

  /** A path that is about to be issued holds nothing yet. */
  lemma NextPathIsNew(s: Setting, st: State)
    requires Inv(s, st)
    ensures NextName(s, st, "") !in st.disk
  {
    var path := NextName(s, st, "");
    if path in st.disk {
      var n: nat :| n < |st.names| && path == BareName(s.prefix, n);
      assert BareName(s.prefix, n) + "" == BareName(s.prefix, n);
      NamesDistinct(s.prefix, n, |st.names|, "", "");
    }
  }

  lemma ExtractKeepsInv(s: Setting, st: State, file: nat, env: Env)
    requires Inv(s, st)
    ensures
      var (st', x) := ExtractStep(s, st, file, env);
      && Inv(s, st') && Extends(st, st') && st'.entries == st.entries
      && (x.Header? ==> x.path in st'.disk && st'.disk[x.path] == Some(file))
      && (x.NotExtracted? ==> !env.Extracts())
  {
    hide Inv, Extends, Issue, NextName;
    ExtendsReflexive(st);
    if file in st.headers {
      assert DiskInv(s, st.headers, st.disk, |st.names|) by { InvParts(s, st); }
    } else if HasName(st) {
      var path := NextName(s, st, "");
      NextPathIsNew(s, st);
      IssueKeepsInv(s, st, ".gch");
      var st1 := Issue(s, st, ".gch");
      IssuedPath(s, st);
      if env.opens {
        StoreKeepsInv(s, st1, path, file, env.writes && env.closes);
        ExtendsTransitive(st, st1, if env.writes && env.closes
          then st1.(disk := st1.disk[path := Some(file)], headers := st1.headers[file := path])
          else st1.(disk := st1.disk[path := None]));
      }
    }
  }

  lemma InvParts(s: Setting, st: State)
    requires Inv(s, st)
    ensures NamesInv(s, st.names) && DiskInv(s, st.headers, st.disk, |st.names|) && EntriesInv(s, st.entries)
  {
  }

  lemma IssuedPath(s: Setting, st: State)
    ensures WasIssued(s, NextName(s, st, ""), |Issue(s, st, ".gch").names|)
    ensures Issue(s, st, ".gch").disk == st.disk && Issue(s, st, ".gch").headers == st.headers
    ensures Issue(s, st, ".gch").entries == st.entries
  {
    assert NextName(s, st, "") == BareName(s.prefix, |st.names|);
  }

  /** Writing a header, completely or not, to a path that held nothing. */
  lemma StoreKeepsInv(s: Setting, st: State, path: string, file: nat, complete: bool)
    requires Inv(s, st) && WasIssued(s, path, |st.names|) && path !in st.disk && file !in st.headers
    ensures
      var st' := if complete then st.(disk := st.disk[path := Some(file)], headers := st.headers[file := path])
                 else st.(disk := st.disk[path := None]);
      Inv(s, st') && Extends(st, st')
  {
    hide WasIssued, EntriesInv;
  }

  lemma CompileKeepsInv(s: Setting, st: State, key: Key, env: Env)
    requires Inv(s, st)
    ensures
      var (st', c) := CompileStep(s, st, key, env);
      && Inv(s, st') && Extends(st, st') && st'.entries == st.entries
      && (c.Loaded? ==> c.code == FreshCode(key))
      && (c.Failed? ==> EnvError(c.error, env))
  {
    hide ReadyStep, Extends, FreshCode, NamesInv, DiskInv, EntriesInv;
    var st1 := st.(ready := true);
    SetUpExtends(st);
    if st.ready || env.inits {
      ReadyKeepsInv(s, st1, key, env);
      ExtendsTransitive(st, st1, ReadyStep(s, st1, key, env).0);
    } else {
      ExtendsReflexive(st);
    }
  }

  lemma SetUpExtends(st: State)
    ensures Extends(st, st.(ready := true))
  {
  }

  lemma ReadyKeepsInv(s: Setting, st: State, key: Key, env: Env)
    requires Inv(s, st)
    ensures
      var (st', c) := ReadyStep(s, st, key, env);
      && Inv(s, st') && Extends(st, st') && st'.entries == st.entries
      && (c.Loaded? ==> c.code == FreshCode(key))
      && (c.Failed? ==> EnvError(c.error, env))
  {
    hide BuildStep, ExtractStep, Inv, Extends, Agrees;
    ExtractKeepsInv(s, st, key.fn.file, env);
    var (st1, x) := ExtractStep(s, st, key.fn.file, env);
    if x.Header? {
      BuildKeepsInv(s, st1, x.path, key, env);
      ExtendsTransitive(st, st1, BuildStep(s, st1, x.path, key, env).0);
    }
  }

  lemma BuildKeepsInv(s: Setting, st: State, header: string, key: Key, env: Env)
    requires Inv(s, st)
    requires header in st.disk && st.disk[header] == Some(key.fn.file)
    ensures
      var (st', c) := BuildStep(s, st, header, key, env);
      && Inv(s, st') && Extends(st, st') && st'.entries == st.entries
      && (c.Loaded? ==> c.code == FreshCode(key))
      && (c.Failed? ==> EnvError(c.error, env))
  {
    hide BareName, Inv, Body, NAME_LIMIT;
    if HasName(st) {
      IssueKeepsInv(s, st, ".cxx");
      var st1 := Issue(s, st, ".cxx");
      if HasName(st1) {
        IssueKeepsInv(s, st1, "");
        ExtendsTransitive(st, st1, Issue(s, st1, ""));
      }
    }
  }

  /** A hit runs what a fresh compilation of the call at hand would run. */
  lemma HitIsFresh(s: Setting, st: State, key: Key)
    requires Inv(s, st) && PublicKey(key) && Find(st.entries, key, s.layout).Some?
    ensures st.entries[Find(st.entries, key, s.layout).value].code == FreshCode(key)
    ensures NumParamsList(key.tmplArgs) == 0
  {
    var e := st.entries[Find(st.entries, key, s.layout).value];
    assert EntryInv(e);
    BodyDecidesKey(e.key, key, s.layout);
    KeyEqIsSameShape(e.key, key, s.layout);
    SameShapesIsSameSkeletons(e.key.tmplArgs, key.tmplArgs, 0);
  }

  /** One call keeps the invariant, agrees with fresh compilation and keeps an entry only on success. */
  lemma CallRefinesFresh(s: Setting, st: State, key: Key, env: Env)
    requires Inv(s, st) && PublicKey(key)
    ensures
      var (st', o) := CallStep(s, st, key, env);
      && Inv(s, st') && Extends(st, st')
      && Agrees(o, key, env)
      && (!o.Ran? ==> st'.entries == st.entries)
      && (o.Ran? ==> Find(st'.entries, key, s.layout).Some?)
  {
    hide CompileStep, KeyEq, PublicKey, Body, Inv, Extends, EnvError;
    ExtendsReflexive(st);
    var at := Find(st.entries, key, s.layout);
    if NumParamsList(key.tmplArgs) == 0 {
      if at.Some? {
        HitIsFresh(s, st, key);
      } else {
        CompileKeepsInv(s, st, key, env);
        var (st1, c) := CompileStep(s, st, key, env);
        if c.Loaded? {
          NewEntryKeepsInv(s, st1, key, c.code);
          ExtendsTransitive(st, st1, st1.(entries := st1.entries + [Entry(key, c.code)]));
        }
      }
    }
  }

  lemma NewEntryKeepsInv(s: Setting, st: State, key: Key, code: Code)
    requires Inv(s, st) && PublicKey(key) && NumParamsList(key.tmplArgs) == 0
    requires code == FreshCode(key) && Find(st.entries, key, s.layout).None?
    ensures var st' := st.(entries := st.entries + [Entry(key, code)]);
      Inv(s, st') && Extends(st, st') && Find(st'.entries, key, s.layout).Some?
  {
    hide KeyEq, PublicKey, FreshCode, NAME_LIMIT, BareName;
    var entries := st.entries + [Entry(key, code)];
    KeyEqReflexive(key, s.layout);
    assert entries[|entries| - 1].key == key;
    assert EntryInv(Entry(key, code));
    assert forall i :: 0 <= i < |st.entries| ==> entries[i] == st.entries[i];
    assert EntriesInv(s, entries);
  }

  /** A call aborts only when the names are about to run out, and never fails in a healthy environment. */
  lemma AbortOrFailOnlyWithCause(s: Setting, st: State, key: Key, env: Env)
    requires Inv(s, st) && PublicKey(key)
    ensures var o := CallStep(s, st, key, env).1;
      && (o.Aborted? ==> |st.names| + 3 >= NAME_LIMIT)
      && (env.AllOk() && !o.Aborted? ==> o == Fresh(key))
  {
    hide BareName, KeyEq, PublicKey, Body, NAME_LIMIT, Inv, Extends;
    CallRefinesFresh(s, st, key, env);
    assert |ExtractStep(s, st, key.fn.file, env).0.names| <= |st.names| + 1;
  }

  // ---------- what a call does, from its surroundings alone

  /** The names that a compilation takes before it fails or goes on to the compiler. */
  function NamesTaken(st: State, file: nat, env: Env): nat {
    if file in st.headers then 2
    else if env.opens && env.writes && env.closes then 3
    else 1
  }

  /** The first failure of the environment that a call meets which finds no entry. */
  function FirstFailure(st: State, file: nat, env: Env): Option<Error> {
    if !st.ready && !env.inits then Some(InitError)
    else if file !in st.headers && !(env.opens && env.writes && env.closes) then Some(ExtractionError)
    else if !env.compiles then Some(CompilationError)
    else if !env.loads || !env.hasSymbol then Some(LoadError)
    else None
  }

  /** No entry was found: exactly when the call runs, throws or aborts, and with which error. */
  lemma MissOutcome(s: Setting, st: State, key: Key, env: Env)
    requires Inv(s, st) && NumParamsList(key.tmplArgs) == 0 && Find(st.entries, key, s.layout).None?
    ensures var o := CallStep(s, st, key, env).1;
      var failure := FirstFailure(st, key.fn.file, env);
      if failure == Some(InitError) then o == Threw(InitError)
      else if |st.names| + NamesTaken(st, key.fn.file, env) >= NAME_LIMIT then o == Aborted
      else if failure.Some? then o == Threw(failure.value)
      else o == Ran(FreshCode(key), ParamsList(key.callArgs))
  {
    hide BareName, NAME_LIMIT, Body, Inv, KeyEq, Extends, Find;
    CompileKeepsInv(s, st, key, env);
  }

  /** With names left, a call that finds no entry runs exactly when nothing fails that it needs. */
  lemma MissRunsIff(s: Setting, st: State, key: Key, env: Env)
    requires Inv(s, st) && NumParamsList(key.tmplArgs) == 0 && Find(st.entries, key, s.layout).None?
    requires |st.names| + 3 < NAME_LIMIT
    ensures var o := CallStep(s, st, key, env).1;
      && (o.Ran? <==>
          && (st.ready || env.inits)
          && (key.fn.file in st.headers || (env.opens && env.writes && env.closes))
          && env.compiles && env.loads && env.hasSymbol)
      && (o.Threw? <==> !o.Ran?)
  {
    hide CallStep, Inv, Find, NAME_LIMIT, FreshCode, ParamsList;
    MissOutcome(s, st, key, env);
  }

  /** In any environment, a call with dynamic template arguments throws, and one that finds an entry runs. */
  lemma OtherOutcomes(s: Setting, st: State, key: Key, env: Env)
    requires Inv(s, st) && PublicKey(key)
    ensures NumParamsList(key.tmplArgs) > 0 ==> CallStep(s, st, key, env) == (st, Threw(LogicError))
    ensures NumParamsList(key.tmplArgs) == 0 && Find(st.entries, key, s.layout).Some? ==>
      CallStep(s, st, key, env) == (st, Ran(FreshCode(key), ParamsList(key.callArgs)))
  {
    hide CompileStep, KeyEq, Body, Inv, Find, BareName;
    if Find(st.entries, key, s.layout).Some? {
      HitIsFresh(s, st, key);
    }
  }

  /** A first compilation that succeeds: its three names in order, the stored header, and the new entry. */
  lemma FirstCallState(s: Setting, st: State, key: Key, env: Env)
    requires Inv(s, st) && NumParamsList(key.tmplArgs) == 0 && Find(st.entries, key, s.layout).None?
    requires key.fn.file !in st.headers && env.AllOk() && |st.names| + 3 < NAME_LIMIT
    ensures var st' := CallStep(s, st, key, env).0;
      var n := |st.names|;
      && st'.names == st.names
           + [BareName(s.prefix, n) + ".gch", BareName(s.prefix, n + 1) + ".cxx", BareName(s.prefix, n + 2)]
      && st'.headers == st.headers[key.fn.file := BareName(s.prefix, n)]
      && st'.disk == st.disk[BareName(s.prefix, n) := Some(key.fn.file)]
      && st'.entries == st.entries + [Entry(key, FreshCode(key))] && st'.ready
  {
    hide BareName, NAME_LIMIT, Body, Inv, KeyEq, Extends, Find, ExtractStep, BuildStep;
    var st0 := st.(ready := true);
    CompileKeepsInv(s, st, key, env);
    FirstHeader(s, st0, key.fn.file, env);
    var st1 := ExtractStep(s, st0, key.fn.file, env).0;
    TwoMoreNames(s, st1, BareName(s.prefix, |st.names|), key, env);
    var n := |st.names|;
    var g, c, o := BareName(s.prefix, n), BareName(s.prefix, n + 1), BareName(s.prefix, n + 2);
    assert st.names + [g + ".gch"] + [c + ".cxx", o] == st.names + [g + ".gch", c + ".cxx", o];
  }

  lemma FirstHeader(s: Setting, st: State, file: nat, env: Env)
    requires file !in st.headers && env.Extracts() && |st.names| + 1 < NAME_LIMIT
    ensures var path := BareName(s.prefix, |st.names|);
      ExtractStep(s, st, file, env) == (
        st.(names := st.names + [path + ".gch"], disk := st.disk[path := Some(file)],
            headers := st.headers[file := path]), Header(path))
  {
    hide BareName, NAME_LIMIT;
    assert BareName(s.prefix, |st.names|) + "" == BareName(s.prefix, |st.names|);
  }

  lemma TwoMoreNames(s: Setting, st: State, header: string, key: Key, env: Env)
    requires |st.names| + 2 < NAME_LIMIT && env.compiles && env.loads && env.hasSymbol
    ensures var (st', c) := BuildStep(s, st, header, key, env);
      var n := |st.names|;
      && st' == st.(names := st.names + [BareName(s.prefix, n) + ".cxx", BareName(s.prefix, n + 1)])
      && c == Loaded(Code(Resolve(st.disk, header), Body(key)))
  {
    hide BareName, NAME_LIMIT, Body;
    assert BareName(s.prefix, |st.names| + 1) + "" == BareName(s.prefix, |st.names| + 1);
  }

  lemma KeyEqReflexive(key: Key, l: Layout)
    requires PublicKey(key)
    ensures KeyEq(key, key, l)
  {
    BodyDecidesKey(key, key, l);
  }

  // ---------- runs

  datatype Request = Request(key: Key, env: Env)

  function Final(s: Setting, st: State, reqs: seq<Request>): State
    decreases |reqs|
  {
    if reqs == [] then st
    else
      var (st1, o) := CallStep(s, st, reqs[0].key, reqs[0].env);
      if o.Aborted? then st1 else Final(s, st1, reqs[1..])
  }

  /** The outcomes of a run; an abort ends it. */
  function Outcomes(s: Setting, st: State, reqs: seq<Request>): (os: seq<Outcome>)
    ensures |os| <= |reqs|
    decreases |reqs|
  {
    if reqs == [] then []
    else
      var (st1, o) := CallStep(s, st, reqs[0].key, reqs[0].env);
      [o] + (if o.Aborted? then [] else Outcomes(s, st1, reqs[1..]))
  }

  const INITIAL_STATE := State([], map[], map[], [], false)

  lemma InitialInv(s: Setting)
    requires IsPrefix(s.prefix)
    ensures Inv(s, INITIAL_STATE)
  {
    ZeroCounter(COUNTER_LEN);
  }

  /** Over every run the cached runtime refines the one that always compiles. */
  lemma {:induction false} RunRefinesFresh(s: Setting, st: State, reqs: seq<Request>)
    requires Inv(s, st) && forall i :: 0 <= i < |reqs| ==> PublicKey(reqs[i].key)
    ensures Inv(s, Final(s, st, reqs)) && Extends(st, Final(s, st, reqs))
    ensures var os := Outcomes(s, st, reqs);
      forall i :: 0 <= i < |os| ==> Agrees(os[i], reqs[i].key, reqs[i].env)
    decreases |reqs|
  {
    hide CallStep, PublicKey, Inv, Agrees;
    if reqs != [] {
      CallRefinesFresh(s, st, reqs[0].key, reqs[0].env);
      var (st1, o) := CallStep(s, st, reqs[0].key, reqs[0].env);
      if !o.Aborted? {
        RunRefinesFresh(s, st1, reqs[1..]);
        ExtendsTransitive(st, st1, Final(s, st1, reqs[1..]));
      }
    } else {
      assert Extends(st, st);
    }
  }

  lemma ExtendsReflexive(st: State)
    ensures Extends(st, st)
  {
  }

  lemma ExtendsTransitive(a: State, b: State, c: State)
    requires Extends(a, b) && Extends(b, c)
    ensures Extends(a, c)
  {
  }

  /** Every outcome of a call whose key equals `key` is that of fresh code. */
  ghost predicate RunsFresh(os: seq<Outcome>, reqs: seq<Request>, key: Key, l: Layout) {
    |os| <= |reqs| && forall i :: 0 <= i < |os| && KeyEq(reqs[i].key, key, l) ==> os[i] == Fresh(reqs[i].key)
  }

  /** Once a shape is cached, every later call of that shape runs, whatever the environment does. */
  lemma {:induction false} CachedShapeAlwaysRuns(s: Setting, st: State, key: Key, reqs: seq<Request>)
    requires Inv(s, st) && forall i :: 0 <= i < |reqs| ==> PublicKey(reqs[i].key)
    requires PublicKey(key) && Find(st.entries, key, s.layout).Some?
    ensures RunsFresh(Outcomes(s, st, reqs), reqs, key, s.layout)
    decreases |reqs|
  {
    hide CompileStep, PublicKey, Body, KeyEq, Extends, Inv, CallStep;
    if reqs != [] {
      var now := reqs[0].key;
      if KeyEq(now, key, s.layout) {
        HitStays(s, st, st, key, now);
        HitRuns(s, st, now, reqs[0].env);
      }
      CallRefinesFresh(s, st, now, reqs[0].env);
      var (st1, o) := CallStep(s, st, now, reqs[0].env);
      if !o.Aborted? {
        HitStays(s, st, st1, key, key);
        CachedShapeAlwaysRuns(s, st1, key, reqs[1..]);
      }
    }
  }

  lemma HitRuns(s: Setting, st: State, key: Key, env: Env)
    requires Inv(s, st) && PublicKey(key) && Find(st.entries, key, s.layout).Some?
    ensures CallStep(s, st, key, env) == (st, Fresh(key))
  {
    HitIsFresh(s, st, key);
  }

  /** An entry found for a key is found, in every later state, for every key equal to it. */
  lemma HitStays(s: Setting, st: State, st': State, key: Key, other: Key)
    requires Inv(s, st) && PublicKey(key) && PublicKey(other)
    requires st == st' || Extends(st, st')
    requires key == other || KeyEq(other, key, s.layout)
    requires Find(st.entries, key, s.layout).Some?
    ensures Find(st'.entries, other, s.layout).Some?
  {
    var i := Find(st.entries, key, s.layout).value;
    var e := st.entries[i];
    assert EntryInv(e) && st'.entries[i] == e;
    BodyDecidesKey(e.key, key, s.layout);
    BodyDecidesKey(e.key, other, s.layout);
    if key != other {
      BodyDecidesKey(other, key, s.layout);
    }
  }

  ghost predicate PublicKeys(reqs: seq<Request>) {
    forall i :: 0 <= i < |reqs| ==> PublicKey(reqs[i].key)
  }

  /** All temporary paths of a run are pairwise different. */
  lemma NamesNeverRepeat(s: Setting, reqs: seq<Request>, i: nat, j: nat)
    requires IsPrefix(s.prefix) && PublicKeys(reqs)
    requires i < j < |Final(s, INITIAL_STATE, reqs).names|
    ensures Final(s, INITIAL_STATE, reqs).names[i] != Final(s, INITIAL_STATE, reqs).names[j]
  {
    InitialInv(s);
    RunRefinesFresh(s, INITIAL_STATE, reqs);
    hide Final, DiskInv, EntriesInv, Extends;
    var names := Final(s, INITIAL_STATE, reqs).names;
    assert IsNameNumber(s, names[i], i) && IsNameNumber(s, names[j], j);
    var e :| IsExt(e) && names[i] == BareName(s.prefix, i) + e;
    var f :| IsExt(f) && names[j] == BareName(s.prefix, j) + f;
    NamesDistinct(s.prefix, i, j, e, f);
  }

  /**
   Once a run has extracted a guest file's header, its path never changes however the run goes on, and no
   other path ever holds a complete header of that file.
   */
  lemma HeaderExtractedOnce(s: Setting, reqs: seq<Request>, more: seq<Request>, file: nat)
    requires IsPrefix(s.prefix) && PublicKeys(reqs) && PublicKeys(more)
    requires file in Final(s, INITIAL_STATE, reqs).headers
    ensures
      var st := Final(s, INITIAL_STATE, reqs);
      var st' := Final(s, st, more);
      && file in st'.headers && st'.headers[file] == st.headers[file]
      && forall p :: p in st'.disk && st'.disk[p] == Some(file) <==> p == st.headers[file]
  {
    InitialInv(s);
    RunRefinesFresh(s, INITIAL_STATE, reqs);
    var st := Final(s, INITIAL_STATE, reqs);
    RunRefinesFresh(s, st, more);
    hide Final, NamesInv, EntriesInv, WasIssued;
  }

  // ---------- the process

  class Runtime {
    const layout: Layout
    /** The context, with the directory that setting it up makes; nothing uses it before. */
    const io: IoCtx
    var headers: map<nat, string>
    var disk: map<string, Option<nat>>
    var entries: seq<Entry>
    var ready: bool
    ghost var names: seq<string>

    ghost predicate Valid()
      reads this, io, io.path
    {
      io.Valid() && io.issued == |names| && Inv(Settings(), StateOf())
    }

    ghost function Settings(): Setting
    {
      Setting(layout, io.prefix)
    }

    ghost function StateOf(): State
      reads this
    {
      State(names, headers, disk, entries, ready)
    }

    constructor (l: Layout, dir: string)
      requires IsPrefix(dir)
      ensures Valid() && StateOf() == INITIAL_STATE && Settings() == Setting(l, dir)
    {
      layout := l;
      io := new IoCtx(dir);
      headers, disk, entries, names, ready := map[], map[], [], [], false;
      new;
      InitialInv(Settings());
    }

    method ExtractPrecompiledOrNull(file: nat, env: Env) returns (x: Extraction)
      requires io.Valid() && io.issued == |names|
      modifies this`headers, this`disk, this`names, io.path, io`issued
      ensures (StateOf(), x) == ExtractStep(Settings(), old(StateOf()), file, env)
      ensures !x.OutOfNames? ==> io.Valid() && io.issued == |names|
    {
      hide BareName, NAME_LIMIT;
      if file in headers {
        return Header(headers[file]);
      }
      var path := io.path[..TMP_PATH_LEN];
      assert path + "" == path;
      var ok, fullPath := io.TmpPath(".gch");
      if !ok {
        return OutOfNames;
      }
      names := names + [fullPath];
      if !env.opens {
        return NotExtracted;
      }
      if !env.writes {
        disk := disk[path := None];
        return NotExtracted;
      }
      if !env.closes {
        disk := disk[path := None];
        return NotExtracted;
      }
      disk := disk[path := Some(file)];
      headers := headers[file := path];
      return Header(path);
    }

    method Compile(key: Key, env: Env) returns (c: Compilation)
      requires io.Valid() && io.issued == |names|
      modifies this`headers, this`disk, this`names, this`ready, io.path, io`issued
      ensures (StateOf(), c) == CompileStep(Settings(), old(StateOf()), key, env)
      ensures !c.NoName? ==> io.Valid() && io.issued == |names|
    {
      hide BareName, NAME_LIMIT, Body, ExtractStep;
      if !ready {
        if !env.inits {
          return Failed(InitError);
        }
        ready := true;
      }
      var x := ExtractPrecompiledOrNull(key.fn.file, env);
      if x.NotExtracted? {
        return Failed(ExtractionError);
      }
      if x.OutOfNames? {
        return NoName;
      }
      var ok, cxxName := io.TmpPath(".cxx");
      if !ok {
        return NoName;
      }
      names := names + [cxxName];
      var soName := io.path[..TMP_PATH_LEN];
      assert soName == soName + "";
      ok := io.Inc();
      if !ok {
        return NoName;
      }
      names := names + [soName];
      if !env.compiles {
        return Failed(CompilationError);
      }
      if !env.loads {
        return Failed(LoadError);
      }
      if !env.hasSymbol {
        return Failed(LoadError);
      }
      return Loaded(Code(Resolve(disk, x.path), Body(key)));
    }

    /** A call through the import wrappers. */
    method Invoke(key: Key, env: Env) returns (o: Outcome)
      requires Valid() && PublicKey(key)
      modifies this, io.path, io`issued
      ensures (StateOf(), o) == CallStep(Settings(), old(StateOf()), key, env)
      ensures !o.Aborted? ==> Valid()
      ensures Agrees(o, key, env)
    {
      hide CompileStep, KeyEq, PublicKey, Body, Inv, Extends, Agrees, BareName, NAME_LIMIT;
      hide ParamsList, Find, NumParamsList;
      CallRefinesFresh(Settings(), StateOf(), key, env);
      var numTmpl := SumNumParams(key.tmplArgs);
      if numTmpl > 0 {
        return Threw(LogicError);
      }
      var params := Parameters(key.callArgs);
      var at := Find(entries, key, layout);
      if at.Some? {
        return Ran(entries[at.value].code, params);
      }
      var c := CompileEntry(key, env);
      match c
      case Loaded(code) => return Ran(code, params);
      case Failed(error) => return Threw(error);
      case NoName => return Aborted;
    }

    /** The array of parameters, filled exactly. */
    static method Parameters(callArgs: seq<Expr>) returns (values: seq<Any>)
      ensures values == ParamsList(callArgs)
    {
      var numParams := SumNumParams(callArgs);
      var params := new Any[numParams](_ => Any(0));
      var end := ExtractParamsList(callArgs, params, 0);
      assert end == params.Length && |ParamsList(callArgs)| == numParams;
      values := params[..];
    }

    /** A new entry, which stays only if its code can be loaded. */
    method CompileEntry(key: Key, env: Env) returns (c: Compilation)
      requires io.Valid() && io.issued == |names|
      modifies this, io.path, io`issued
      ensures !c.NoName? ==> io.Valid() && io.issued == |names|
      ensures var (st, result) := CompileStep(Settings(), old(StateOf()), key, env);
        && c == result
        && StateOf() == if c.Loaded? then st.(entries := st.entries + [Entry(key, c.code)]) else st
    {
      hide CompileStep, BareName, NAME_LIMIT;
      ghost var before := entries;
      entries := entries + [Entry(key, NullCode)];
      ghost var placed := entries;
      c := Compile(key, env);
      CompileIgnoresEntries(Settings(), old(StateOf()), placed, key, env);
      if c.Loaded? {
        entries := entries[|entries| - 1 := Entry(key, c.code)];
        assert entries == before + [Entry(key, c.code)];
      } else {
        entries := entries[..|entries| - 1];
        assert entries == before;
      }
    }
  }

  /** A compilation neither reads nor changes the entries. */
  lemma CompileIgnoresEntries(s: Setting, st: State, entries: seq<Entry>, key: Key, env: Env)
    ensures
      var (a, c) := CompileStep(s, st, key, env);
      var (b, d) := CompileStep(s, st.(entries := entries), key, env);
      b == a.(entries := entries) && c == d && a.entries == st.entries
  {
    hide BuildStep, ExtractStep, Body, BareName, NAME_LIMIT;
    var st0 := st.(ready := true);
    assert st0.(entries := entries) == st.(entries := entries).(ready := true);
    ExtractIgnoresEntries(s, st0, entries, key.fn.file, env);
    var (st1, x) := ExtractStep(s, st0, key.fn.file, env);
    if x.Header? {
      BuildIgnoresEntries(s, st1, entries, x.path, key, env);
    }
  }

  lemma ExtractIgnoresEntries(s: Setting, st: State, entries: seq<Entry>, file: nat, env: Env)
    ensures
      var (a, x) := ExtractStep(s, st, file, env);
      var (b, y) := ExtractStep(s, st.(entries := entries), file, env);
      b == a.(entries := entries) && x == y && a.entries == st.entries
  {
    hide BareName, NAME_LIMIT;
  }

  lemma BuildIgnoresEntries(s: Setting, st: State, entries: seq<Entry>, header: string, key: Key, env: Env)
    ensures
      var (a, c) := BuildStep(s, st, header, key, env);
      var (b, d) := BuildStep(s, st.(entries := entries), header, key, env);
      b == a.(entries := entries) && c == d && a.entries == st.entries
  {
    hide BareName, NAME_LIMIT, Body;
  }
}
