/**
 The driver's children and temporary files, with any pattern of failures
 (dcc/dcc_gen.c, lines 206-226, 277-475 and 496-558; dcc/dcc_util.c, lines 37-70).
 */
module Build {
  import opened Wrappers

  /** What a tool that ends does to its output file. */
  datatype Effect = Keep | Write(content: string) | Remove

  /**
   How the outside world answers one step: success or failure, whether a scan that succeeded found any
   exported function, and what a child leaves behind.
   */
  datatype Event = Event(ok: bool, found: bool, effect: Effect)

  const TMP_PCH := "doarr__precompiled"
  const TMP_C := "tmp.c"
  const TMP_O := "tmp.o"
  const ALL_O := "all.o"

  function Reserved(): set<string> {
    {TMP_PCH, TMP_C, TMP_O}
  }

  type Files = map<string, string>

  function Affected(files: Files, name: string, effect: Effect): Files {
    match effect
    case Keep => files
    case Write(content) => files[name := content]
    case Remove => files - {name}
  }

  /** Two directories agree on all but the given names. */
  ghost predicate Same(a: Files, b: Files, except: set<string>) {
    forall n :: n !in except ==> (n in a <==> n in b) && (n in a && n in b ==> a[n] == b[n])
  }

  function NameSet(names: seq<string>): set<string> {
    set n | n in names
  }

  predicate Distinct(names: seq<string>) {
    forall i, j :: 0 <= i < j < |names| ==> names[i] != names[j]
  }

  /** The joint contents of the named files. */
  function Concat(files: Files, names: seq<string>): string
    requires forall n :: n in names ==> n in files
  {
    if names == [] then "" else files[names[0]] + Concat(files, names[1..])
  }

  // ---------- where each object goes

  function LastIndex(s: string, c: char): (r: Option<nat>)
    ensures r.Some? ==> r.value < |s| && s[r.value] == c && c !in s[r.value + 1..]
    ensures r.None? ==> c !in s
  {
    if s == [] then None
    else if s[|s| - 1] == c then Some(|s| - 1)
    else LastIndex(s[..|s| - 1], c)
  }

  /** The part of a path after its last slash. */
  function Basename(path: string): (base: string)
    ensures '/' !in base
    ensures base == path || (|base| < |path| && path[|path| - |base| - 1..] == "/" + base)
  {
    match LastIndex(path, '/')
    case None => path
    case Some(i) => path[i + 1..]
  }

  /** The length of a base name without its extension; a dot at its start begins none. */
  function StemLength(base: string): (n: nat)
    requires base != ""
    ensures 0 < n <= |base|
    ensures n < |base| ==> base[n] == '.' && '.' !in base[n + 1..]
    ensures n == |base| ==> '.' !in base[1..]
  {
    match LastIndex(base[1..], '.')
    case None => |base|
    case Some(i) => i + 1
  }

  /** The object file of an input when no output is given: in the current directory, whatever the input's. */
  function ObjectName(input: string): string
    requires Basename(input) != ""
  {
    var base := Basename(input);
    base[..StemLength(base)] + ".o"
  }

  function ObjectNames(inputs: seq<string>): (dests: seq<string>)
    requires forall i :: 0 <= i < |inputs| ==> Basename(inputs[i]) != ""
    ensures |dests| == |inputs|
  {
    seq(|inputs|, i requires 0 <= i < |inputs| => ObjectName(inputs[i]))
  }

  /** What is at the destinations after each file's contents went to its own, one after the other. */
  function Delivered(files: Files, names: seq<string>, dests: seq<string>, results: Files): Files
    requires |names| == |dests| && forall n :: n in names ==> n in files
  {
    if names == [] then results
    else
      var k := |names| - 1;
      Delivered(files, names[..k], dests[..k], results)[dests[k] := files[names[k]]]
  }

  // ---------- the driver

  /** Temporary names of the outputs: different from each other and from the driver's own. */
  ghost predicate GoodNames(names: seq<string>) {
    Distinct(names) && NameSet(names) !! Reserved() + {ALL_O}
  }

  class Driver {
    /** The answers of the outside world, step by step. */
    const script: nat -> Event
    var step: nat
    /** The temporary directory. */
    var files: Files
    /** The children that have not been waited for. */
    var children: set<nat>
    var nextPid: nat
    /** The names that were to be removed, in order. */
    var attempts: seq<string>
    /** The commands given to tools, in order. */
    var commands: seq<seq<string>>
    /** The files written or renamed outside the temporary directory, and standard output. */
    var results: Files
    var stdout: string
    /** The outputs of all input files, before they are moved out, and the step after each was made. */
    ghost var made: Files
    ghost var doneAt: seq<nat>

    const preproc: bool
    const compile: bool
    const output: Option<string>

    ghost predicate Valid()
      reads this
    {
      (forall p :: p in children ==> p < nextPid) && preproc != compile
    }

    /** No step fails, and every tool writes its output. */
    ghost predicate Healthy() {
      forall i :: script(i).ok && script(i).effect.Write?
    }

    /** Nothing failed from one step to another. */
    ghost predicate AllOk(from: nat, to: nat) {
      forall i :: from <= i < to ==> script(i).ok
    }

    /** Whether the scan of the input whose processing starts at the given step finds an exported function. */
    ghost function Found(start: nat): bool {
      script(start + 3).found
    }

    /** How many steps it takes to process an input, if nothing fails. */
    ghost function StepsTaken(found: bool): nat {
      if preproc then if found then 8 else 6
      else if found then 14 else 8
    }

    /** The temporary files that are removed on the way, in order. */
    ghost function RemovedFiles(found: bool): seq<string> {
      if preproc then ["doarr__precompiled"]
      else if found then ["tmp.c", "tmp.o", "doarr__precompiled"]
      else ["doarr__precompiled", "tmp.c"]
    }

    /** The tools that are run on the way to an object file. */
    ghost function ToolCommands(out: string, found: bool): seq<seq<string>> {
      if preproc then []
      else if !found then [["ld", "-r", "/dev/null", "-o", out]]
      else [["cc", "-c", "-xc", "tmp.c", "-o", "tmp.o"]] + LinkAndStrip(out)
    }

    ghost function LinkAndStrip(out: string): seq<seq<string>> {
      [["ld", "-r", "tmp.o", "-bbinary", "doarr__precompiled", "-o", out, "-znoexecstack"],
       ["objcopy", "-L_binary_doarr__precompiled_start", "-N_binary_doarr__precompiled_end",
        "-N_binary_doarr__precompiled_size", "-g", out]]
    }

    /**
     An object is what the last tool wrote. A C file is what was written last if the scan found an exported
     function and that was stored, and empty otherwise.
     */
    ghost predicate Made(files: Files, out: string, start: nat, done: nat)
      requires done > 0
    {
      var last := script(done - 1).effect;
      if preproc then out in files && files[out] == if Found(start) && last.Write? then last.content else ""
      else last.Write? ==> out in files && files[out] == last.content
    }

    ghost function StartOf(steps: seq<nat>, i: nat, start: nat): nat
      requires i <= |steps|
    {
      if i == 0 then start else steps[i - 1]
    }

    /** One file after the other was made, at the given steps. */
    ghost predicate AllMade(files: Files, names: seq<string>, steps: seq<nat>, start: nat) {
      && |steps| == |names|
      && forall i :: 0 <= i < |steps| ==> OneMade(files, names[i], StartOf(steps, i, start), steps[i])
    }

    ghost predicate OneMade(files: Files, name: string, start: nat, done: nat) {
      done == start + StepsTaken(Found(start)) && Made(files, name, start, done)
    }

    /** The commands of all inputs, one after the other. */
    ghost function AllCommands(names: seq<string>, steps: seq<nat>, start: nat): seq<seq<string>>
      requires |names| <= |steps|
    {
      if names == [] then []
      else
        var i := |names| - 1;
        AllCommands(names[..i], steps, start) + ToolCommands(names[i], Found(StartOf(steps, i, start)))
    }

    constructor (script: nat -> Event, preproc: bool, compile: bool, output: Option<string>)
      requires preproc != compile
      ensures Valid() && files == map[] && children == {} && results == map[] && stdout == "" && commands == []
      ensures this.script == script && this.preproc == preproc && this.compile == compile && this.output == output
    {
      this.script, this.preproc, this.compile, this.output := script, preproc, compile, output;
      step, files, children, nextPid, attempts, results, stdout := 0, map[], {}, 0, [], map[], "";
      made, doneAt, commands := map[], [], [];
    }

    // ---------- single steps

    method Next() returns (e: Event)
      modifies `step
      ensures e == script(old(step)) && step == old(step) + 1
    {
      e := script(step);
      step := step + 1;
    }

    method Succeeds() returns (ok: bool)
      modifies `step
      ensures ok == script(old(step)).ok && step == old(step) + 1
    {
      var e := Next();
      ok := e.ok;
    }

    method Fork() returns (pid: Option<nat>)
      requires Valid()
      modifies `step, `children, `nextPid
      ensures Valid() && step == old(step) + 1
      ensures pid.Some? <==> script(old(step)).ok
      ensures pid.None? ==> children == old(children)
      ensures pid.Some? ==> pid.value !in old(children) && children == old(children) + {pid.value}
    {
      var e := Next();
      if !e.ok {
        return None;
      }
      pid := Some(nextPid);
      children := children + {nextPid};
      nextPid := nextPid + 1;
    }

    /** Waits for a child, once; what it did to its output file is seen from now on. */
    method Wait(pid: nat, out: Option<string>) returns (ok: bool)
      requires Valid() && pid in children
      modifies `step, `children, `files
      ensures Valid() && children == old(children) - {pid}
      ensures ok == script(old(step)).ok && step == old(step) + 1
      ensures files == if out.Some? then Affected(old(files), out.value, script(old(step)).effect) else old(files)
      ensures Same(old(files), files, if out.Some? then {out.value} else {})
    {
      var e := Next();
      children := children - {pid};
      if out.Some? {
        files := Affected(files, out.value, e.effect);
      }
      ok := e.ok;
    }

    /** The same, when only the name of the output matters. */
    method Await(pid: nat, out: Option<string>) returns (ok: bool)
      requires Valid() && pid in children
      modifies `step, `children, `files
      ensures Valid() && children == old(children) - {pid} && step == old(step) + 1
      ensures Same(old(files), files, if out.Some? then {out.value} else {})
      ensures ok == script(old(step)).ok
      ensures Healthy() ==> ok && (out.Some? ==> out.value in files)
    {
      ok := Wait(pid, out);
    }

    /** Runs a tool with the given command, which has the given output. */
    method RunTool(command: seq<string>, out: string) returns (ok: bool)
      requires Valid()
      modifies `step, `children, `nextPid, `files, `commands
      ensures Valid() && children == old(children) && commands == old(commands) + [command] && step >= old(step)
      ensures Same(old(files), files, {out})
      ensures ok ==> files == Affected(old(files), out, script(old(step) + 1).effect) && step == old(step) + 2
      ensures ok <==> script(old(step)).ok && script(old(step) + 1).ok
      ensures Healthy() ==> ok && out in files
    {
      commands := commands + [command];
      var pid := Fork();
      if pid.None? {
        return false;
      }
      ok := Wait(pid.value, Some(out));
    }

    /** Removing fails only for a file that is not there. */
    method Unlink(name: string) returns (ok: bool)
      modifies `files, `attempts
      ensures ok <==> name in old(files)
      ensures files == old(files) - {name} && attempts == old(attempts) + [name]
    {
      ok := name in files;
      files := files - {name};
      attempts := attempts + [name];
    }

    method UnlinkAll(names: seq<string>) returns (ok: bool)
      modifies `files, `attempts
      ensures files == old(files) - NameSet(names) && attempts == old(attempts) + names
      ensures ok ==> NameSet(names) <= old(files).Keys
      ensures Distinct(names) && NameSet(names) <= old(files).Keys ==> ok
    {
      ok := true;
      assert names[..0] == [] && NameSet([]) == {};
      for i := 0 to |names|
        invariant files == old(files) - NameSet(names[..i]) && attempts == old(attempts) + names[..i]
        invariant ok ==> NameSet(names[..i]) <= old(files).Keys
        invariant Distinct(names) && NameSet(names) <= old(files).Keys ==> ok
      {
        Split(names, i);
        assert names[i] in NameSet(names);
        var removed := Unlink(names[i]);
        ok := ok && removed;
      }
      assert names[..|names|] == names;
    }

    /** Mapping a file fails if it is not there, and may fail otherwise. */
    method Map(name: string) returns (data: Option<string>)
      modifies `step
      ensures data.Some? ==> name in files && data.value == files[name]
      ensures (data.Some? <==> script(old(step)).ok && name in files) && step == old(step) + 1
    {
      var e := Next();
      data := if e.ok && name in files then Some(files[name]) else None;
    }

    // ---------- one input file

    method ProcessSingleFile(out: string) returns (ok: bool)
      requires Valid() && out !in Reserved() && out !in files
      requires files.Keys !! Reserved()
      modifies `step, `files, `children, `nextPid, `attempts, `commands
      ensures Valid() && children == old(children)
      ensures files.Keys !! Reserved() && Same(old(files), files, Reserved() + {out})
      ensures !ok ==> files == old(files)
      ensures !ok ==> CleanedUp(attempts, out)
      ensures ok ==> Processed1(files, out, old(step), step, old(attempts), attempts, old(commands), commands)
      ensures step >= old(step)
      ensures Healthy() ==> ok && out in files
    {
      var precompiler, preprocessor: Option<nat>;
      ok, precompiler, preprocessor := TryProcess(out);
      if !ok {
        CleanUp(out, precompiler, preprocessor);
        AllGone(old(files), files, out);
      }
    }

    /** The names that may be there were tried last. */
    ghost predicate CleanedUp(attempts: seq<string>, out: string) {
      |attempts| >= 4 && attempts[|attempts| - 4..] == ["doarr__precompiled", "tmp.c", "tmp.o", out]
    }

    /** What success says of one input: nothing failed, the tools were run, and the output was made. */
    ghost predicate Processed1(files: Files, out: string, start: nat, done: nat, attempts0: seq<string>,
                               attempts: seq<string>, commands0: seq<seq<string>>, commands: seq<seq<string>>)
    {
      && OneMade(files, out, start, done) && AllOk(start, done)
      && attempts == attempts0 + RemovedFiles(Found(start))
      && commands == commands0 + ToolCommands(out, Found(start))
    }

    /** The error exit: waits for the children left and removes whatever may be there. */
    method CleanUp(out: string, precompiler: Option<nat>, preprocessor: Option<nat>)
      requires Valid()
      requires precompiler.Some? ==> precompiler.value in children
      requires preprocessor.Some? ==> preprocessor.value in children
      requires precompiler.Some? && preprocessor.Some? ==> precompiler != preprocessor
      modifies `step, `files, `children, `attempts
      ensures Valid()
      ensures children == old(children)
        - (if precompiler.Some? then {precompiler.value} else {})
        - (if preprocessor.Some? then {preprocessor.value} else {})
      ensures Same(old(files), files, Reserved() + {out}) && files.Keys !! Reserved() + {out}
      ensures CleanedUp(attempts, out) && step >= old(step)
    {
      if preprocessor.Some? {
        var _ := Await(preprocessor.value, None);
      }
      if precompiler.Some? {
        var _ := Await(precompiler.value, Some(TMP_PCH));
      }
      var _ := Unlink(TMP_PCH);
      var _ := Unlink(TMP_C);
      var _ := Unlink(TMP_O);
      var _ := Unlink(out);
    }

    /** The body up to where it succeeds or jumps to its error exit, with the children then left. */
    method TryProcess(out: string) returns (ok: bool, precompiler: Option<nat>, preprocessor: Option<nat>)
      requires Valid() && out !in Reserved() && out !in files
      requires files.Keys !! Reserved()
      modifies `step, `files, `children, `nextPid, `attempts, `commands
      ensures Valid() && Same(old(files), files, Reserved() + {out})
      ensures precompiler.Some? ==> precompiler.value in children && precompiler.value !in old(children)
      ensures preprocessor.Some? ==> preprocessor.value in children && preprocessor.value !in old(children)
      ensures precompiler.Some? && preprocessor.Some? ==> precompiler != preprocessor
      ensures children == old(children)
        + (if precompiler.Some? then {precompiler.value} else {})
        + (if preprocessor.Some? then {preprocessor.value} else {})
      ensures ok ==> precompiler == preprocessor == None
      ensures ok ==> files.Keys !! Reserved()
      ensures ok ==> Processed1(files, out, old(step), step, old(attempts), attempts, old(commands), commands)
      ensures step >= old(step)
      ensures Healthy() ==> ok && out in files
    {
      hide RemovedFiles, ToolCommands, Processed1, Finished;
      ok, precompiler, preprocessor := StartBoth();
      if !ok { return; }
      ok := false;
      var cName := if preproc then out else TMP_C;
      files := files[cName := ""];
      var scan := Next();
      if !scan.ok { return; }
      var haveAnyFunctions := scan.found;
      var good: bool;
      good, precompiler, preprocessor := WaitBoth(precompiler.value, preprocessor.value);
      if !good { return; }
      ghost var waited, attempts1, commands1 := step, attempts, commands;
      ok := Finish(out, cName, haveAnyFunctions);
      if ok {
        Assembled(files, out, old(step), step, attempts1, attempts, commands1, commands);
      }
    }

    /** Starts both compiler runs; the pipe's other end is closed and the stream opened. */
    method StartBoth() returns (ok: bool, precompiler: Option<nat>, preprocessor: Option<nat>)
      requires Valid()
      modifies `step, `children, `nextPid
      ensures Valid() && step >= old(step)
      ensures precompiler.Some? ==> precompiler.value in children && precompiler.value !in old(children)
      ensures preprocessor.Some? ==> preprocessor.value in children && preprocessor.value !in old(children)
      ensures precompiler.Some? && preprocessor.Some? ==> precompiler != preprocessor
      ensures children == old(children)
        + (if precompiler.Some? then {precompiler.value} else {})
        + (if preprocessor.Some? then {preprocessor.value} else {})
      ensures ok ==> precompiler.Some? && preprocessor.Some? && step == old(step) + 3 && AllOk(old(step), step)
      ensures Healthy() ==> ok
    {
      ok, preprocessor := false, None;
      precompiler := Fork();
      if precompiler.None? { return; }
      preprocessor := Fork();
      if preprocessor.None? { return; }
      ok := Succeeds();
    }

    /** Waits for both children in turn, unless the first has failed. */
    method WaitBoth(first: nat, second: nat) returns (ok: bool, precompiler: Option<nat>, preprocessor: Option<nat>)
      requires Valid() && first in children && second in children && first != second
      modifies `step, `files, `children
      ensures Valid() && Same(old(files), files, {TMP_PCH}) && step >= old(step)
      ensures preprocessor == None && (precompiler == None || precompiler == Some(first))
      ensures children == old(children) - {second} - if precompiler == None then {first} else {}
      ensures ok ==> precompiler == None && step == old(step) + 2 && AllOk(old(step), step)
      ensures Healthy() ==> ok && TMP_PCH in files
    {
      precompiler, preprocessor := Some(first), None;
      ok := Await(second, None);
      if !ok { return; }
      ok := Await(first, Some(TMP_PCH));
      precompiler := None;
    }

    lemma Assembled(files: Files, out: string, start: nat, done: nat, attempts0: seq<string>, attempts: seq<string>,
                    commands0: seq<seq<string>>, commands: seq<seq<string>>)
      requires AllOk(start, start + 6)
      requires Finished(files, out, Found(start), start + 6, done, attempts0, attempts, commands0, commands)
      ensures Processed1(files, out, start, done, attempts0, attempts, commands0, commands)
    {
    }

    /** What success says of the part after the scan and the waits. */
    ghost predicate Finished(files: Files, out: string, found: bool, waited: nat, done: nat, attempts0: seq<string>,
                             attempts: seq<string>, commands0: seq<seq<string>>, commands: seq<seq<string>>)
    {
      && done + 6 == waited + StepsTaken(found) && done > 0 && AllOk(waited, done)
      && attempts == attempts0 + RemovedFiles(found)
      && commands == commands0 + ToolCommands(out, found)
      && (if preproc then
            var last := script(done - 1).effect;
            out in files && files[out] == if found && last.Write? then last.content else ""
          else LastToolWrote(files, out, done))
    }

    method Finish(out: string, cName: string, haveAnyFunctions: bool) returns (ok: bool)
      requires Valid() && out !in Reserved() && TMP_O !in files && cName == (if preproc then out else TMP_C)
      requires step > 0 && cName in files && files[cName] == "" && (preproc ==> TMP_C !in files)
      modifies `step, `files, `children, `nextPid, `attempts, `commands
      ensures Valid() && Same(old(files), files, Reserved() + {out}) && children == old(children) && step >= old(step)
      ensures ok ==> files.Keys !! Reserved()
      ensures ok ==> Finished(files, out, haveAnyFunctions, old(step), step, old(attempts), attempts,
                              old(commands), commands)
      ensures Healthy() && TMP_PCH in old(files) ==> ok && out in files
    {
      hide RemovedFiles, ToolCommands, Same;
      if !haveAnyFunctions {
        ok := FinishEmpty(out);
      } else {
        ok := FinishFull(out, cName);
      }
    }

    /** The end of a file without exported functions. */
    method FinishEmpty(out: string) returns (ok: bool)
      requires Valid() && out !in Reserved() && TMP_O !in files && step > 0
      requires preproc ==> out in files && TMP_C !in files
      modifies `step, `files, `children, `nextPid, `attempts, `commands
      ensures Valid() && Same(old(files), files, Reserved() + {out}) && children == old(children) && step >= old(step)
      ensures preproc && ok ==> out in files && files[out] == old(files)[out]
      ensures compile && ok ==> LastToolWrote(files, out, step)
      ensures ok ==> files.Keys !! Reserved()
      ensures ok ==> step == old(step) + (if preproc then 0 else 2) && AllOk(old(step), step)
      ensures ok ==> attempts == old(attempts) + RemovedFiles(false)
      ensures ok ==> commands == old(commands) + ToolCommands(out, false)
      ensures Healthy() && TMP_PCH in old(files) && (preproc || TMP_C in old(files)) ==> ok && out in files
    {
      ok := Unlink(TMP_PCH);
      if !ok || preproc { return; }
      ok := Unlink(TMP_C);
      if !ok { return; }
      ok := RunTool(["ld", "-r", "/dev/null", "-o", out], out);
    }

    ghost predicate LastToolWrote(files: Files, out: string, done: nat) {
      done > 0 &&
      (script(done - 1).effect.Write? ==> out in files && files[out] == script(done - 1).effect.content)
    }

    /** The end of a file with exported functions. */
    method FinishFull(out: string, cName: string) returns (ok: bool)
      requires Valid() && out !in Reserved() && TMP_O !in files && cName == (if preproc then out else TMP_C)
      requires cName in files && (preproc ==> TMP_C !in files)
      modifies `step, `files, `children, `nextPid, `attempts, `commands
      ensures Valid() && Same(old(files), files, Reserved() + {out}) && children == old(children) && step >= old(step)
      ensures ok ==> files.Keys !! Reserved()
      ensures ok ==> step == old(step) + (if preproc then 2 else 8) && AllOk(old(step), step)
      ensures preproc && ok ==>
        var last := script(step - 1).effect;
        out in files && files[out] == if last.Write? then last.content else ""
      ensures compile && ok ==> LastToolWrote(files, out, step)
      ensures ok ==> attempts == old(attempts) + RemovedFiles(true)
      ensures ok ==> commands == old(commands) + ToolCommands(out, true)
      ensures Healthy() && TMP_PCH in old(files) ==> ok && out in files
    {
      if preproc {
        var data := Map(TMP_PCH);
        if data.None? { return false; }
        ok := Unlink(TMP_PCH);
        if !ok { return; }
      } else {
        var known := Succeeds();
        if !known { return false; }
      }
      var written := Next();
      files := files[cName := if written.effect.Write? then written.effect.content else ""];
      if !written.ok { return false; }
      if preproc { return true; }
      ok := CompileAndLink(out);
    }

    /** The tools that make the object file of a file with exported functions. */
    method CompileAndLink(out: string) returns (ok: bool)
      requires Valid() && out !in Reserved() && compile
      modifies `step, `files, `children, `nextPid, `attempts, `commands
      ensures Valid() && Same(old(files), files, Reserved() + {out}) && children == old(children) && step >= old(step)
      ensures ok ==> files.Keys !! Reserved() && LastToolWrote(files, out, step)
      ensures ok ==> step == old(step) + 6 && AllOk(old(step), step)
      ensures ok ==> attempts == old(attempts) + RemovedFiles(true)
      ensures ok ==> commands == old(commands) + ToolCommands(out, true)
      ensures Healthy() && TMP_C in old(files) && TMP_PCH in old(files) ==> ok && out in files
    {
      hide LinkAndStrip;
      ok := RunTool(["cc", "-c", "-xc", TMP_C, "-o", TMP_O], TMP_O);
      if !ok { return; }
      ok := Unlink(TMP_C);
      if !ok { return; }
      ok := LinkObject(out);
    }

    /** Links the object of the generated code with the header, and cleans up its symbols. */
    method LinkObject(out: string) returns (ok: bool)
      requires Valid() && out !in Reserved() && TMP_C !in files && compile
      modifies `step, `files, `children, `nextPid, `attempts, `commands
      ensures Valid() && Same(old(files), files, Reserved() + {out}) && children == old(children) && step >= old(step)
      ensures ok ==> files.Keys !! Reserved() && LastToolWrote(files, out, step)
      ensures ok ==> step == old(step) + 4 && AllOk(old(step), step)
      ensures ok ==> attempts == old(attempts) + ["tmp.o", "doarr__precompiled"]
      ensures ok ==> commands == old(commands) + LinkAndStrip(out)
      ensures Healthy() && TMP_O in old(files) && TMP_PCH in old(files) ==> ok && out in files
    {
      ok := RunTool(["ld", "-r", TMP_O, "-bbinary", TMP_PCH, "-o", out, "-znoexecstack"], out);
      if !ok { return; }
      ok := Unlink(TMP_O);
      if !ok { return; }
      ok := Unlink(TMP_PCH);
      if !ok { return; }
      ok := RunTool(["objcopy", "-L_binary_doarr__precompiled_start", "-N_binary_doarr__precompiled_end",
                     "-N_binary_doarr__precompiled_size", "-g", out], out);
    }

    // ---------- moving the results out

    /**
     Copies the named files to an open descriptor, removing each as soon as it is mapped, and closes
     it. On every path each name is attempted to be removed exactly once, in order.
     */
    method CatUnlinkClose(names: seq<string>) returns (ok: bool, written: string)
      requires Distinct(names)
      modifies `step, `files, `attempts
      ensures files == old(files) - NameSet(names)
      ensures attempts == old(attempts) + names
      ensures ok ==> (forall n :: n in names ==> n in old(files)) && written == Concat(old(files), names)
      ensures ok ==> step == old(step) + 2 * |names| + 1
      ensures ok <==> (forall n :: n in names ==> n in old(files)) && AllOk(old(step), old(step) + 2 * |names| + 1)
    {
      written := "";
      assert names[..0] == [] && NameSet([]) == {};
      for i := 0 to |names|
        invariant files == old(files) - NameSet(names[..i]) && attempts == old(attempts) + names[..i]
        invariant forall n :: n in names[..i] ==> n in old(files)
        invariant written == Concat(old(files), names[..i])
        invariant AllOk(old(step), step) && step == old(step) + 2 * i
      {
        hide Concat;
        Split(names, i);
        var data := Map(names[i]);
        if data.None? {
          Abandon(names, i, old(files), old(attempts));
          return false, written;
        }
        var removed := Unlink(names[i]);
        var copied := Next();
        assert attempts == old(attempts) + names[..i + 1];
        if !removed || !copied.ok {
          Abandon(names, i + 1, old(files), old(attempts));
          return false, written;
        }
        ConcatSnoc(old(files), names[..i], names[i]);
        written := written + data.value;
      }
      assert names[..|names|] == names;
      ok := Succeeds();
    }

    /** The error exits: removes the names from `k` on, and closes the descriptor. */
    method Abandon(names: seq<string>, k: nat, ghost files0: Files, ghost attempts0: seq<string>)
      requires k <= |names|
      requires files == files0 - NameSet(names[..k]) && attempts == attempts0 + names[..k]
      modifies `step, `files, `attempts
      ensures files == files0 - NameSet(names) && attempts == attempts0 + names
    {
      var _ := UnlinkAll(names[k..]);
      RemovedAll(files0, names[..k], names[k..]);
      assert names == names[..k] + names[k..];
      var _ := Next();
    }

    /** Renames a result to its destination, or copies it where that is impossible. */
    method MoveFromTmp(name: string, dest: string) returns (ok: bool)
      modifies `step, `files, `attempts, `results
      ensures files == old(files) - {name}
      ensures attempts == old(attempts) || attempts == old(attempts) + [name]
      ensures Same(old(results), results, {dest})
      ensures ok ==> name in old(files) && results == old(results)[dest := old(files)[name]]
      ensures ok <==> name in old(files) && (script(old(step)).ok || AllOk(old(step) + 1, old(step) + 5))
    {
      var e := Next();
      if e.ok && name in files {
        results := results[dest := files[name]];
        files := files - {name};
        return true;
      }
      var canWrite := Succeeds();
      if !canWrite {
        var _ := Unlink(name);
        return false;
      }
      var written: string;
      assert NameSet([name]) == {name};
      ok, written := CatUnlinkClose([name]);
      assert ok ==> name in [name] && written == old(files)[name] + Concat(old(files), []) == old(files)[name];
      results := results[dest := written];
    }

    // ---------- all input files

    /** The files outside the temporary directory that a run may write. */
    function Destinations(inputs: seq<string>): set<string>
      requires compile && output.None? ==> forall i :: 0 <= i < |inputs| ==> Basename(inputs[i]) != ""
    {
      if output.Some? then {output.value} else if compile then NameSet(ObjectNames(inputs)) else {}
    }

    /**
     The whole run. Whatever fails, it returns with an empty temporary directory and no child that was
     not waited for. Success means: the outputs were joined in order, or linked and the linker's output
     delivered, or each object was sent to its own destination, in order. Where nothing fails it succeeds.
     */
    method GenMain(inputs: seq<string>, names: seq<string>) returns (ok: bool)
      requires Valid() && files == map[] && children == {} && GoodNames(names) && |inputs| == |names|
      requires compile && output.None? ==> forall i :: 0 <= i < |inputs| ==> Basename(inputs[i]) != ""
      modifies this
      ensures files == map[] && children == {}
      ensures Same(old(results), results, Destinations(inputs))
      ensures ok ==> made.Keys == NameSet(names) && AllMade(made, names, doneAt, old(step))
      ensures ok ==> commands == old(commands) + AllCommands(names, doneAt, old(step)) + LinkCommands(names)
      ensures Healthy() ==> ok
      ensures ok && preproc && output.Some? ==> results == old(results)[output.value := Concat(made, names)]
      ensures ok && preproc && output.None? ==> stdout == old(stdout) + Concat(made, names)
      ensures compile || output.Some? ==> stdout == old(stdout)
      ensures ok && compile && output.Some? ==>
        var linked := script((if names == [] then old(step) else doneAt[|names| - 1]) + 1).effect;
        linked.Write? && results == old(results)[output.value := linked.content]
      ensures ok && compile && output.None? ==>
        results == Delivered(made, names, ObjectNames(inputs), old(results))
    {
      hide Basename, ObjectName, Delivered, Concat, Made, AllMade, AllCommands;
      ghost var steps: seq<nat>;
      ok, steps := ProcessAll(names);
      if !ok {
        return;
      }
      made, doneAt := files, steps;
      assert forall n :: n in names ==> n in NameSet(names);
      if output.Some? && compile {
        ok := CombineObjects(names, output.value);
      } else if output.Some? {
        ok := JoinOutputs(names, output.value);
      } else if compile {
        ok := MoveEach(names, ObjectNames(inputs));
      } else {
        var written: string;
        ok, written := CatUnlinkClose(names);
        stdout := stdout + written;
      }
    }

    /** Writes the generated files to one destination, in order. */
    method JoinOutputs(names: seq<string>, dest: string) returns (ok: bool)
      requires Distinct(names)
      modifies `step, `files, `attempts, `results
      ensures files == old(files) - NameSet(names)
      ensures Same(old(results), results, {dest})
      ensures ok ==>
        (forall n :: n in names ==> n in old(files)) && results == old(results)[dest := Concat(old(files), names)]
      ensures ok <==> (forall n :: n in names ==> n in old(files)) && AllOk(old(step), old(step) + 2 * |names| + 2)
    {
      hide Concat;
      var opens := Succeeds();
      if !opens {
        var _ := UnlinkAll(names);
        return false;
      }
      var written: string;
      ok, written := CatUnlinkClose(names);
      results := results[dest := written];
    }

    /** The linker is run once more when objects are combined. */
    ghost function LinkCommands(names: seq<string>): seq<seq<string>> {
      if compile && output.Some? then [["ld", "-r"] + names + ["-o", "all.o"]] else []
    }

    /** Processes the input files in order; after a failure nothing is left behind. */
    method ProcessAll(names: seq<string>) returns (ok: bool, ghost steps: seq<nat>)
      requires Valid() && files == map[] && children == {} && GoodNames(names)
      modifies `step, `files, `children, `nextPid, `attempts, `commands
      ensures Valid() && children == {}
      ensures ok ==> files.Keys <= NameSet(names) && (preproc ==> NameSet(names) <= files.Keys)
      ensures ok ==> AllMade(files, names, steps, old(step)) && AllOk(old(step), step)
      ensures ok ==> commands == old(commands) + AllCommands(names, steps, old(step))
      ensures ok ==> step == if names == [] then old(step) else steps[|names| - 1]
      ensures !ok ==> files == map[]
      ensures Healthy() ==> ok && NameSet(names) <= files.Keys
    {
      hide Made, AllMade, OneMade, AllCommands, ToolCommands, RemovedFiles, StepsTaken, CleanedUp;
      hide Processed, GoodNames, Reserved, NameSet, Same, Distinct;
      steps := [];
      NothingProcessed(names, step);
      assert commands + [] == commands;
      for i := 0 to |names|
        invariant Valid() && children == {} && Processed(files, names, i, steps, old(step))
        invariant |steps| == i && step == StartOf(steps, i, old(step)) && step >= old(step) && AllOk(old(step), step)
        invariant commands == old(commands) + AllCommands(names[..i], steps, old(step))
      {
        ProcessedMeans(files, names, i, steps, old(step));
        ghost var before := files;
        ok := ProcessSingleFile(names[i]);
        if !ok {
          var _ := UnlinkAll(names[..i]);
          assert files.Keys == {};
          return;
        }
        ProcessedNext(before, files, names, steps, old(step), i, step);
        NextCommands(names, steps, old(step), i, step);
        steps := steps + [step];
      }
      AllProcessed(files, names, steps, old(step));
      ok := true;
    }

    lemma NextCommands(names: seq<string>, steps: seq<nat>, start: nat, i: nat, now: nat)
      requires i < |names| && |steps| == i
      ensures AllCommands(names[..i + 1], steps + [now], start)
        == AllCommands(names[..i], steps, start) + ToolCommands(names[i], Found(StartOf(steps, i, start)))
    {
      hide ToolCommands, Found;
      assert names[..i + 1][..i] == names[..i];
      CommandsBefore(names[..i], steps, now, start);
    }

    /** Commands do not depend on later steps. */
    lemma {:induction false} CommandsBefore(names: seq<string>, steps: seq<nat>, now: nat, start: nat)
      requires |names| <= |steps|
      ensures AllCommands(names, steps + [now], start) == AllCommands(names, steps, start)
    {
      hide ToolCommands, Found;
      if names != [] {
        CommandsBefore(names[..|names| - 1], steps, now, start);
      }
    }

    lemma NothingProcessed(names: seq<string>, start: nat)
      ensures Processed(map[], names, 0, [], start) && AllCommands(names[..0], [], start) == []
    {
      assert names[..0] == [];
    }

    lemma ProcessedMeans(files: Files, names: seq<string>, i: nat, steps: seq<nat>, start: nat)
      requires GoodNames(names) && i < |names| && Processed(files, names, i, steps, start)
      ensures names[i] !in Reserved() && names[i] !in files && files.Keys !! Reserved()
      ensures |steps| == i && files.Keys <= NameSet(names[..i])
    {
      NextIsGood(names, i);
      hide GoodNames, AllMade;
    }

    lemma AllProcessed(files: Files, names: seq<string>, steps: seq<nat>, start: nat)
      requires Processed(files, names, |names|, steps, start)
      ensures AllCommands(names, steps, start) == AllCommands(names[..|names|], steps, start)
      ensures |steps| == |names| && files.Keys <= NameSet(names) && AllMade(files, names, steps, start)
      ensures preproc || Healthy() ==> NameSet(names) <= files.Keys
    {
      hide AllMade;
      assert names[..|names|] == names;
    }

    /** The first `i` files have been made, and nothing else is there. */
    ghost predicate Processed(files: Files, names: seq<string>, i: nat, steps: seq<nat>, start: nat) {
      && i == |steps| <= |names| && files.Keys <= NameSet(names[..i])
      && (preproc || Healthy() ==> NameSet(names[..i]) <= files.Keys)
      && AllMade(files, names[..i], steps, start)
    }

    lemma ProcessedNext(before: Files, files: Files, names: seq<string>, steps: seq<nat>, start: nat, i: nat, now: nat)
      requires i < |names| && GoodNames(names) && Processed(before, names, i, steps, start)
      requires Same(before, files, Reserved() + {names[i]}) && files.Keys !! Reserved()
      requires OneMade(files, names[i], StartOf(steps, i, start), now)
      requires Healthy() ==> names[i] in files
      ensures Processed(files, names, i + 1, steps + [now], start)
    {
      assert preproc ==> names[i] in files;
      AllMadeNext(before, files, names, steps, start, i, now);
      NextIsGood(names, i);
      Split(names, i);
      OnlyAdds(before, files, names[i]);
      hide AllMade, OneMade, GoodNames, Same;
    }

    lemma NextIsGood(names: seq<string>, i: nat)
      requires GoodNames(names) && i < |names|
      ensures names[i] !in Reserved() && names[i] !in NameSet(names[..i]) && NameSet(names[..i]) !! Reserved()
    {
      Split(names, i);
      assert names[i] in NameSet(names);
      assert NameSet(names[..i]) <= NameSet(names);
    }

    lemma AllMadeNext(before: Files, files: Files, names: seq<string>, steps: seq<nat>, start: nat, i: nat, now: nat)
      requires i < |names| && GoodNames(names) && AllMade(before, names[..i], steps, start)
      requires Same(before, files, Reserved() + {names[i]})
      requires OneMade(files, names[i], StartOf(steps, i, start), now)
      ensures AllMade(files, names[..i + 1], steps + [now], start)
    {
      hide OneMade, Same, GoodNames;
      var more := steps + [now];
      assert |steps| == i;
      forall j | 0 <= j <= i
        ensures OneMade(files, names[..i + 1][j], StartOf(more, j, start), more[j])
      {
        if j < i {
          assert OneMade(before, names[..i][j], StartOf(steps, j, start), steps[j]);
          OtherName(names, i, j);
          MadeStays(before, files, names[j], names[i], StartOf(steps, j, start), steps[j]);
        }
      }
    }

    lemma OtherName(names: seq<string>, i: nat, j: nat)
      requires GoodNames(names) && j < i < |names|
      ensures names[j] !in Reserved() + {names[i]}
    {
      assert names[j] in NameSet(names);
    }

    lemma MadeStays(before: Files, files: Files, name: string, other: string, start: nat, done: nat)
      requires Same(before, files, Reserved() + {other}) && name !in Reserved() + {other}
      requires OneMade(before, name, start, done)
      ensures OneMade(files, name, start, done)
    {
    }

    /** Links all objects into one and moves it out; success means that what the linker wrote has arrived. */
    method CombineObjects(names: seq<string>, dest: string) returns (ok: bool)
      requires Valid() && files.Keys <= NameSet(names) && GoodNames(names)
      modifies `step, `files, `children, `nextPid, `attempts, `results, `commands
      ensures Valid() && files == map[] && children == old(children)
      ensures Same(old(results), results, {dest})
      ensures commands == old(commands) + [["ld", "-r"] + names + ["-o", "all.o"]]
      ensures ok ==> old(files).Keys == NameSet(names) && script(old(step)).ok && script(old(step) + 1).ok
      ensures ok ==>
        var linked := script(old(step) + 1).effect;
        linked.Write? && results == old(results)[dest := linked.content]
      ensures Healthy() && NameSet(names) <= old(files).Keys ==> ok
    {
      ok := RunTool(["ld", "-r"] + names + ["-o", ALL_O], ALL_O);
      ghost var afterLink := files;
      var removed := UnlinkAll(names);
      assert files.Keys <= {ALL_O};
      if !ok || !removed {
        var _ := Unlink(ALL_O);
        return false;
      }
      assert NameSet(names) <= afterLink.Keys <= old(files).Keys + {ALL_O};
      ok := MoveFromTmp(ALL_O, dest);
    }

    /**
     Moves each object to its own destination, going on after a failure. Success means that each was
     delivered, in order; a destination that is given twice holds the last.
     */
    method MoveEach(names: seq<string>, dests: seq<string>) returns (ok: bool)
      requires Valid() && files.Keys <= NameSet(names) && |dests| == |names| && Distinct(names)
      modifies `step, `files, `attempts, `results
      ensures Valid() && files == map[]
      ensures Same(old(results), results, NameSet(dests))
      ensures ok ==> old(files).Keys == NameSet(names)
      ensures ok ==> results == Delivered(old(files), names, dests, old(results))
      ensures Healthy() && NameSet(names) <= old(files).Keys ==> ok
    {
      ok := true;
      MoveStarts(files, results, names, dests);
      for i := 0 to |names|
        invariant Valid() && MovedTo(old(files), old(results), files, results, names, dests, i, ok)
        invariant Healthy() && NameSet(names) <= old(files).Keys ==> ok && NameSet(names[i..]) <= files.Keys
      {
        hide MovedTo;
        Split(names, i);
        ghost var files1, results1 := files, results;
        var moved := MoveFromTmp(names[i], dests[i]);
        MoveGoesOn(old(files), old(results), files1, results1, results, names, dests, i, ok, moved);
        if !moved {
          ok := false;
        }
      }
      assert NameSet(names[|names|..]) == {};
      assert names[..|names|] == names && dests[..|dests|] == dests;
      assert forall n :: n in NameSet(names) ==> n in names[..|names|];
    }
  }

  /** The first `i` objects have left, those moved so far without failure have been delivered, in order. */
  ghost predicate MovedTo(files0: Files, results0: Files, files: Files, results: Files, names: seq<string>,
                          dests: seq<string>, i: nat, ok: bool)
  {
    && i <= |names| == |dests|
    && files.Keys <= NameSet(names[i..])
    && (forall n :: n in files ==> n in files0 && files[n] == files0[n])
    && Same(results0, results, NameSet(dests))
    && (ok ==> (forall n :: n in names[..i] ==> n in files0)
               && results == Delivered(files0, names[..i], dests[..i], results0))
  }

  lemma MoveStarts(files: Files, results: Files, names: seq<string>, dests: seq<string>)
    requires files.Keys <= NameSet(names) && |names| == |dests|
    ensures MovedTo(files, results, files, results, names, dests, 0, true)
  {
    assert names[0..] == names;
  }

  lemma MoveGoesOn(files0: Files, results0: Files, files: Files, results: Files, results': Files, names: seq<string>,
                   dests: seq<string>, i: nat, ok: bool, moved: bool)
    requires i < |names| && MovedTo(files0, results0, files, results, names, dests, i, ok)
    requires Same(results, results', {dests[i]})
    requires moved ==> names[i] in files && results' == results[dests[i] := files[names[i]]]
    ensures MovedTo(files0, results0, files - {names[i]}, results', names, dests, i + 1, ok && moved)
  {
    hide Delivered;
    Split(names, i);
    assert dests[i] in NameSet(dests);
    if ok && moved {
      DeliveredNext(files0, names, dests, results0, i);
    }
  }

  lemma DeliveredNext(files: Files, names: seq<string>, dests: seq<string>, results: Files, i: nat)
    requires i < |names| == |dests| && names[i] in files && forall n :: n in names[..i] ==> n in files
    ensures forall n :: n in names[..i + 1] ==> n in files
    ensures Delivered(files, names[..i + 1], dests[..i + 1], results)
      == Delivered(files, names[..i], dests[..i], results)[dests[i] := files[names[i]]]
  {
    assert names[..i + 1][..i] == names[..i] && dests[..i + 1][..i] == dests[..i];
  }

  // ---------- which objects survive

  /** The last file that is sent to the destination of file `i`. */
  function LastSentTo(dests: seq<string>, d: string): (i: nat)
    requires d in dests
    ensures i < |dests| && dests[i] == d && forall j :: i < j < |dests| ==> dests[j] != d
  {
    if dests[|dests| - 1] == d then |dests| - 1 else LastSentTo(dests[..|dests| - 1], d)
  }

  /** Each destination holds the last file sent to it, and everything else is as it was. */
  lemma {:induction false} LastOneStays(files: Files, names: seq<string>, dests: seq<string>, results: Files)
    requires |names| == |dests| && forall n :: n in names ==> n in files
    ensures Same(results, Delivered(files, names, dests, results), NameSet(dests))
    ensures forall d :: d in dests ==>
      var delivered := Delivered(files, names, dests, results);
      d in delivered && delivered[d] == files[names[LastSentTo(dests, d)]]
  {
    if names != [] {
      var k := |names| - 1;
      var before, last := dests[..k], dests[k];
      LastOneStays(files, names[..k], before, results);
      hide Delivered;
      DeliveredNext(files, names, dests, results, k);
      assert names[..k + 1] == names && dests[..k + 1] == dests;
      assert dests == before + [last];
      forall d | d in dests && d != last
        ensures d in before && LastSentTo(dests, d) == LastSentTo(before, d)
      {
      }
    }
  }

  /** Each file's contents are at its destination. */
  ghost predicate Moved(files: Files, results: Files, names: seq<string>, dests: seq<string>) {
    && |names| == |dests|
    && forall i :: 0 <= i < |names| ==> names[i] in files && dests[i] in results && results[dests[i]] == files[names[i]]
  }

  /** Files sent to one place have the same contents. */
  ghost predicate AgreeWhereTheyMeet(files: Files, names: seq<string>, dests: seq<string>)
    requires |names| == |dests| && forall n :: n in names ==> n in files
  {
    forall i, j :: 0 <= i < j < |names| && dests[i] == dests[j] ==> files[names[i]] == files[names[j]]
  }

  ghost predicate AllDiffer(files: Files, names: seq<string>)
    requires forall n :: n in names ==> n in files
  {
    forall i, j :: 0 <= i < j < |names| ==> files[names[i]] != files[names[j]]
  }

  /**
   Every object survives exactly when those sent to one place are the same: always when the destinations
   differ, and, of objects that all differ, only then.
   */
  lemma {:induction false} AllSurviveIff(files: Files, names: seq<string>, dests: seq<string>, results: Files)
    requires |names| == |dests| && forall n :: n in names ==> n in files
    ensures var all := Moved(files, Delivered(files, names, dests, results), names, dests);
      && (all <==> AgreeWhereTheyMeet(files, names, dests))
      && (Distinct(dests) ==> all)
      && (AllDiffer(files, names) && all ==> Distinct(dests))
  {
    LastOneStays(files, names, dests, results);
    hide Delivered, LastSentTo, Same, Moved, AgreeWhereTheyMeet;
    var delivered := Delivered(files, names, dests, results);
    if AgreeWhereTheyMeet(files, names, dests) {
      AgreeingSurvive(files, names, dests, delivered);
    }
    if Moved(files, delivered, names, dests) {
      SurvivorsAgree(files, names, dests, delivered);
    }
    if Distinct(dests) {
      DistinctAgree(files, names, dests);
    }
  }

  lemma DistinctAgree(files: Files, names: seq<string>, dests: seq<string>)
    requires |names| == |dests| && forall n :: n in names ==> n in files
    requires Distinct(dests)
    ensures AgreeWhereTheyMeet(files, names, dests)
  {
  }

  lemma AgreeingSurvive(files: Files, names: seq<string>, dests: seq<string>, delivered: Files)
    requires |names| == |dests| && forall n :: n in names ==> n in files
    requires forall d :: d in dests ==> d in delivered && delivered[d] == files[names[LastSentTo(dests, d)]]
    requires AgreeWhereTheyMeet(files, names, dests)
    ensures Moved(files, delivered, names, dests)
  {
    hide LastSentTo;
    forall i | 0 <= i < |names|
      ensures dests[i] in delivered && delivered[dests[i]] == files[names[i]]
    {
      assert dests[i] in dests;
    }
  }

  lemma SurvivorsAgree(files: Files, names: seq<string>, dests: seq<string>, delivered: Files)
    requires |names| == |dests| && forall n :: n in names ==> n in files
    requires Moved(files, delivered, names, dests)
    ensures AgreeWhereTheyMeet(files, names, dests)
    ensures AllDiffer(files, names) ==> Distinct(dests)
  {
  }

  /** Of two inputs with the same name, the first object is lost though both were delivered, unless they are equal. */
  lemma SameNameCollides(inputs: seq<string>, names: seq<string>, files: Files, results: Files)
    returns (dest: string, delivered: Files)
    requires |inputs| == |names| == 2 && forall n :: n in names ==> n in files
    requires forall i :: 0 <= i < |inputs| ==> Basename(inputs[i]) != ""
    requires Basename(inputs[0]) == Basename(inputs[1])
    ensures dest == ObjectName(inputs[0]) && ObjectNames(inputs) == [dest, dest]
    ensures delivered == Delivered(files, names, ObjectNames(inputs), results) == results[dest := files[names[1]]]
    ensures Moved(files, delivered, names, ObjectNames(inputs)) <==> files[names[0]] == files[names[1]]
  {
    hide *;
    SameNameSameObject(inputs);
    var a, b := names[0], names[1];
    assert names == [a, b];
    dest := ObjectName(inputs[0]);
    delivered := results[dest := files[b]];
    DeliveredTwo(files, a, b, dest, dest, results);
    LastValue(results, dest, files[a], files[b]);
    OneOfTwoMoved(files, delivered, a, b, dest);
  }

  lemma LastValue(results: Files, dest: string, x: string, y: string)
    ensures results[dest := x][dest := y] == results[dest := y]
  {
  }

  lemma SameNameSameObject(inputs: seq<string>)
    requires |inputs| == 2 && forall i :: 0 <= i < |inputs| ==> Basename(inputs[i]) != ""
    requires Basename(inputs[0]) == Basename(inputs[1])
    ensures ObjectNames(inputs) == [ObjectName(inputs[0]), ObjectName(inputs[0])]
  {
    hide Basename, StemLength;
    assert ObjectName(inputs[1]) == ObjectName(inputs[0]);
  }

  lemma OneOfTwoMoved(files: Files, delivered: Files, a: string, b: string, dest: string)
    requires a in files && b in files && dest in delivered && delivered[dest] == files[b]
    ensures Moved(files, delivered, [a, b], [dest, dest]) <==> files[a] == files[b]
  {
    assert [a, b][0] == a && [a, b][1] == b && [dest, dest][0] == [dest, dest][1] == dest;
  }

  /** Two inputs of the same name in different directories. */
  lemma CollisionExample() returns (first: string, second: string)
    ensures first == "a/k.cpp" && second == "b/k.cpp"
    ensures Basename(first) == Basename(second) == "k.cpp"
    ensures ObjectName(first) == ObjectName(second) == "k.o"
  {
    hide Basename, ObjectName;
    var a, b, k, ext, o := "a/", "b/", "k", ".cpp", ".o";
    first, second := a + (k + ext), b + (k + ext);
    ObjectOf(a, k, ext);
    ObjectOf(b, k, ext);
    assert k + ext == "k.cpp";
  }

  lemma DeliveredTwo(files: Files, a: string, b: string, d: string, e: string, results: Files)
    requires a in files && b in files
    ensures Delivered(files, [a, b], [d, e], results) == results[d := files[a]][e := files[b]]
  {
    var names, dests := [a, b], [d, e];
    assert names[..1] == [a] && dests[..1] == [d] && names[..1][..0] == [] && dests[..1][..0] == [];
    assert Delivered(files, [a], [d], results) == results[d := files[a]];
  }

  /** The object of a path with a directory, a stem and an extension is the stem with its own extension. */
  lemma ObjectOf(dir: string, stem: string, ext: string)
    requires dir != "" ==> dir[|dir| - 1] == '/'
    requires stem != "" && '/' !in stem + ext
    requires ext == "" ==> '.' !in stem[1..]
    requires ext != "" ==> ext[0] == '.' && '.' !in ext[1..]
    ensures Basename(dir + (stem + ext)) == stem + ext
    ensures ObjectName(dir + (stem + ext)) == stem + ".o"
  {
    BasenameOf(dir, stem + ext);
    StemOf(stem, ext);
    hide Basename, StemLength;
    assert (stem + ext)[..|stem|] == stem;
  }

  lemma StemOf(stem: string, ext: string)
    requires stem != ""
    requires ext == "" ==> '.' !in stem[1..]
    requires ext != "" ==> ext[0] == '.' && '.' !in ext[1..]
    ensures StemLength(stem + ext) == |stem|
  {
    hide LastIndex;
    if ext == "" {
      assert (stem + ext)[1..] == "" + stem[1..];
      LastIndexOf("", stem[1..], '.');
    } else {
      var dot := stem[1..] + ['.'];
      assert (stem + ext)[1..] == dot + ext[1..];
      LastIndexOf(dot, ext[1..], '.');
    }
  }

  lemma BasenameOf(dir: string, base: string)
    requires dir != "" ==> dir[|dir| - 1] == '/'
    requires '/' !in base
    ensures Basename(dir + base) == base
  {
    hide LastIndex;
    LastIndexOf(dir, base, '/');
    assert (dir + base)[|dir|..] == base;
    assert "" + base == base;
  }

  lemma {:induction false} LastIndexOf(s: string, t: string, c: char)
    requires s != "" ==> s[|s| - 1] == c
    requires c !in t
    ensures LastIndex(s + t, c) == if s == "" then None else Some(|s| - 1)
  {
    if t == "" {
      assert s + t == s;
    } else {
      assert (s + t)[..|s + t| - 1] == s + t[..|t| - 1];
      LastIndexOf(s, t[..|t| - 1], c);
    }
  }

  lemma Split(names: seq<string>, i: nat)
    requires i < |names|
    ensures names[..i + 1] == names[..i] + [names[i]]
    ensures NameSet(names[..i + 1]) == NameSet(names[..i]) + {names[i]}
    ensures NameSet(names[i..]) == {names[i]} + NameSet(names[i + 1..])
    ensures Distinct(names) ==> names[i] !in NameSet(names[..i]) && names[i] !in NameSet(names[i + 1..])
  {
    assert names[..i + 1] == names[..i] + [names[i]];
    assert names[i..] == [names[i]] + names[i + 1..];
  }

  lemma RemovedAll(files: Files, a: seq<string>, b: seq<string>)
    ensures files - NameSet(a) - NameSet(b) == files - NameSet(a + b)
  {
  }

  lemma {:induction false} ConcatSnoc(files: Files, names: seq<string>, n: string)
    requires (forall m :: m in names ==> m in files) && n in files
    ensures Concat(files, names + [n]) == Concat(files, names) + files[n]
  {
    if names == [] {
      assert [] + [n] == [n] && [n][1..] == [];
    } else {
      assert (names + [n])[1..] == names[1..] + [n];
      ConcatSnoc(files, names[1..], n);
    }
  }

  lemma AllGone(a: Files, b: Files, out: string)
    requires Same(a, b, Reserved() + {out})
    requires a.Keys !! Reserved() + {out} && b.Keys !! Reserved() + {out}
    ensures a == b
  {
    assert forall n :: n in a <==> n in b;
  }

  lemma OnlyAdds(a: Files, b: Files, out: string)
    requires Same(a, b, Reserved() + {out}) && b.Keys !! Reserved()
    ensures b.Keys <= a.Keys + {out}
    ensures forall n :: n in a && n !in Reserved() && n != out ==> n in b
  {
  }
}
