# Verification of doarr

A Dafny 4.11 model of doarr with proofs about it. doarr lets a C++ host program call guest functions that
are specialised and compiled while the host runs. The model covers

- the run-time library: expression trees, the text and parameters a call splits them into, the cache of
  compiled code, the reference counts that share the trees, and the names of temporary files;
- the build driver `dcc`: its option parser, the scanner that finds exported functions, the generated C
  literals, the argument vectors it builds, and the life of its children and temporary files.

`dafny verify dfyconfig.toml` checks everything. Nothing was executed.

## How the model is laid out

| file | subject |
|---|---|
| Decimal.dfy, Atoms.dfy, Ctors.dfy | numerals, the lexical shapes of raw atoms, and their constructors |
| Exprs.dfy, Decode.dfy | trees, slots and parameters; the decoder that inverts text generation |
| Equality.dfy, Keys.dfy | hashes, equality, cache keys and the generated statement |
| TmpNames.dfy, Cache.dfy | temporary names; a call as a step of a state machine, and the process as a class |
| RefCount.dfy | reference counts over an explicit memory |
| Scan.dfy, ScanStream.dfy | the scanner as a function, and as run on a stream |
| ScanNames.dfy, ScanPieces.dfy, ScanFound.dfy | which names it knows, what it finds in well-formed texts, and what it can find in any |
| CText.dfy, GenArgs.dfy, GenBinary.dfy | reading C literals back; the two encoders |
| Options.dfy, ParseArgs.dfy, ArgPipeline.dfy | option table, command line, argument vectors |
| Setup.dfy, Build.dfy | output names and search path; children, temporary files and results |

Code that changes things step by step is a method, of a class where the program has an object, proved
against a function of the old state; what the program promises is then proved about that function. Trees,
which the program never changes, are datatypes.

Characters stand for bytes; the phantom byte is the character 255. A raw atom holds its terminating NUL.
Addresses that enter hashes are parameters. Failures of the outside world are parameters too: one record of
outcomes for each call in `Cache`, a script of events in `Build`. The compiler is an unknown function of the
header found at the included path and the rest of the text (`Cache.Code`).

## What the code does differently from what it seems to intend

- `dcc_gen.c:200` lowers the stored file position for every build-only word, also for those after the input
  file. `ArgPipeline.RuntimeFollowsCommandLine` says exactly when the run-time compiler still sees the file
  in its place: when no option such as `-include` stands after the input. `ArgPipeline.MisplacedExample` is a
  command line that goes wrong. With more such words than there are others before the file the position is
  negative and the copying in `io.c:163-164` leaves its arrays: `ArgPipeline.FillInBoundsIff` says exactly when,
  `ArgPipeline.OutOfBoundsExample` is a command line.
- `dcc_gen.c:93` writes `\x` escapes, which C reads greedily. `GenArgs.ArgsSurviveIffSafe` says exactly when
  the arguments survive; `GenArgs.GreedyEscapeExample` is an argument that does not. Both deviations
  together are in `ArgPipeline.GeneratedVectorIff`.
- `dcc_gen.c:153` counts one word where up to two are stored. The buffer is still large enough, because the
  run that stores two has fewer words elsewhere (`ArgPipeline.BuildTimeRuns`).
- At the end of the input, `dcc_scan.c:14-16` pushes back end-of-file truncated to a byte, which is then read
  as an identifier character. Scanning ends all the same (`Scan.Measure`), and no name is made up
  (`ScanFound.FoundIsExport`).
- `dcc_scan.c:146` accepts `exported` directly followed by a name, without a blank
  (`ScanFound.GluedNameExample`). On well-formed texts in which no export is missed that is the only way to a
  wrong name (`ScanPieces.OnlyWellFormedIff`). On any text, what is found is spelled as a well-formed export
  where no identifier character follows `exported` (`ScanFound.NamesStandInText`). That is about spelling only:
  after a quote in a character literal the scanner reads strings as code (`ScanFound.QuoteExample`).
- `dcc_scan.c:140-144` keeps the character before a failed comparison, so `doarr` inside a word may be taken
  (`ScanFound.WordStartExample`, `ScanFound.SecondDoarrExample`). `ScanFound.DoarrInWord` says, for every word
  whose start the scanner reaches, exactly after which characters of it; it never happens where no identifier
  character stands before `doarr` (`ScanFound.NamesStandInText`).
- `dcc_scan.c:131-137` reads the character after an `R` with it and then forgets it, so an export directly after
  a word that ends in an odd number of `R` and one character is missed (`ScanPieces.MissedExportExample`).
  `ScanPieces.AllExportsIff` says exactly when none is.
- `dcc_gen.c:542-549` names objects after the inputs without their directories, so two inputs of one name
  overwrite one object and the run succeeds (`Setup.CollisionRun` is such a run, `Build.SameNameCollides` the
  general case). `Build.AllSurviveIff` says exactly when every object survives.

## Model

| member | source | states |
|---|---|---|
| Decimal.ParseDigits | runtime/expr_all.cpp:356-365 | reading a printed number back gives the number |
| Decimal.NoLeadingZero | runtime/expr_all.cpp:356-365 | only zero starts with a zero |
| Decimal.SizeFitsTwentyDigits | runtime/expr_all.cpp:357 | a machine word has at most 20 digits, so the 25-byte buffer suffices |
| Ctors.IntExpr | runtime/expr_all.cpp:356-365 | the backward loop stays in its buffer and yields the canonical numeral and its terminator |
| Ctors.IntAtomsDistinct | runtime/expr_all.cpp:356-365 | distinct numbers give distinct atoms |
| Ctors.CharExpr | runtime/expr_all.cpp:345-354 | a character literal where that is easy, otherwise the number the character converts to |
| Ctors.CharAtomsDistinct | runtime/expr_all.cpp:345-354 | distinct characters give distinct atoms |
| Ctors.QnameExpr | runtime/expr_all.cpp:408-415 | a name becomes an atom exactly when it is a qualified name |
| Atoms.ValidQnameEnd | runtime/expr_all.cpp:377-404 | the walk accepts exactly the identifiers joined by `::`, with an optional leading one, and returns the end past the terminator |
| Atoms.IdentCharsAre | runtime/expr_all.cpp:369-375 | the characters of identifiers, written out |
| Atoms.PathUnfold | runtime/expr_all.cpp:386-403 | a path is one identifier, alone or followed by `::` and a path |
| Exprs.ConstructorsBuild | runtime/expr_all.cpp:186-288 | everything the public constructors build is among the expressions the laws are stated for |
| Exprs.SumNumParams | runtime/expr_all.cpp:125-130 | the summing loop counts the dynamic leaves of a list |
| Exprs.ExtractParams | runtime/expr_all.cpp:188-191 | the values of a tree are stored in order from the cursor on, and nothing else is touched |
| Exprs.ExtractParamsList | runtime/expr_all.cpp:132-136 | the same for a list of trees |
| Exprs.SlotsAdvance | runtime/expr_all.cpp:193-288 | writing a tree advances the slot number by its number of parameters |
| Exprs.SlotsAdvanceList | runtime/expr_all.cpp:138-147 | the same for a list of trees |
| Exprs.SlotsLineUp | runtime/expr_all.cpp:188-258 | slots are numbered consecutively from left to right and carry the tags of the extracted values |
| Exprs.SlotsLineUpList | runtime/expr_all.cpp:132-147 | the same for a list of trees |
| Exprs.RebuildSkeleton | runtime/expr_all.cpp:188-288 | a tree's skeleton and its parameters give back the tree |
| Exprs.RebuildSkeletonList | runtime/expr_all.cpp:132-147 | the same for a list of trees |
| Decode.ParseText | runtime/expr_all.cpp:193-288 | decoding a tree's text under any closing character gives its skeleton and the text after it |
| Decode.ParseListText | runtime/expr_all.cpp:138-147 | the same for a bracketed list |
| Decode.LosslessSplit | runtime/call.cpp:98-121 | the text and the parameters of an argument list together determine the list |
| Equality.HashStr | runtime/expr_all.cpp:168-173 | the loop computes the polynomial hash modulo 2^64, terminator included |
| Equality.HashExprs | runtime/expr_all.cpp:106-111 | the loop computes the polynomial hash of the stored hashes |
| Equality.RawEqual | runtime/expr_all.cpp:264-274 | the comparison loop compares the strings before the terminators |
| Equality.SameShapeSameHash | runtime/expr_util.hpp:25-33 | trees equal up to dynamic values have equal hashes |
| Equality.ExprEqIsSameShape | runtime/expr_all.cpp:90-100 | with its hash pre-check, equality is equality up to dynamic values |
| Equality.ExprsEqIsSameShapes | runtime/expr_all.cpp:102-104 | the same for lists |
| Equality.EqualityIsEquivalence | runtime/expr_all.cpp:90-104 | equality is reflexive (so the pointer shortcut changes nothing), symmetric and transitive |
| Equality.SameShapeIsSameSkeleton | runtime/expr_all.cpp:179-181 | equality up to dynamic values is having the same skeleton |
| Keys.KeyEqIsSameShape | runtime/call.cpp:23-37 | key equality, hash comparison included, is equality of all parts up to dynamic values |
| Keys.ArgsTextDecides | runtime/call.cpp:95-98 | the statement determines whether there are template arguments, and both lists up to dynamic values |
| Keys.BodyDecodes | runtime/call.cpp:91-99 | a generated file can be read back: the function's name, whether there are template arguments, and both lists up to dynamic values |
| Keys.BodyDecides | runtime/call.cpp:91-99 | calls of any functions have the same text exactly when names, flags and both lists agree up to dynamic values |
| Keys.BodyDecidesKey | runtime/call.cpp:30-37 | for one guest function, two calls generate the same text exactly when their keys are equal |
| TmpNames.IoCtx.constructor | runtime/io.c:27-90 | the initial path is the directory, a slash and a counter at zero |
| TmpNames.IoCtx.Inc | runtime/io.c:93-113 | counting in place adds one in base 26 and aborts exactly when all digits are z; prefix, slash and terminator stay |
| TmpNames.IoCtx.TmpPath | runtime/io.c:125-129 | the name handed out is that of the counter before, with the extension |
| TmpNames.CarryAddsOne | runtime/io.c:100-112 | clearing trailing z and advancing the letter before them adds one |
| TmpNames.AllZIsLast | runtime/io.c:107-109 | all digits are z exactly at the last number |
| TmpNames.NamesDistinct | runtime/io.c:125-129 | names with different numbers differ, whatever their extensions |
| Cache.CallRefinesFresh | runtime/call.cpp:116-134 | every call keeps the invariant and agrees with a fresh compilation; failed calls leave no entry |
| Cache.RunRefinesFresh | runtime/call.cpp:116-134 | over every run each outcome is that of a runtime that always compiles, or an error of the environment, or an abort |
| Cache.CachedShapeAlwaysRuns | runtime/call.cpp:123-132 | once a shape is cached, later calls of that shape run, whatever the environment does |
| Cache.AbortOrFailOnlyWithCause | runtime/call.cpp:80-112 | no error in a healthy environment, no abort before the names run out |
| Cache.MissOutcome | runtime/call.cpp:80-133 | what a call that finds no entry does, from its surroundings alone: it throws the first error it meets, aborts exactly when the names do not suffice, and otherwise runs fresh code |
| Cache.MissRunsIff | runtime/call.cpp:80-133 | with names left, such a call runs exactly when setting up, extracting, compiling and loading succeed as far as they are needed |
| Cache.OtherOutcomes | runtime/call.cpp:117-133 | in any environment, dynamic template arguments throw and a hit runs, and neither changes anything |
| Cache.FirstCallState | runtime/call.cpp:80-112 | the state after a first compilation: three names in order, the stored header, the new entry |
| Cache.HitIsFresh | runtime/call.cpp:123-133 | a hit runs the code that compiling the call at hand would give |
| Cache.NamesNeverRepeat | runtime/io.c:93-129 | all temporary paths handed out over any run are pairwise different |
| Cache.HeaderExtractedOnce | runtime/io.c:131-155 | once a run has extracted a guest file's header, its stored path never changes and no other path ever holds that header completely |
| Cache.ExtractKeepsInv | runtime/io.c:131-155 | extraction keeps the invariant, and a returned path holds the header of that very file |
| Cache.Runtime.ExtractPrecompiledOrNull | runtime/io.c:131-155 | extraction as the state machine describes it, with failures at each step |
| Cache.Runtime.Compile | runtime/call.cpp:80-112 | setting up, names, compiling and loading as the state machine describes them; setting up is tried again after a failure |
| Cache.Runtime.CompileEntry | runtime/call.cpp:123-132 | an entry is placed before compiling and stays only if the code can be loaded |
| Cache.Runtime.Parameters | runtime/call.cpp:119-121 | the parameter array is filled exactly |
| Cache.Runtime.Invoke | runtime/call.cpp:116-134 | a call is a step of the state machine and agrees with a fresh compilation |
| RefCount.Heap.Incref | include/doarr/expr_base.hpp:36-39 | one more reference is counted, and nothing else changes |
| RefCount.Heap.Decref | include/doarr/expr_base.hpp:41-48 | one reference less is counted; the node goes exactly with its last reference |
| RefCount.Heap.Del | runtime/expr_all.cpp:80-82 | the cascade ends, touches only live nodes, and frees only the node and older ones |
| RefCount.Heap.CopyConstruct | include/doarr/expr_base.hpp:54-56 | the new handle shares the node, and all counts stay exact |
| RefCount.Heap.MoveConstruct | include/doarr/expr_base.hpp:57-59 | the reference moves, the source is null |
| RefCount.Heap.CopyAssign | include/doarr/expr_base.hpp:60-65 | aliased or to itself, the target takes the source's node and no other outside handle changes |
| RefCount.Heap.MoveAssign | include/doarr/expr_base.hpp:66-71 | the same for a move; a self-move leaves a null handle |
| RefCount.Heap.Destroy | include/doarr/expr_base.hpp:84-86 | the handle is gone and no other outside handle changes |
| RefCount.Heap.NewNode | include/doarr/expr_base.hpp:102-112 | a new node takes over handle objects without counting |
| RefCount.Heap.CallExpr | runtime/expr_all.cpp:209-214 | a call node copies or moves its function and takes over its arguments |
| RefCount.Heap.InfixExpr | runtime/expr_all.cpp:239-243 | an infix node copies or moves both operands, the same handle twice included |
| RefCount.LiveIffReachable | include/doarr/expr_base.hpp:36-86 | the live nodes are exactly those reachable from outside handles |
| RefCount.NoLeak | include/doarr/expr_base.hpp:36-86 | when no outside handle points anywhere, every node has been freed |
| ScanStream.Stream.Exactly | dcc/dcc_scan.c:12-21 | reads the expected bytes or pushes the first other one back, at the end of the input the phantom byte |
| ScanStream.Stream.ReadDelim | dcc/dcc_scan.c:24-33 | the delimiter with a quote for its parenthesis, within the 17-byte buffer |
| ScanStream.Stream.SkipRawString | dcc/dcc_scan.c:23-43 | skips as the scanning function says, and ends on every input |
| ScanStream.Stream.SkipString | dcc/dcc_scan.c:45-55 | skips to the first quote that is not escaped |
| ScanStream.Stream.ScanIdent | dcc/dcc_scan.c:77-113 | collects a whole identifier; every write is inside the growing buffer |
| ScanStream.Stream.UpToNextExport | dcc/dcc_scan.c:115-165 | the loop computes the scanning function and ends on every input |
| ScanStream.Stream.AllExports | dcc/dcc_gen.c:54-76 | repeated scans collect all names up to the end or an error |
| ScanNames.NameCharsAre | dcc/dcc_scan.c:57-71 | the characters of names and the blanks, written out |
| ScanNames.IdentifierIsName | dcc/dcc_scan.c:65-71 | every identifier without two underscores in a row is a name |
| ScanNames.AsciiNameReturned | dcc/dcc_scan.c:139-159 | every export of a name of letters, digits, underscores and dollar signs is returned |
| ScanNames.BadNameRefused | dcc/dcc_scan.c:146-158 | a name with two underscores in a row, or without a parenthesis after it, is an error |
| ScanPieces.RawSearchIsFirst | dcc/dcc_scan.c:34-42 | the one-pass search stops just after the first closing sequence, for every text and delimiter |
| ScanPieces.RawStringSkipped | dcc/dcc_scan.c:23-43 | a raw string literal is skipped exactly |
| ScanPieces.LongDelim | dcc/dcc_scan.c:24-33 | of a longer delimiter the search uses the first 17 characters, without a quote |
| ScanPieces.StringSkipped | dcc/dcc_scan.c:45-55 | an ordinary string literal is skipped exactly |
| ScanPieces.WordPassed | dcc/dcc_scan.c:131-163 | a word without `doarr` that ends in an even number of R is passed, whatever came before it |
| ScanPieces.OddPassed | dcc/dcc_scan.c:131-137 | one that ends in an odd number is passed with the character after it |
| ScanPieces.MissedStep | dcc/dcc_scan.c:139-140 | after that an export is passed like any text |
| ScanPieces.DeafUseStep | dcc/dcc_scan.c:139-140 | and so is any other use of `doarr` |
| ScanPieces.UseStep | dcc/dcc_scan.c:139-145 | a use of `doarr` that is no export is passed, with the start of what follows it |
| ScanPieces.ExportRecognised | dcc/dcc_scan.c:139-159 | an export is recognised and its name returned, with or without a blank before the name |
| ScanPieces.ScannerEnumeratesExports | dcc/dcc_scan.c:115-165 | on text made of the stated pieces the scans return exactly the exported names, in order, but for exports directly after an odd number of R and one character |
| ScanPieces.AllExportsIff | dcc/dcc_scan.c:131-140 | all exports are returned exactly when none stands there |
| ScanPieces.MissedExportExample | dcc/dcc_scan.c:131-140 | any plain export one blank after `FOR` is missed |
| ScanPieces.OnlyWellFormedIff | dcc/dcc_scan.c:145-146 | on such text without missed exports the names returned are those of the well-formed exports exactly when no name follows `exported` directly |
| ScanFound.FoundIsExport | dcc/dcc_scan.c:115-165 | on any text, every name returned stands there as an export, is an identifier without `__`, and reading goes on after its parenthesis; the export is well formed exactly when a blank stands before the name |
| ScanFound.NamesStandInText | dcc/dcc_scan.c:115-165 | the names of repeated scans stand in the text in order; all are spelled as well-formed exports if no identifier character follows `exported`, and none stands inside a word if none precedes `doarr` |
| ScanFound.DoarrInWord | dcc/dcc_scan.c:131-144 | for every word, `doarr` in it is looked at exactly when what stands before it in the word is a row of `d`, `do`, `doa`, `doar`, and `doarr` with one more character; otherwise reading goes on after it |
| ScanFound.ExportInWord | dcc/dcc_scan.c:131-159 | an export directly after such a row is returned; after any other identifier characters it is passed |
| ScanFound.GluedNameExample | dcc/dcc_scan.c:145-146 | a name directly after `exported` is returned |
| ScanFound.WordStartExample | dcc/dcc_scan.c:140-141 | an export directly after a letter is returned |
| ScanFound.SecondDoarrExample | dcc/dcc_scan.c:142 | an export directly after `doarrx` is returned |
| ScanFound.QuoteExample | dcc/dcc_scan.c:127-130 | an export inside a string literal after a quote in a character literal is returned |
| GenArgs.GenerateArgs | dcc/dcc_gen.c:83-97 | the loops emit the escaped arguments |
| GenArgs.ReadArg | dcc/dcc_gen.c:85-94 | reading an escaped argument gives it back if it is safe, and fewer characters or nothing if not |
| GenArgs.EmittedHasNoTwoMarks | dcc/dcc_gen.c:86-87 | no two question marks ever meet, so no trigraph can form |
| GenArgs.ArgsSurviveIffSafe | dcc/dcc_gen.c:83-97 | the arguments survive the C compiler exactly when no byte outside 32 to 126 stands directly before a hexadecimal digit |
| GenArgs.PrintableSurvive | dcc/dcc_gen.c:83-97 | arguments of bytes 32 to 126 survive |
| ArgPipeline.CommonSurvive | dcc/dcc_gen.c:142 | so do the options of every compiler run |
| GenArgs.GreedyEscapeExample | dcc/dcc_gen.c:93 | an argument that does not survive |
| GenBinary.WriteLine | dcc/dcc_gen.c:120-133 | 32 escapes and a splice fill the 130-byte buffer exactly |
| GenBinary.Generate | dcc/dcc_gen.c:115-137 | full lines and the remainder make up the literal |
| GenBinary.BinaryRoundTrip | dcc/dcc_gen.c:109-138 | the C compiler reads exactly the data back, for every length |
| Options.LookupOpt | dcc/dcc_options.c:175-190 | the backward loop computes the lookup |
| Options.LookupIsLongest | dcc/dcc_options.c:109-190 | every word gets the longest key that starts it, with the action of the next row that names one, or nothing |
| Options.LowerOptions | dcc/dcc_options.c:110-128 | what each option of one lower-case letter does |
| Options.UpperOptions | dcc/dcc_options.c:130-151 | the same for the upper-case letters |
| Options.IncludeOptions | dcc/dcc_options.c:153-154 | preprocessor paths and files take a value and concern the build only |
| Options.OtherOptions | dcc/dcc_options.c:156-163 | standards and words for other tools are forwarded; the last two rows are help |
| ParseArgs.Config.Act | dcc/dcc_options.c:37-103 | each action's effect on the settings and the argument list |
| ParseArgs.Parse | dcc/dcc_options.c:247-302 | the loop yields the arguments, positions and settings of the command line's items, within arrays of argc elements |
| ParseArgs.ItemsCoverWords | dcc/dcc_options.c:249-300 | every word is in exactly one item, in order |
| ParseArgs.WordKinds | dcc/dcc_options.c:249-260 | a word is an input exactly if it starts with neither `@` nor `-`; `@` words and unknown options are errors |
| ParseArgs.OptionMeans | dcc/dcc_options.c:261-294 | an option is its key with its value in one word or two; exactly when the value is in the next word, and when the option is an error |
| ParseArgs.FlagsMean | dcc/dcc_options.c:74-90 | over a whole command line, each flag is set exactly if an option sets it |
| ParseArgs.OutputMeans | dcc/dcc_options.c:65-72 | the output is that of the first `-o` |
| ParseArgs.InvalidMeans | dcc/dcc_options.c:41-98 | the command line is invalid exactly if a word is refused, another language is named, or a second output |
| ParseArgs.ArgsFit | dcc/dcc.c:166-172 | forwarded words and inputs together are no more than the words of the items |
| ParseArgs.CommandLineFits | dcc/dcc.c:166-172 | the same for every command line: arrays of argc elements are large enough |
| ParseArgs.FilePositionKeepsOrder | dcc/dcc_gen.c:174-178 | an input put at its position gives the forwarded words and that input in the order of the command line |
| ArgPipeline.ExecCxx | dcc/dcc_gen.c:161-185 | the compiler's vector, word by word, inside the buffer |
| ArgPipeline.BuildTimeRuns | dcc/dcc_gen.c:228-257 | the one buffer is large enough for both build-time runs |
| ArgPipeline.LinkerLine | dcc/dcc_gen.c:506-518 | and for the linker line |
| ArgPipeline.BuildRuntimeArgs | dcc/dcc_gen.c:187-202 | and for the arguments kept for run time, with the position as stored |
| ArgPipeline.ExecuteCompiler | runtime/io.c:157-171 | for any stored position: the copying stays inside its arrays exactly when the position is between zero and n, and then the vector of n+4 elements is filled exactly |
| ArgPipeline.PositionIsLow | dcc/dcc_gen.c:187-202 | the stored position is too low by exactly the number of build-only words after the input |
| ArgPipeline.StoredInBoundsIff | dcc/dcc_gen.c:187-202 | the stored position is inside the kept words exactly when the build-only words after the input are no more than the kept words before it |
| ArgPipeline.FillInBoundsIff | runtime/io.c:157-171 | the same for an input of any command line |
| ArgPipeline.FileInPlaceIff | runtime/io.c:157-171 | the file is in its place exactly when there is no such word |
| ArgPipeline.RuntimeFollowsCommandLine | dcc/dcc_options.c:46-56 | the same for an input of any command line: run-time words in order, the file where the input stood, exactly when no build-only option follows |
| ArgPipeline.MisplacedExample | dcc/dcc_gen.c:200 | a command line whose file comes too early |
| ArgPipeline.OutOfBoundsExample | dcc/dcc_gen.c:200 | a command line whose stored position is -1 |
| ArgPipeline.GeneratedVectorIff | dcc/dcc_gen.c:83-97 | from the command line through the generated C file: what the C compiler reads back gives the vector meant exactly when every kept word survives and no build-only option follows |
| Options.IncludeIsBuildOnly | dcc/dcc_options.c:109-190 | `-include` takes its value from the next word and is not forwarded to run time |
| Setup.NameMeans | dcc/dcc.c:209-212 | a temporary name is what 63 characters hold of number, dot and base name |
| Setup.TmpOutputNamesAreGood | dcc/dcc.c:209-212 | cut or not, the temporary output names differ from each other and from the driver's own names |
| Setup.VisitPath | dcc/dcc.c:110-124 | the search path is split at its colons and left as it was |
| Setup.ElementsJoin | dcc/dcc.c:110-124 | the elements contain no colon and joined by colons are the path |
| Build.Driver.RunTool | dcc/dcc_gen.c:210-226 | a tool leaves no child behind and touches only its output, as its event says; it succeeds exactly when forking and the tool do |
| Build.Driver.ProcessSingleFile | dcc/dcc_gen.c:277-422 | whatever fails, children are as before, and after a failure so is the directory, all four names having been tried; success means that nothing failed, that exactly the tools were run and the files removed which the scan's result asks for, and that the output is what was written last, or empty where nothing was found; where nothing fails it succeeds |
| Build.Driver.CleanUp | dcc/dcc_gen.c:407-421 | the error exit waits for each child left, once, and removes all names it may have made |
| Build.Driver.UnlinkAll | dcc/dcc_gen.c:426-431 | every name is attempted once, in order; for different names the result says whether all were there |
| Build.Driver.CatUnlinkClose | dcc/dcc_gen.c:433-462 | on every path each name is attempted exactly once, in order; success means the joint contents were written, and it succeeds where all names are there and nothing fails |
| Build.Driver.JoinOutputs | dcc/dcc_gen.c:530-537 | success delivers the joint contents in order, and it succeeds exactly when all names are there and no step fails |
| Build.Driver.MoveFromTmp | dcc/dcc_gen.c:464-475 | the file has left the directory; success means its contents arrived; it succeeds where the file is there and renaming does |
| Build.Driver.CombineObjects | dcc/dcc_gen.c:506-528 | linking leaves an empty directory; success means that exactly what the linker wrote has arrived, and that every object was there; it succeeds where they are and nothing fails |
| Build.Driver.MoveEach | dcc/dcc_gen.c:538-553 | an empty directory, nothing but the destinations changed; success means that all objects were delivered, in order; it succeeds where all are there and nothing fails |
| Build.LastOneStays | dcc/dcc_gen.c:538-553 | after that each destination holds the last object sent to it |
| Build.AllSurviveIff | dcc/dcc_gen.c:538-553 | every object is at its destination exactly when objects sent to one place are equal: always if the destinations differ, and of different objects only then |
| Build.ObjectOf | dcc/dcc_gen.c:542-549 | the object of a path is its base name's stem with the extension `.o` |
| Build.SameNameCollides | dcc/dcc_gen.c:542-549 | of two inputs with one base name the first object is lost unless both are equal |
| Build.CollisionExample | dcc/dcc_gen.c:542-549 | two such inputs |
| Build.Driver.ProcessAll | dcc/dcc_gen.c:497-502 | inputs are processed one after the other; after a failure nothing is left, and where nothing fails all outputs are there |
| Build.Driver.GenMain | dcc/dcc_gen.c:496-558 | for every pattern of failures the run ends with an empty directory, no child left and only its destinations changed; where nothing fails it succeeds; success means, in each of the four modes, that every input was processed as above and the outputs were joined, linked or delivered in input order |
| Setup.CollisionRun | dcc/dcc_gen.c:538-553 | a run on two inputs of one name that succeeds and loses the first of two different objects |

## Left out

- Cache.RunRefinesFresh: the compiler and the loader are abstract; what the generated C++ means, and freeing or unloading code, are not modelled.
- Cache.Runtime.Compile: opening and writing the generated source never fail; the program does not check them (call.cpp:90-100).
- Cache.Runtime.Invoke: the hash table is a sequence searched by key equality; buckets and iteration order are not modelled.
- RefCount.Heap.CopyAssign: the source and target are not fields of nodes, which are private and constant in the program.
- RefCount.Heap.NewNode: node numbers are never reused, while addresses may be.
- RefCount.Heap.CallExpr: allocation never fails.
- Exprs.SlotsAdvance: parameter counts are not reduced modulo 2^64.
- ScanPieces.ScannerEnumeratesExports: texts outside the stated pieces, where the scanner is a heuristic: quotes in character literals, words that end in an odd number of R directly before a quote or the end, words with `doarr` after other characters (for those see ScanFound.DoarrInWord), and `doarr` directly before a string.
- ScanStream.Stream.ScanIdent: memory for identifiers is neither freed nor exhausted.
- GenArgs.ArgsSurviveIffSafe: universal character names and encoding prefixes are not read by the decoder, and never written.
- ArgPipeline.ExecuteCompiler: what a copy outside the arrays does is not modelled; it ends the run of the model.
- ParseArgs.Parse: help output and error messages; asking for help ends the parse.
- Build.Driver.GenMain: waiting and removing an existing file never fail, opening the C file succeeds, tools touch only their output, and whether a wait ends is not modelled.
- Build.Driver.MoveEach: an input whose name ends in a slash, which the program excludes by an assertion (dcc_gen.c:544).
- Processes, pipes, descriptors, dynamic loading, signals, and the child that removes the run-time directory.
- The typed wrappers in include/doarr/expr.hpp, which add no node kinds, and the swap of two handles.
- The fixed texts around the generated C definitions and the environment lookup.
