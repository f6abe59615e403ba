/**
 The command line: the option table and the classification of words (dcc/dcc_options.c, lines 10-31,
 107-190 and 247-302).
 */
module Options {
  import opened Wrappers

  datatype Syntax = NoArg | Immediate | Separate | ImmOrSep

  datatype Action = Forward | ForwardNoRt | Reject | SetOutput | SetCompile | SetPreproc
                  | SetNowarn | SetVerbose | SetLanguage | HelpAndExit

  /** A row of the table; a key without an action has that of the next row that names one. */
  datatype Row = Gap | Key(str: string, syntax: Syntax, action: Option<Action>)

  const LOWER_KEYS: seq<Row> := [
    Key("-c", NoArg, Some(SetCompile)), Key("-d", Immediate, Some(Reject)),
    Key("-e", ImmOrSep, Some(Reject)), Key("-f", Immediate, Some(Forward)),
    Key("-g", Immediate, Some(Forward)), Key("-h", ImmOrSep, Some(Reject)),
    Key("-l", ImmOrSep, Some(Forward)), Key("-m", Immediate, Some(Forward)),
    Key("-n", NoArg, Some(Reject)), Key("-o", ImmOrSep, Some(SetOutput)),
    Key("-p", NoArg, Some(Reject)), Key("-pg", NoArg, Some(Reject)),
    Key("-r", NoArg, Some(Reject)), Key("-s", NoArg, Some(Reject)),
    Key("-t", NoArg, Some(Forward)), Key("-u", ImmOrSep, Some(Forward)),
    Key("-v", NoArg, Some(SetVerbose)), Key("-w", NoArg, Some(SetNowarn)),
    Key("-x", ImmOrSep, Some(SetLanguage)), Key("-z", ImmOrSep, Some(Forward)),
    Gap]

  const UPPER_KEYS: seq<Row> := [
    Key("-A", ImmOrSep, Some(Forward)), Key("-B", ImmOrSep, Some(Forward)),
    Key("-C", NoArg, None), Key("-CC", NoArg, Some(Forward)),
    Key("-D", ImmOrSep, Some(Forward)), Key("-E", NoArg, Some(SetPreproc)),
    Key("-F", ImmOrSep, Some(Forward)), Key("-H", NoArg, Some(Forward)),
    Key("-I", ImmOrSep, Some(Forward)), Key("-J", ImmOrSep, Some(Reject)),
    Key("-L", ImmOrSep, Some(Forward)), Key("-M", Immediate, Some(Reject)),
    Key("-N", NoArg, Some(Reject)), Key("-O", Immediate, Some(Forward)),
    Key("-P", NoArg, Some(Forward)), Key("-Q", NoArg, Some(Forward)),
    Key("-R", ImmOrSep, Some(Reject)), Key("-S", NoArg, Some(Reject)),
    Key("-T", ImmOrSep, Some(Reject)), Key("-U", ImmOrSep, Some(Forward)),
    Key("-W", Immediate, Some(Forward)), Key("-X", NoArg, Some(Reject)),
    Key("-Z", NoArg, Some(Reject)),
    Gap]

  const INCLUDE_KEYS: seq<Row> := [
    Key("-iquote", ImmOrSep, None), Key("-iprefix", ImmOrSep, None),
    Key("-iwithprefix", ImmOrSep, None), Key("-iwithprefixbefore", ImmOrSep, None),
    Key("-isysroot", ImmOrSep, None), Key("-imultilib", ImmOrSep, Some(ForwardNoRt)),
    Key("-include", ImmOrSep, None), Key("-imacros", ImmOrSep, Some(ForwardNoRt)),
    Gap]

  const OTHER_KEYS: seq<Row> := [
    Key("-std", Immediate, None), Key("--std", Immediate, None),
    Key("-pedantic", NoArg, None), Key("-pedantic-errors", NoArg, None),
    Gap,
    Key("-Wp,", Immediate, None), Key("-Xpreprocessor", Separate, Some(Forward)),
    Key("-Wl,", Immediate, None), Key("-Xlinker", Separate, Some(Forward)),
    Key("-Wa,", Immediate, None), Key("-Xassembler", Separate, Some(Forward)),
    Gap,
    Key("-help", Immediate, None), Key("--help", Immediate, Some(HelpAndExit))]

  const OPTION_KEYS: seq<Row> := LOWER_KEYS + UPPER_KEYS + (INCLUDE_KEYS + OTHER_KEYS)

  // ---------- looking a word up

  datatype Match = Match(str: string, syntax: Syntax, action: Action)

  /** The first row from row `n` upwards, that is backwards, whose key starts the word. */
  function LookupUp(table: seq<Row>, word: string, n: nat, action: Action): (r: Option<Match>)
    requires n <= |table|
    ensures r.Some? ==> r.value.str <= word
  {
    if n == 0 then None
    else
      match table[n - 1]
      case Gap => LookupUp(table, word, n - 1, action)
      case Key(str, syntax, a) =>
        var action' := if a.Some? then a.value else action;
        if str <= word then Some(Match(str, syntax, action')) else LookupUp(table, word, n - 1, action')
  }

  /** The initial action is never used: the last row names one. */
  function Lookup(word: string): Option<Match> {
    LookupUp(OPTION_KEYS, word, |OPTION_KEYS|, Reject)
  }

  method LookupOpt(word: string) returns (r: Option<Match>)
    ensures r == Lookup(word)
  {
    hide OPTION_KEYS;
    var i: nat := |OPTION_KEYS|;
    var action := Reject;
    while i > 0
      invariant i <= |OPTION_KEYS|
      invariant LookupUp(OPTION_KEYS, word, i, action) == Lookup(word)
    {
      i := i - 1;
      var curr := OPTION_KEYS[i];
      if curr == Gap {
        continue;
      }
      if curr.action.Some? {
        action := curr.action.value;
      }
      if curr.str <= word {
        return Some(Match(curr.str, curr.syntax, action));
      }
    }
    return None;
  }

  /** No key is a proper prefix of a key in an earlier row. */
  ghost predicate LongestLast(table: seq<Row>) {
    forall i, j :: 0 <= i < j < |table| && table[i].Key? && table[j].Key? ==> !(table[j].str < table[i].str)
  }

  /** The action of the first row from row `i` on that names one. */
  function NextAction(table: seq<Row>, i: nat): Action
    decreases |table| - i
  {
    if i >= |table| then Reject
    else if table[i].Key? && table[i].action.Some? then table[i].action.value
    else NextAction(table, i + 1)
  }

  ghost predicate IsLongestMatch(table: seq<Row>, word: string, m: Match) {
    && m.str <= word
    && (exists i :: 0 <= i < |table| && table[i].Key?
          && m == Match(table[i].str, table[i].syntax, NextAction(table, i)))
    && forall i :: 0 <= i < |table| && table[i].Key? && table[i].str <= word ==> |table[i].str| <= |m.str|
  }

  lemma {:induction false} LookupUpIsLongest(table: seq<Row>, word: string, n: nat)
    requires LongestLast(table) && n <= |table|
    requires forall i :: n <= i < |table| && table[i].Key? ==> !(table[i].str <= word)
    ensures
      match LookupUp(table, word, n, NextAction(table, n))
      case None => forall i :: 0 <= i < |table| && table[i].Key? ==> !(table[i].str <= word)
      case Some(m) => IsLongestMatch(table, word, m)
  {
    if n > 0 {
      var row := table[n - 1];
      if row.Key? && row.str <= word {
        forall i | 0 <= i < |table| && table[i].Key? && table[i].str <= word
          ensures |table[i].str| <= |row.str|
        {
          assert i < n;
          if |table[i].str| > |row.str| {
            PrefixesCompare(row.str, table[i].str, word);
          }
        }
      } else {
        LookupUpIsLongest(table, word, n - 1);
      }
    }
  }

  lemma PrefixesCompare(a: string, b: string, word: string)
    requires a <= word && b <= word && |a| < |b|
    ensures a < b
  {
    assert a == word[..|a|] && b == word[..|b|];
    assert b[..|a|] == a;
  }

  // ---------- the table

  lemma LowerKeys(i: nat)
    requires i < |LOWER_KEYS| && LOWER_KEYS[i].Key?
    ensures var s := LOWER_KEYS[i].str;
      && (|s| == 2 || (|s| == 3 && i == 11 && s[1] == 'p'))
      && 'a' <= s[1] <= 'z' && (|s| == 2 && s[1] == 'p' ==> i == 10)
  {
  }

  lemma UpperKeys(i: nat)
    requires i < |UPPER_KEYS| && UPPER_KEYS[i].Key?
    ensures var s := UPPER_KEYS[i].str;
      && (|s| == 2 || (|s| == 3 && i == 3 && s[1] == 'C'))
      && 'A' <= s[1] <= 'Z' && (|s| == 2 && s[1] == 'C' ==> i == 2)
  {
  }

  lemma IncludeKeys(i: nat, j: nat)
    requires i < j < |INCLUDE_KEYS| && INCLUDE_KEYS[i].Key? && INCLUDE_KEYS[j].Key?
    ensures var s, t := INCLUDE_KEYS[i].str, INCLUDE_KEYS[j].str;
      s[2] != t[2] || s[3] != t[3] || |s| < |t|
  {
  }

  lemma IncludeKey(i: nat)
    requires i < |INCLUDE_KEYS| && INCLUDE_KEYS[i].Key?
    ensures var s := INCLUDE_KEYS[i].str; |s| >= 4 && s[1] == 'i'
  {
  }

  lemma OtherKeys(i: nat, j: nat)
    requires i < j < |OTHER_KEYS| && OTHER_KEYS[i].Key? && OTHER_KEYS[j].Key?
    ensures var s, t := OTHER_KEYS[i].str, OTHER_KEYS[j].str;
      s[1] != t[1] || s[2] != t[2] || |s| < |t|
  {
  }

  lemma OtherKey(i: nat)
    requires i < |OTHER_KEYS| && OTHER_KEYS[i].Key?
    ensures var s := OTHER_KEYS[i].str; |s| >= 4 && s[1] != 'i'
  {
  }

  lemma PrefixMeans(a: string, b: string)
    requires a < b
    ensures |a| < |b| && forall k :: 0 <= k < |a| ==> a[k] == b[k]
  {
  }

  /** Rows of one part of the table, or of two parts in order. */
  lemma LowerUpper(i: nat, j: nat)
    requires i < j < |LOWER_KEYS + UPPER_KEYS|
    requires (LOWER_KEYS + UPPER_KEYS)[i].Key? && (LOWER_KEYS + UPPER_KEYS)[j].Key?
    ensures var a, b := (LOWER_KEYS + UPPER_KEYS)[i].str, (LOWER_KEYS + UPPER_KEYS)[j].str;
      !(b < a) && |a| < 4 && |b| < 4
  {
    var n := |LOWER_KEYS|;
    if i < n { LowerKeys(i); } else { UpperKeys(i - n); }
    if j < n { LowerKeys(j); } else { UpperKeys(j - n); }
    hide LOWER_KEYS, UPPER_KEYS;
    var a, b := (LOWER_KEYS + UPPER_KEYS)[i].str, (LOWER_KEYS + UPPER_KEYS)[j].str;
    if b < a { PrefixMeans(b, a); }
  }

  lemma ShortKey(i: nat)
    requires i < |LOWER_KEYS + UPPER_KEYS| && (LOWER_KEYS + UPPER_KEYS)[i].Key?
    ensures |(LOWER_KEYS + UPPER_KEYS)[i].str| < 4
  {
    var n := |LOWER_KEYS|;
    if i < n { LowerKeys(i); } else { UpperKeys(i - n); }
  }

  lemma IncludeOther(i: nat, j: nat)
    requires i < j < |INCLUDE_KEYS + OTHER_KEYS|
    requires (INCLUDE_KEYS + OTHER_KEYS)[i].Key? && (INCLUDE_KEYS + OTHER_KEYS)[j].Key?
    ensures var a, b := (INCLUDE_KEYS + OTHER_KEYS)[i].str, (INCLUDE_KEYS + OTHER_KEYS)[j].str;
      !(b < a) && |a| >= 4 && |b| >= 4
  {
    var n := |INCLUDE_KEYS|;
    if i < n { IncludeKey(i); } else { OtherKey(i - n); }
    if j < n { IncludeKey(j); } else { OtherKey(j - n); }
    if j < n { IncludeKeys(i, j); } else if i >= n { OtherKeys(i - n, j - n); }
    hide INCLUDE_KEYS, OTHER_KEYS;
    var a, b := (INCLUDE_KEYS + OTHER_KEYS)[i].str, (INCLUDE_KEYS + OTHER_KEYS)[j].str;
    if b < a { PrefixMeans(b, a); }
  }

  lemma LongKey(i: nat)
    requires i < |INCLUDE_KEYS + OTHER_KEYS| && (INCLUDE_KEYS + OTHER_KEYS)[i].Key?
    ensures |(INCLUDE_KEYS + OTHER_KEYS)[i].str| >= 4
  {
    var n := |INCLUDE_KEYS|;
    if i < n { IncludeKey(i); } else { OtherKey(i - n); }
  }

  lemma TableIsLongestLast()
    ensures LongestLast(OPTION_KEYS)
  {
    hide LOWER_KEYS, UPPER_KEYS, INCLUDE_KEYS, OTHER_KEYS;
    var short, long := LOWER_KEYS + UPPER_KEYS, INCLUDE_KEYS + OTHER_KEYS;
    var n := |short|;
    forall i, j | 0 <= i < j < |OPTION_KEYS| && OPTION_KEYS[i].Key? && OPTION_KEYS[j].Key?
      ensures !(OPTION_KEYS[j].str < OPTION_KEYS[i].str)
    {
      if j < n {
        LowerUpper(i, j);
      } else if i < n {
        ShortKey(i);
        LongKey(j - n);
      } else {
        IncludeOther(i - n, j - n);
      }
    }
  }

  /**
   Every word gets the option whose key is the longest one that starts it, with the action of the next
   row that names one; or none if no key starts it.
   */
  lemma LookupIsLongest(word: string)
    ensures
      match Lookup(word)
      case None => forall i :: 0 <= i < |OPTION_KEYS| && OPTION_KEYS[i].Key? ==> !(OPTION_KEYS[i].str <= word)
      case Some(m) => IsLongestMatch(OPTION_KEYS, word, m)
  {
    hide OPTION_KEYS;
    TableIsLongestLast();
    LookupUpIsLongest(OPTION_KEYS, word, |OPTION_KEYS|);
  }

  // ---------- the options, letter by letter

  /** The options of one lower-case letter; the only longer one is `-pg`. */
  lemma LowerOptions(i: nat)
    requires i < |LOWER_KEYS| && LOWER_KEYS[i].Key? && LOWER_KEYS[i].str != "-pg"
    ensures var row := LOWER_KEYS[i];
      && |row.str| == 2 && row.str[0] == '-'
      && row.action == Some(
           if row.str[1] in "fglmtuz" then Forward
           else if row.str[1] in "dehnprs" then Reject
           else if row.str[1] == 'c' then SetCompile
           else if row.str[1] == 'o' then SetOutput
           else if row.str[1] == 'v' then SetVerbose
           else if row.str[1] == 'w' then SetNowarn
           else SetLanguage)
  {
  }

  /** What they take. */
  lemma LowerSyntax(i: nat)
    requires i < |LOWER_KEYS| && LOWER_KEYS[i].Key? && |LOWER_KEYS[i].str| == 2
    ensures var row := LOWER_KEYS[i];
      row.syntax ==
        if row.str[1] in "cnprstvw" then NoArg else if row.str[1] in "dfgm" then Immediate else ImmOrSep
  {
  }

  /** The options of one upper-case letter; the only longer one is `-CC`, whose action `-C` shares. */
  lemma UpperOptions(i: nat)
    requires i < |UPPER_KEYS| && UPPER_KEYS[i].Key? && UPPER_KEYS[i].str != "-CC"
    ensures var row := UPPER_KEYS[i];
      && |row.str| == 2 && row.str[0] == '-'
      && row.action ==
           if row.str[1] == 'C' then None
           else if row.str[1] == 'E' then Some(SetPreproc)
           else if row.str[1] in "JMNRSTXZ" then Some(Reject)
           else Some(Forward)
  {
  }

  /** What they take. */
  lemma UpperSyntax(i: nat)
    requires i < |UPPER_KEYS| && UPPER_KEYS[i].Key? && |UPPER_KEYS[i].str| == 2
    ensures var row := UPPER_KEYS[i];
      row.syntax ==
        if row.str[1] in "CEHNPQSXZ" then NoArg else if row.str[1] in "MOW" then Immediate else ImmOrSep
  {
  }

  /** All of these letters have their row, in alphabetical order. */
  lemma LettersInOrder()
    ensures |LOWER_KEYS| == 21 && |UPPER_KEYS| == 24
    ensures forall i :: 0 <= i < 11 ==> LOWER_KEYS[i].Key? && LOWER_KEYS[i].str == ['-', "cdefghlmnop"[i]]
    ensures LOWER_KEYS[11] == Key("-pg", NoArg, Some(Reject)) && LOWER_KEYS[20] == Gap
    ensures forall i :: 12 <= i < 20 ==> LOWER_KEYS[i].Key? && LOWER_KEYS[i].str == ['-', "rstuvwxz"[i - 12]]
    ensures forall i :: 0 <= i < 3 ==> UPPER_KEYS[i].Key? && UPPER_KEYS[i].str == ['-', "ABC"[i]]
    ensures UPPER_KEYS[3] == Key("-CC", NoArg, Some(Forward)) && UPPER_KEYS[23] == Gap
    ensures forall i :: 4 <= i < 23 ==> UPPER_KEYS[i].Key? && UPPER_KEYS[i].str == ['-', "DEFHIJLMNOPQRSTUWXZ"[i - 4]]
  {
  }

  lemma {:induction false} NextActionAt(table: seq<Row>, i: nat, j: nat)
    requires i <= j < |table| && table[j].Key? && table[j].action.Some?
    requires forall k :: i <= k < j ==> !(table[k].Key? && table[k].action.Some?)
    ensures NextAction(table, i) == table[j].action.value
    decreases j - i
  {
    if i < j {
      NextActionAt(table, i + 1, j);
    }
  }

  /** Paths and files for the preprocessor take a value and concern the build only. */
  lemma IncludeOptions(i: nat)
    requires i < |INCLUDE_KEYS| && INCLUDE_KEYS[i].Key?
    ensures INCLUDE_KEYS[i].syntax == ImmOrSep && NextAction(INCLUDE_KEYS, i) == ForwardNoRt
  {
    NextActionAt(INCLUDE_KEYS, i, if i <= 5 then 5 else 7);
  }

  /** Standards and words for the other tools are forwarded; the last two rows are the calls for help. */
  lemma OtherOptions(i: nat)
    requires i < |OTHER_KEYS| && OTHER_KEYS[i].Key?
    ensures NextAction(OTHER_KEYS, i) == if i < 12 then Forward else HelpAndExit
    ensures var row := OTHER_KEYS[i];
      row.syntax == if row.str[1] == 'p' then NoArg else if row.str[1] == 'X' then Separate else Immediate
  {
    NextActionAt(OTHER_KEYS, i, if i <= 6 then 6 else if i <= 8 then 8 else if i <= 10 then 10 else 13);
  }

  // ---------- an option that only the build-time compiler gets

  /** Rows that do not start the word are passed; the action carried along is the next one named. */
  lemma {:induction false} LookupPasses(table: seq<Row>, word: string, n: nat, m: nat)
    requires m <= n <= |table|
    requires forall i :: m <= i < n && table[i].Key? ==> !(table[i].str <= word)
    ensures LookupUp(table, word, n, NextAction(table, n)) == LookupUp(table, word, m, NextAction(table, m))
    decreases n - m
  {
    if m < n {
      LookupPasses(table, word, n - 1, m);
    }
  }

  const INCLUDE := "-include"

  /** The row of `-include` among those that start alike, and the action it shares with the row after it. */
  lemma IncludeRow()
    ensures INCLUDE_KEYS[6] == Key(INCLUDE, ImmOrSep, None)
    ensures INCLUDE_KEYS[7].Key? && INCLUDE_KEYS[7].action == Some(ForwardNoRt) && !(INCLUDE_KEYS[7].str <= INCLUDE)
    ensures |INCLUDE_KEYS| == 9 && INCLUDE_KEYS[8] == Gap
  {
    assert INCLUDE_KEYS[7].str[2] == 'm' && INCLUDE[2] == 'n';
  }

  /** `-include` takes its value from the next word and is not forwarded to the run-time compiler. */
  lemma IncludeIsBuildOnly()
    ensures Lookup(INCLUDE) == Some(Match(INCLUDE, ImmOrSep, ForwardNoRt))
  {
    IncludeRow();
    assert INCLUDE[1] == 'i';
    hide LOWER_KEYS, UPPER_KEYS, INCLUDE_KEYS, OTHER_KEYS, INCLUDE;
    var m := |LOWER_KEYS + UPPER_KEYS|;
    var n := |OPTION_KEYS|;
    forall i | m + 7 <= i < n && OPTION_KEYS[i].Key?
      ensures !(OPTION_KEYS[i].str <= INCLUDE)
    {
      if i >= m + 9 {
        OtherKey(i - m - 9);
      }
    }
    LookupPasses(OPTION_KEYS, INCLUDE, n, m + 7);
    assert OPTION_KEYS[m + 6] == INCLUDE_KEYS[6] && OPTION_KEYS[m + 7] == INCLUDE_KEYS[7];
    assert NextAction(OPTION_KEYS, m + 7) == ForwardNoRt;
    assert INCLUDE <= INCLUDE;
  }
}
