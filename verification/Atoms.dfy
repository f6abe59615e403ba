/**
 The lexical shapes of raw expression atoms: character literals, numbers and qualified names
 (runtime/expr_all.cpp, lines 345-415).
 */
module Atoms {
  import opened Wrappers
  import opened Decimal

  const NUL: char := '\0'

  /** The C string that starts a NUL-terminated piece of memory. */
  function CStr(code: string): string {
    if code == [] || code[0] == NUL then [] else [code[0]] + CStr(code[1..])
  }

  predicate NoNul(t: string) {
    forall i :: 0 <= i < |t| ==> t[i] != NUL
  }

  lemma {:induction false} CStrOfTerminated(t: string)
    requires NoNul(t)
    ensures CStr(t + [NUL]) == t
  {
    if t != [] {
      assert (t + [NUL])[1..] == t[1..] + [NUL];
      CStrOfTerminated(t[1..]);
    }
  }

  predicate IsIdentStart(c: char) {
    'A' <= c <= 'Z' || c == '_' || 'a' <= c <= 'z'
  }

  predicate IsIdentCont(c: char) {
    IsIdentStart(c) || IsDigit(c)
  }

  /** Identifiers are made of letters, digits and underscores. */
  lemma IdentCharsAre(c: char)
    ensures IsIdentCont(c) <==> 'A' <= c <= 'Z' || 'a' <= c <= 'z' || '0' <= c <= '9' || c == '_'
    ensures IsIdentStart(c) <==> IsIdentCont(c) && !('0' <= c <= '9')
  {
  }

  predicate IsIdent(t: string) {
    && t != []
    && IsIdentStart(t[0])
    && forall i :: 0 <= i < |t| ==> IsIdentCont(t[i])
  }

  /** Identifiers separated by `::`. */
  function Join(parts: seq<string>): string {
    if parts == [] then []
    else if |parts| == 1 then parts[0]
    else parts[0] + "::" + Join(parts[1..])
  }

  ghost predicate IsPathOf(t: string, parts: seq<string>) {
    parts != [] && (forall i :: 0 <= i < |parts| ==> IsIdent(parts[i])) && t == Join(parts)
  }

  ghost predicate IsPath(t: string) {
    exists parts :: IsPathOf(t, parts)
  }

  /** A qualified name: a path with an optional leading `::`. */
  ghost predicate IsQname(t: string) {
    IsPath(t) || ("::" <= t && IsPath(t[2..]))
  }

  predicate IsCharLiteral(t: string) {
    && |t| == 3 && t[0] == '\'' && t[2] == '\''
    && 32 <= t[1] as int < 127 && t[1] != '\'' && t[1] != '\\'
  }

  predicate IsNumber(t: string) {
    t != [] && AllDigits(t)
  }

  ghost predicate IsAtom(t: string) {
    IsCharLiteral(t) || IsNumber(t) || IsQname(t)
  }

  /** The characters that numbers and qualified names are made of. */
  predicate IsWordChar(c: char) {
    IsIdentCont(c) || c == ':'
  }

  predicate IsWord(t: string) {
    t != [] && forall i :: 0 <= i < |t| ==> IsWordChar(t[i])
  }

  lemma {:induction false} JoinIsWord(parts: seq<string>)
    requires parts != [] && forall i :: 0 <= i < |parts| ==> IsIdent(parts[i])
    ensures IsWord(Join(parts))
  {
    if |parts| > 1 {
      JoinIsWord(parts[1..]);
    }
  }

  lemma AtomIsLiteralOrWord(t: string)
    requires IsAtom(t)
    ensures IsCharLiteral(t) || IsWord(t)
    ensures NoNul(t)
  {
    if IsPath(t) {
      var parts :| IsPathOf(t, parts);
      JoinIsWord(parts);
    } else if "::" <= t && IsPath(t[2..]) {
      var parts :| IsPathOf(t[2..], parts);
      JoinIsWord(parts);
      assert t == t[..2] + t[2..];
    }
  }

  // ---------- recognising qualified names

  /** The length of the longest run of identifier characters at the start of `s`. */
  function IdentRun(s: string): (n: nat)
    ensures n <= |s|
    ensures forall i :: 0 <= i < n ==> IsIdentCont(s[i])
    ensures n < |s| ==> !IsIdentCont(s[n])
  {
    if s == [] || !IsIdentCont(s[0]) then 0 else 1 + IdentRun(s[1..])
  }

  lemma RunIs(s: string, n: nat)
    requires n <= |s| && forall i :: 0 <= i < n ==> IsIdentCont(s[i])
    requires n < |s| ==> !IsIdentCont(s[n])
    ensures IdentRun(s) == n
  {
  }

  /** What a path looks like from its front: one identifier, alone or followed by `::` and a path. */
  ghost predicate UnfoldsToPath(s: string) {
    && s != [] && IsIdentStart(s[0])
    && (IdentRun(s) == |s| || ("::" <= s[IdentRun(s)..] && IsPath(s[IdentRun(s) + 2..])))
  }

  lemma PathUnfolds(s: string)
    requires IsPath(s)
    ensures UnfoldsToPath(s)
  {
    var parts :| IsPathOf(s, parts);
    var first := parts[0];
    assert IsIdent(first);
    if |parts| == 1 {
      RunIs(s, |first|);
    } else {
      var rest := Join(parts[1..]);
      assert s == first + ("::" + rest);
      assert s[|first|] == ':';
      RunIs(s, |first|);
      assert s[|first|..] == "::" + rest;
      assert s[|first| + 2..] == rest;
      assert IsPathOf(rest, parts[1..]);
    }
  }

  lemma PathFolds(s: string)
    requires UnfoldsToPath(s)
    ensures IsPath(s)
  {
    var n := IdentRun(s);
    var first := s[..n];
    assert IsIdentCont(s[0]);
    assert IsIdent(first);
    if n == |s| {
      assert first == s;
      assert IsPathOf(s, [first]);
    } else {
      var rest :| IsPathOf(s[n + 2..], rest);
      var parts := [first] + rest;
      assert parts[1..] == rest;
      assert s[n..] == "::" + s[n + 2..] by {
        assert s[n..][..2] == "::";
      }
      assert s == first + "::" + s[n + 2..];
      assert IsPathOf(s, parts);
    }
  }

  lemma PathUnfold(s: string)
    ensures IsPath(s) <==> UnfoldsToPath(s)
  {
    if IsPath(s) { PathUnfolds(s); }
    if UnfoldsToPath(s) { PathFolds(s); }
  }

  /** One round of the recogniser: the identifier that starts at `start` ends at `p`. */
  lemma PathStep(t: string, start: nat, p: nat)
    requires start < p <= |t| && IsIdentStart(t[start])
    requires forall i :: start <= i < p ==> IsIdentCont(t[i])
    requires p < |t| ==> !IsIdentCont(t[p])
    ensures IsPath(t[start..]) <==>
      (p == |t| || (p + 1 < |t| && t[p] == ':' && t[p + 1] == ':' && IsPath(t[p + 2..])))
  {
    var s := t[start..];
    PathUnfold(s);
    RunIs(s, p - start);
    var tail := s[p - start..];
    assert tail == t[p..];
    if "::" <= tail {
      assert tail[..2] == "::";
      assert tail[0] == ':' && tail[1] == ':';
      assert s[p - start + 2..] == t[p + 2..];
    }
    if p + 1 < |t| && t[p] == ':' && t[p + 1] == ':' {
      assert tail[..2] == "::";
      assert s[p - start + 2..] == t[p + 2..];
    }
  }

  lemma PathStarts(t: string, start: nat)
    requires start <= |t|
    requires IsPath(t[start..])
    ensures start < |t| && IsIdentStart(t[start])
  {
    PathUnfold(t[start..]);
  }

  lemma LeadingColons(t: string)
    ensures ("::" <= t) <==> (|t| >= 2 && t[0] == ':' && t[1] == ':')
    ensures t != [] && t[0] == ':' ==> !IsPath(t)
  {
  }

  /**
   Walks a NUL-terminated name and returns the offset just past its terminator, or nothing when the
   name is not a qualified name. `t` is the string before the terminator.
   */
  method ValidQnameEnd(name: string, ghost t: string) returns (end: Option<nat>)
    requires NoNul(t) && |t| < |name| && name[..|t|] == t && name[|t|] == NUL
    ensures end.Some? <==> IsQname(t)
    ensures end.Some? ==> end.value == |t| + 1
  {
    ghost var n := |t|;
    assert forall i :: 0 <= i < n ==> name[i] == t[i];
    LeadingColons(t);
    assert t[0..] == t;
    var p := 0;
    if name[0] == ':' {
      if name[1] == ':' {
        p := 2;
      } else {
        return None;
      }
    }
    while true
      invariant p <= n
      invariant IsQname(t) <==> IsPath(t[p..])
      decreases n - p
    {
      ghost var start := p;
      if IsPath(t[start..]) {
        PathStarts(t, start);
      }
      p := p + 1;
      if !IsIdentStart(name[p - 1]) {
        return None;
      }
      while IsIdentCont(name[p])
        invariant start < p <= n
        invariant forall i :: start <= i < p ==> IsIdentCont(t[i])
        decreases n - p
      {
        p := p + 1;
      }
      PathStep(t, start, p);
      p := p + 1;
      if name[p - 1] == NUL {
        return Some(p);
      } else if name[p - 1] == ':' {
        p := p + 1;
        if name[p - 1] != ':' {
          return None;
        }
      } else {
        return None;
      }
    }
  }
}
