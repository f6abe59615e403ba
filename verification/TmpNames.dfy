/**
 Temporary file names: a 13-digit counter in base 26 kept in place at the end of a path
 (runtime/io.c, lines 27, 89 and 93-129; runtime/io.h, lines 15-26).
 */
module TmpNames {
  import opened Atoms

  const TMP_PATH_SIZE := 32
  const TMP_PATH_LEN := 31
  const TMP_EXT_LEN := 4
  const PREFIX_LEN := 17
  const COUNTER_LEN := 13

  // ---------- the counter as a number

  predicate IsCounter(s: string) {
    forall i :: 0 <= i < |s| ==> 'a' <= s[i] <= 'z'
  }

  function Letter(d: nat): char
    requires d < 26
  {
    ('a' as int + d) as char
  }

  /** The number written in base 26, most significant digit first. */
  function Value(s: string): nat
    requires IsCounter(s)
  {
    if s == [] then 0 else 26 * Value(s[..|s| - 1]) + (s[|s| - 1] as int - 'a' as int)
  }

  function Pow26(k: nat): nat {
    if k == 0 then 1 else 26 * Pow26(k - 1)
  }

  /** The `k` lowest base-26 digits of `n`. */
  function Counter(n: nat, k: nat): (s: string)
    ensures |s| == k && IsCounter(s)
  {
    if k == 0 then [] else Counter(n / 26, k - 1) + [Letter(n % 26)]
  }

  lemma {:induction false} ValueOfCounter(n: nat, k: nat)
    requires n < Pow26(k)
    ensures Value(Counter(n, k)) == n
  {
    if k > 0 {
      ValueOfCounter(n / 26, k - 1);
      assert Counter(n, k)[..k - 1] == Counter(n / 26, k - 1);
    }
  }

  lemma {:induction false} CounterOfValue(s: string)
    requires IsCounter(s)
    ensures Value(s) < Pow26(|s|)
    ensures Counter(Value(s), |s|) == s
  {
    if s != [] {
      CounterOfValue(s[..|s| - 1]);
    }
  }

  predicate AllZ(s: string) {
    forall i :: 0 <= i < |s| ==> s[i] == 'z'
  }

  function Repeat(c: char, n: nat): string {
    seq(n, _ => c)
  }

  /** Replacing the trailing `z`s by `a`s and advancing the letter before them adds one. */
  lemma {:induction false} CarryAddsOne(s: string, j: nat)
    requires IsCounter(s) && j < |s| && s[j] != 'z' && AllZ(s[j + 1..])
    ensures
      var t := s[..j] + [Letter(s[j] as int - 'a' as int + 1)] + Repeat('a', |s| - 1 - j);
      IsCounter(t) && Value(t) == Value(s) + 1
  {
    var t := s[..j] + [Letter(s[j] as int - 'a' as int + 1)] + Repeat('a', |s| - 1 - j);
    var n := |s| - 1;
    if j == n {
      assert t[..n] == s[..n];
    } else {
      assert s[n] == s[j + 1..][n - j - 1] == 'z';
      assert s[..n][j + 1..] == s[j + 1..][..n - j - 1];
      CarryAddsOne(s[..n], j);
      assert t[..n] == s[..n][..j] + [Letter(s[j] as int - 'a' as int + 1)] + Repeat('a', n - 1 - j);
    }
  }

  lemma {:induction false} AllZIsLast(s: string)
    requires IsCounter(s)
    ensures AllZ(s) <==> Value(s) == Pow26(|s|) - 1
  {
    if s != [] {
      CounterOfValue(s[..|s| - 1]);
      AllZIsLast(s[..|s| - 1]);
      assert AllZ(s) <==> AllZ(s[..|s| - 1]) && s[|s| - 1] == 'z';
    }
  }

  // ---------- names

  /** How many names there are; the counter must not be advanced past the last one. */
  const NAME_LIMIT: nat := Pow26(COUNTER_LEN)

  predicate IsPrefix(prefix: string) {
    |prefix| == PREFIX_LEN && NoNul(prefix)
  }

  /** The n-th name, without an extension. */
  function BareName(prefix: string, n: nat): string {
    prefix + "/" + Counter(n, COUNTER_LEN)
  }

  /** Names with different numbers differ, whatever their extensions. */
  lemma NamesDistinct(prefix: string, m: nat, n: nat, ext1: string, ext2: string)
    requires IsPrefix(prefix) && m < NAME_LIMIT && n < NAME_LIMIT && m != n
    ensures BareName(prefix, m) + ext1 != BareName(prefix, n) + ext2
  {
    var a, b := BareName(prefix, m) + ext1, BareName(prefix, n) + ext2;
    ValueOfCounter(m, COUNTER_LEN);
    ValueOfCounter(n, COUNTER_LEN);
    assert a[PREFIX_LEN + 1..TMP_PATH_LEN] == Counter(m, COUNTER_LEN);
    assert b[PREFIX_LEN + 1..TMP_PATH_LEN] == Counter(n, COUNTER_LEN);
  }

  /** The characters of a path whose counter stands at `n`. */
  ghost predicate IsPathText(prefix: string, n: nat, s: string) {
    && |s| == TMP_PATH_SIZE && IsPrefix(prefix) && n < NAME_LIMIT
    && s[..TMP_PATH_LEN] == BareName(prefix, n) && s[TMP_PATH_LEN] == NUL
  }

  lemma IncText(prefix: string, n: nat, s: string)
    requires IsPathText(prefix, n, s)
    ensures s[PREFIX_LEN] == '/'
    ensures s[PREFIX_LEN + 1..TMP_PATH_LEN] == Counter(n, COUNTER_LEN)
    ensures forall i :: PREFIX_LEN < i < TMP_PATH_LEN ==> 'a' <= s[i] <= 'z'
    ensures n + 1 < NAME_LIMIT <==> !AllZ(s[PREFIX_LEN + 1..TMP_PATH_LEN])
  {
    var digits := Counter(n, COUNTER_LEN);
    assert s[PREFIX_LEN] == BareName(prefix, n)[PREFIX_LEN];
    assert s[PREFIX_LEN + 1..TMP_PATH_LEN] == s[..TMP_PATH_LEN][PREFIX_LEN + 1..] == digits;
    assert forall i :: PREFIX_LEN < i < TMP_PATH_LEN ==> s[i] == digits[i - PREFIX_LEN - 1];
    ValueOfCounter(n, COUNTER_LEN);
    AllZIsLast(digits);
  }

  lemma IncrementedText(prefix: string, n: nat, s: string, c: nat, t: string)
    requires IsPathText(prefix, n, s) && PREFIX_LEN < c < TMP_PATH_LEN && s[c] != 'z'
    requires |t| == TMP_PATH_SIZE && t[TMP_PATH_LEN] == NUL
    requires forall i :: 0 <= i < c ==> t[i] == s[i]
    requires 'a' <= s[c] < 'z' && t[c] as int == s[c] as int + 1
    requires forall i :: c < i < TMP_PATH_LEN ==> s[i] == 'z' && t[i] == 'a'
    ensures IsPathText(prefix, n + 1, t)
  {
    hide Pow26, Value, Counter;
    IncText(prefix, n, s);
    var digits, j := Counter(n, COUNTER_LEN), c - PREFIX_LEN - 1;
    var old1, new1 := s[PREFIX_LEN + 1..TMP_PATH_LEN], t[PREFIX_LEN + 1..TMP_PATH_LEN];
    assert old1[j + 1..] == s[c + 1..TMP_PATH_LEN];
    assert new1 == digits[..j] + [Letter(digits[j] as int - 'a' as int + 1)] + Repeat('a', COUNTER_LEN - 1 - j);
    NextCounter(n, COUNTER_LEN, j, new1);
    assert t[..PREFIX_LEN + 1] == s[..PREFIX_LEN + 1] == prefix + "/" by {
      assert s[..PREFIX_LEN + 1] == BareName(prefix, n)[..PREFIX_LEN + 1];
    }
    assert t[..TMP_PATH_LEN] == t[..PREFIX_LEN + 1] + new1;
  }

  lemma NextCounter(n: nat, k: nat, j: nat, t: string)
    requires n < Pow26(k) && j < k
    requires var s := Counter(n, k);
      s[j] != 'z' && AllZ(s[j + 1..]) &&
      t == s[..j] + [Letter(s[j] as int - 'a' as int + 1)] + Repeat('a', k - 1 - j)
    ensures n + 1 < Pow26(k) && t == Counter(n + 1, k)
  {
    hide Counter, Value, Pow26;
    CarryAddsOne(Counter(n, k), j);
    ValueOfCounter(n, k);
    CounterOfValue(t);
  }

  /** The library's context: the path whose last letters are the counter. */
  class IoCtx {
    const path: array<char>
    ghost const prefix: string
    ghost var issued: nat

    ghost predicate Valid()
      reads this, path
    {
      IsPathText(prefix, issued, path[..])
    }

    /** The state after initialisation; `dir` is the path of the directory that was created. */
    constructor (dir: string)
      requires IsPrefix(dir)
      ensures Valid() && fresh(path) && prefix == dir && issued == 0
    {
      path := new char[TMP_PATH_SIZE];
      prefix := dir;
      issued := 0;
      new;
      forall i | 0 <= i < TMP_PATH_SIZE {
        path[i] := if i < PREFIX_LEN then dir[i]
                   else if i == PREFIX_LEN then '/'
                   else if i < TMP_PATH_LEN then 'a'
                   else NUL;
      }
      assert Pow26(COUNTER_LEN) > 0 && Counter(0, COUNTER_LEN) == Repeat('a', COUNTER_LEN) by {
        ZeroCounter(COUNTER_LEN);
      }
      assert path[..TMP_PATH_LEN] == dir + "/" + Repeat('a', COUNTER_LEN);
    }

    /** Advances the counter in place. Returns false where the program aborts. */
    method Inc() returns (ok: bool)
      requires Valid()
      modifies path, `issued
      ensures ok <==> old(issued) + 1 < NAME_LIMIT
      ensures ok <==> !AllZ(old(path[PREFIX_LEN + 1..TMP_PATH_LEN]))
      ensures ok ==> Valid() && issued == old(issued) + 1
    {
      hide Counter, Pow26, BareName;
      ghost var before := path[..];
      IncText(prefix, issued, before);
      var c := TMP_PATH_SIZE - 2;
      while path[c] == 'z'
        invariant PREFIX_LEN <= c <= TMP_PATH_SIZE - 2
        invariant forall i :: 0 <= i <= c ==> path[i] == before[i]
        invariant forall i :: c < i < TMP_PATH_LEN ==> path[i] == 'a' && before[i] == 'z'
        invariant path[TMP_PATH_LEN] == NUL
        invariant issued == old(issued)
        decreases c
      {
        path[c] := 'a';
        c := c - 1;
      }
      if path[c] == '/' {
        return false;
      }
      path[c] := path[c] + 1 as char;
      issued := issued + 1;
      IncrementedText(prefix, issued - 1, before, c, path[..]);
      return true;
    }

    /** Hands out the current name with an extension and advances the counter. */
    method TmpPath(ext: string) returns (ok: bool, name: string)
      requires Valid() && |ext| == TMP_EXT_LEN
      modifies path, `issued
      ensures ok <==> old(issued) + 1 < NAME_LIMIT
      ensures ok ==> Valid() && issued == old(issued) + 1
      ensures name == BareName(prefix, old(issued)) + ext
    {
      name := path[..TMP_PATH_LEN] + ext;
      ok := Inc();
    }
  }

  lemma {:induction false} ZeroCounter(k: nat)
    ensures Counter(0, k) == Repeat('a', k) && Pow26(k) > 0
  {
    if k > 0 {
      ZeroCounter(k - 1);
    }
  }
}
