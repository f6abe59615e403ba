/** The export scanner as the program runs it, on a stream with one byte of pushback (dcc/dcc_scan.c). */
module ScanStream {
  import opened Wrappers
  import opened Scan

  /** A byte read from the stream and truncated; end-of-file becomes the phantom byte. */
  function ToByte(c: Option<char>): char {
    match c
    case None => PHANTOM
    case Some(b) => b
  }

  /** What comes of a possible export: scan on, give up, or a name. */
  datatype Attempt = Elsewhere | Rejected | Exported(name: string)

  /** An input stream; `broken` says that it ends in a read error rather than a clean end. */
  class Stream {
    const data: string
    const broken: bool
    var pos: nat
    var pushed: Option<char>

    ghost predicate Valid()
      reads this
    {
      pos <= |data|
    }

    /** The characters still to be read. */
    ghost function Rest(): string
      requires Valid()
      reads this
    {
      (if pushed.Some? then [pushed.value] else []) + data[pos..]
    }

    constructor (data: string, broken: bool)
      ensures Valid() && Rest() == data && this.broken == broken
    {
      this.data, this.broken, pos, pushed := data, broken, 0, None;
    }

    method Getc() returns (c: Option<char>)
      requires Valid()
      modifies this
      ensures Valid() && pushed == None
      ensures c.None? <==> old(Rest()) == []
      ensures old(Rest()) == (if c.Some? then [c.value] else []) + Rest()
      ensures c.Some? ==> Rest() == old(Rest())[1..]
    {
      if pushed.Some? {
        c := pushed;
        pushed := None;
      } else if pos < |data| {
        c := Some(data[pos]);
        pos := pos + 1;
      } else {
        c := None;
      }
    }

    /** Pushes one byte back; the standard guarantees room for one only. */
    method Ungetc(c: char)
      requires Valid() && pushed == None
      modifies this
      ensures Valid() && Rest() == [c] + old(Rest())
    {
      pushed := Some(c);
    }

    method Exactly(expected: string) returns (ok: bool)
      requires Valid()
      modifies this
      ensures Valid() && (ok, Rest()) == Scan.Exactly(old(Rest()), expected)
    {
      for i := 0 to |expected|
        invariant Valid() && Scan.Exactly(Rest(), expected[i..]) == Scan.Exactly(old(Rest()), expected)
      {
        ghost var r := Rest();
        var c := Getc();
        var b := ToByte(c);
        assert expected[i..][1..] == expected[i + 1..];
        assert r != [] ==> r[1..] == Rest();
        if b != expected[i] {
          Ungetc(b);
          assert Rest() == if r == [] then [PHANTOM] else r;
          return false;
        }
      }
      return true;
    }

    /** Fills a buffer with the delimiter of a raw string, a quote in place of its parenthesis. */
    method ReadDelim(delim: array<char>) returns (len: nat)
      requires Valid() && delim.Length == DELIM_SIZE
      modifies this, delim
      ensures Valid() && len <= DELIM_SIZE
      ensures Scan.ReadDelim(old(Rest()), DELIM_SIZE) == (delim[..len], Rest())
    {
      hide Scan.ReadDelim;
      len := 0;
      ghost var whole := Scan.ReadDelim(Rest(), DELIM_SIZE);
      ghost var d := "";
      ExtendedByNothing(whole);
      while len < DELIM_SIZE
        invariant Valid() && len == |d| <= DELIM_SIZE && delim[..len] == d
        invariant Extended(d, Scan.ReadDelim(Rest(), DELIM_SIZE - len)) == whole
      {
        ReadDelimStep(Rest(), DELIM_SIZE - len);
        var c := Getc();
        ghost var tail := Scan.ReadDelim(Rest(), DELIM_SIZE - len - 1);
        if c == Some('(') {
          delim[len] := '"';
          len := len + 1;
          assert delim[..len] == d + ['"'];
          return;
        }
        delim[len] := ToByte(c);
        len := len + 1;
        ExtendedTwice(d, [ToByte(c)], tail);
        d := d + [ToByte(c)];
      }
      ReadDelimFull(Rest());
      assert d + "" == d;
    }

    static lemma ReadDelimFull(r: string)
      ensures Scan.ReadDelim(r, 0) == ("", r)
    {
    }

    static lemma ReadDelimStep(r: string, room: nat)
      requires room > 0
      ensures Scan.ReadDelim(r, room) ==
        if r == [] then Extended([PHANTOM], Scan.ReadDelim([], room - 1))
        else if r[0] == '(' then ("\"", r[1..])
        else Extended([r[0]], Scan.ReadDelim(r[1..], room - 1))
    {
    }

    static function Extended(d: string, res: (string, string)): (string, string) {
      (d + res.0, res.1)
    }

    static lemma ExtendedByNothing(res: (string, string))
      ensures Extended("", res) == res
    {
      assert "" + res.0 == res.0;
    }

    static lemma ExtendedTwice(a: string, b: string, res: (string, string))
      ensures Extended(a, Extended(b, res)) == Extended(a + b, res)
    {
      assert a + (b + res.0) == a + b + res.0;
    }

    method SkipRawString()
      requires Valid()
      modifies this
      ensures Valid() && Rest() == Scan.SkipRawString(old(Rest()))
    {
      var buffer := new char[DELIM_SIZE](_ => '\0');
      var len := ReadDelim(buffer);
      var delim := buffer[..len];
      ghost var goal := FindClose(Rest(), delim);
      while true
        invariant Valid() && FindClose(Rest(), delim) == goal
        decreases Measure(Rest())
      {
        ghost var r := Rest();
        var c := Getc();
        assert r != [] ==> r[1..] == Rest();
        if c == None {
          return;
        }
        if c == Some(')') {
          var ok := Exactly(delim);
          if ok {
            return;
          }
        }
      }
    }

    method SkipString()
      requires Valid()
      modifies this
      ensures Valid() && Rest() == Scan.SkipString(old(Rest()))
    {
      while true
        invariant Valid() && Scan.SkipString(Rest()) == Scan.SkipString(old(Rest()))
        decreases |Rest()|
      {
        ghost var r := Rest();
        var c := Getc();
        assert r != [] ==> r[1..] == Rest();
        if c == None || c == Some('"') {
          return;
        }
        if c == Some('\\') {
          c := Getc();
          assert |r| > 1 ==> r[2..] == Rest();
        }
      }
    }

    method FirstPrintable() returns (c: Option<char>)
      requires Valid()
      modifies this
      ensures Valid() && (c, Rest()) == Scan.FirstPrintable(old(Rest()))
      ensures pushed == None
    {
      while true
        invariant Valid() && Scan.FirstPrintable(Rest()) == Scan.FirstPrintable(old(Rest()))
        decreases |Rest()|
      {
        ghost var r := Rest();
        c := Getc();
        assert r != [] ==> r[1..] == Rest();
        if c == None || !IsBlank(c.value) {
          return;
        }
      }
    }

    /** Collects the identifier in a buffer that grows by half whenever it is full. */
    method ScanIdent() returns (name: Option<string>)
      requires Valid()
      modifies this
      ensures Valid()
      ensures var res := Scan.ScanIdent(old(Rest()));
        if name.Some? then res == Ident(name.value, Rest()) else res == NoIdent
    {
      ghost var r0 := Rest();
      var c := FirstPrintable();
      if c.None? || !IsIdentStart(c.value) {
        return None;
      }
      ghost var r1, t := Rest(), "";
      var size, capacity := 0, 32;
      var ptr := new char[capacity](_ => '\0');
      ptr[size] := c.value;
      size := size + 1;
      while true
        invariant Valid() && pushed == None && fresh(ptr)
        invariant 32 <= capacity == ptr.Length && 0 < size < capacity
        invariant ptr[..size] == [c.value] + t
        invariant r1 == t + Rest()
        invariant forall i :: 0 <= i < |t| ==> IsIdentChar(t[i])
        decreases |Rest()|
      {
        var b := Getc();
        if b == None {
          IdentEnds(r0, c.value, r1, t, []);
          return None;
        }
        if IsIdentChar(b.value) {
          assert r1 == (t + [b.value]) + Rest();
          ptr[size] := b.value;
          size := size + 1;
          t := t + [b.value];
        } else {
          IdentEnds(r0, c.value, r1, t, [b.value] + Rest());
          name := Some(ptr[..size]);
          ptr[size] := '\0';
          Ungetc(b.value);
          return;
        }
        if size == capacity {
          capacity := capacity / 2 * 3;
          ptr := Realloc(ptr, size, capacity);
        }
      }
    }

    static method Realloc(ptr: array<char>, size: nat, capacity: nat) returns (grown: array<char>)
      requires size <= ptr.Length && size <= capacity
      ensures fresh(grown) && grown.Length == capacity && grown[..size] == ptr[..size]
    {
      grown := new char[capacity](_ => '\0');
      forall i | 0 <= i < size {
        grown[i] := ptr[i];
      }
    }

    /** Reads on after the `d` of a possible export. */
    method TryExport() returns (f: Attempt)
      requires Valid()
      modifies this
      ensures Valid()
      ensures match Scan.ScanExport(old(Rest()))
        case NotHere(rest) => f == Elsewhere && Rest() == rest
        case Export(n, rest) => f == Exported(n) && n != "" && Rest() == rest
        case _ => f == Rejected
    {
      hide Scan.Exactly, Scan.FirstPrintable, Scan.ScanIdent;
      var ok := Exactly("oarr");
      if !ok { return Elsewhere; }
      var c := FirstPrintable();
      if c != Some(':') { return Elsewhere; }
      c := FirstPrintable();
      if c != Some(':') { return Elsewhere; }
      c := FirstPrintable();
      if c != Some('e') { return Elsewhere; }
      ok := Exactly("xported");
      if !ok { return Elsewhere; }
      IdentNotEmpty(Rest());
      var ident := ScanIdent();
      if ident == None { return Rejected; }
      if HasDoubleUnderscore(ident.value) { return Rejected; }
      c := FirstPrintable();
      if c != Some('(') { return Rejected; }
      return Exported(ident.value);
    }

    /** Scans up to the next export: nothing on an error, the empty string at a clean end. */
    method UpToNextExport() returns (name: Option<string>)
      requires Valid()
      modifies this
      ensures Valid()
      ensures match Scan.Scan(old(Rest()), ' ')
        case Export(n, rest) => name == Some(n) && n != "" && Rest() == rest
        case End => name == if broken then None else Some("")
        case _ => name == None
    {
      var prev := ' ';
      while true
        invariant Valid() && Scan.Scan(Rest(), prev) == Scan.Scan(old(Rest()), ' ')
        decreases Measure(Rest())
      {
        hide Scan.ScanExport, Scan.SkipString, Scan.SkipRawString;
        ghost var r := Rest();
        var curr := Getc();
        assert r != [] ==> r[1..] == Rest();
        if curr == None {
          return if broken then None else Some("");
        } else if curr == Some('"') {
          SkipString();
          prev := '"';
        } else if curr == Some('R') {
          var next := Getc();
          assert |r| > 1 ==> r[2..] == Rest();
          if next == Some('"') {
            SkipRawString();
            prev := '"';
          } else {
            prev := 'R';
          }
        } else if curr == Some('d') {
          if IsIdentChar(prev) { continue; }
          var attempt := TryExport();
          if attempt == Elsewhere { continue; }
          return if attempt == Rejected then None else Some(attempt.name);
        } else {
          prev := curr.value;
        }
      }
    }

    /** Collects the names of all exports, as the generator does before it writes their entries. */
    method AllExports() returns (names: Option<seq<string>>)
      requires Valid()
      modifies this
      ensures Valid()
      ensures names == Names(old(Rest()), broken)
    {
      var found: seq<string> := [];
      ghost var all := Names(Rest(), broken);
      var ident := UpToNextExport();
      if ident == None {
        return None;
      }
      assert found + [ident.value] == [ident.value];
      while ident.value != ""
        invariant Valid() && ident.Some?
        invariant ident.value == "" ==> all == Some(found)
        invariant ident.value != "" ==> all == Prepend(found + [ident.value], Names(Rest(), broken))
        decreases ident.value != "", Measure(Rest())
      {
        found := found + [ident.value];
        ghost var more := Names(Rest(), broken);
        ident := UpToNextExport();
        if ident == None {
          return None;
        }
        assert found + [] == found;
        if ident.value != "" {
          PrependTwice(found, [ident.value], Names(Rest(), broken));
        }
      }
      return Some(found);
    }
  }

  function Prepend(found: seq<string>, more: Option<seq<string>>): Option<seq<string>> {
    match more
    case None => None
    case Some(names) => Some(found + names)
  }

  lemma PrependTwice(a: seq<string>, b: seq<string>, more: Option<seq<string>>)
    ensures Prepend(a, Prepend(b, more)) == Prepend(a + b, more)
  {
    if more.Some? {
      assert a + (b + more.value) == a + b + more.value;
    }
  }

  lemma IdentEnds(r0: string, c: char, r1: string, t: string, tail: string)
    requires Scan.FirstPrintable(r0) == (Some(c), r1) && IsIdentStart(c)
    requires r1 == t + tail && forall i :: 0 <= i < |t| ==> IsIdentChar(t[i])
    requires tail == [] || !IsIdentChar(tail[0])
    ensures Scan.ScanIdent(r0) == if tail == [] then NoIdent else Ident([c] + t, tail)
  {
    RunStops(t, tail);
    assert r1[..|t|] == t && r1[|t|..] == tail;
  }

  lemma IdentNotEmpty(r: string)
    ensures Scan.ScanIdent(r).Ident? ==> Scan.ScanIdent(r).name != ""
  {
  }
}
