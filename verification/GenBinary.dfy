/**
 The precompiled header as a C string literal of octal escapes (dcc/dcc_gen.c, lines 109-138).
 */
module GenBinary {
  import opened Wrappers
  import opened CText

  type Byte = b: int | 0 <= b < 256

  const BYTES_PER_LINE := 32
  const LINE_LEN := 4 * BYTES_PER_LINE

  function OctalChar(d: nat): char
    requires d < 8
  {
    (d + '0' as nat) as char
  }

  /** A byte as a backslash and three octal digits. */
  function Octal(b: Byte): (s: string)
    ensures |s| == 4
  {
    ['\\', OctalChar(b / 64), OctalChar(b / 8 % 8), OctalChar(b % 8)]
  }

  function Octals(data: seq<Byte>): (s: string)
    ensures |s| == 4 * |data|
  {
    if data == [] then [] else Octal(data[0]) + Octals(data[1..])
  }

  const SPLICE := "\\\n"

  /** The inside of the literal: full lines, each ended by a splice, and the remaining bytes. */
  function Lines(data: seq<Byte>): string {
    if |data| < BYTES_PER_LINE then Octals(data)
    else Octals(data[..BYTES_PER_LINE]) + SPLICE + Lines(data[BYTES_PER_LINE..])
  }

  /** The whole literal. */
  function Emit(data: seq<Byte>): string {
    "\"" + SPLICE + Lines(data) + "\""
  }

  // ---------- writing

  lemma OctalsSnoc(data: seq<Byte>, b: Byte)
    ensures Octals(data + [b]) == Octals(data) + Octal(b)
  {
    if data == [] {
      assert data + [b] == [b] && [b][1..] == [];
    } else {
      assert (data + [b])[1..] == data[1..] + [b];
      OctalsSnoc(data[1..], b);
    }
  }

  /** The digits of a byte; shifting right is division and masking with 7 the remainder by 8. */
  function OctalDigits(b: Byte): (char, char, char) {
    (OctalChar(b / 64 % 8), OctalChar(b / 8 % 8), OctalChar(b / 1 % 8))
  }

  lemma OctalOfDigits(b: Byte)
    ensures Octal(b) == ['\\', OctalDigits(b).0, OctalDigits(b).1, OctalDigits(b).2]
  {
  }

  /** The four characters of a byte, from index `p` on. */
  method WriteByte(line: array<char>, p: nat, b: Byte) returns (next: nat)
    requires p + 4 <= line.Length
    modifies line
    ensures next == p + 4 && line[..next] == old(line[..p]) + Octal(b)
  {
    OctalOfDigits(b);
    hide Octal, OctalDigits;
    var (high, mid, low) := OctalDigits(b);
    line[p] := '\\';
    line[p + 1] := high;
    line[p + 2] := mid;
    line[p + 3] := low;
    next := p + 4;
  }

  /** Fills one line: 32 escapes and a splice take up the buffer exactly. */
  method WriteLine(data: seq<Byte>, from: nat) returns (line: array<char>)
    requires from + BYTES_PER_LINE <= |data|
    ensures fresh(line) && line.Length == LINE_LEN + 2
    ensures line[..] == Octals(data[from..from + BYTES_PER_LINE]) + SPLICE
  {
    line := new char[LINE_LEN + 2];
    var p := 0;
    for x := 0 to BYTES_PER_LINE
      invariant p == 4 * x
      invariant line[..p] == Octals(data[from..from + x])
    {
      hide Octals, Octal;
      var b := data[from + x];
      p := WriteByte(line, p, b);
      assert data[from..from + x + 1] == data[from..from + x] + [b];
      OctalsSnoc(data[from..from + x], b);
    }
    line[p] := '\\';
    line[p + 1] := '\n';
    p := p + 2;
    assert p == line.Length;
    assert line[..] == line[..LINE_LEN] + SPLICE;
  }

  method Generate(data: seq<Byte>) returns (out: string)
    ensures out == Emit(data)
  {
    out := "\"" + SPLICE;
    out := WriteLines(out, data);
    var i := |data| / BYTES_PER_LINE * BYTES_PER_LINE;
    ghost var start, head := i, out;
    while i < |data|
      invariant start <= i <= |data|
      invariant out == head + Octals(data[start..i])
    {
      hide Octals;
      OctalsSnoc(data[start..i], data[i]);
      assert data[start..i + 1] == data[start..i] + [data[i]];
      out := out + Octal(data[i]);
      i := i + 1;
    }
    assert data[start..i] == data[start..];
    out := out + "\"";
  }

  /** Writes the full lines after `head`. */
  method WriteLines(head: string, data: seq<Byte>) returns (out: string)
    ensures out + Octals(data[|data| / BYTES_PER_LINE * BYTES_PER_LINE..]) == head + Lines(data)
  {
    out := head;
    ghost var done := "";
    NothingDone(head, data);
    var y := 0;
    while y < |data| / BYTES_PER_LINE
      invariant y <= |data| / BYTES_PER_LINE
      invariant out == head + done
      invariant done + Lines(data[y * BYTES_PER_LINE..]) == Lines(data)
    {
      hide Octals, Lines;
      var from := y * BYTES_PER_LINE;
      LinesStep(data, from);
      var line := WriteLine(data, from);
      out := out + line[..];
      Append(head, done, Octals(data[from..from + BYTES_PER_LINE]) + SPLICE, Lines(data[from + BYTES_PER_LINE..]));
      done := done + (Octals(data[from..from + BYTES_PER_LINE]) + SPLICE);
      y := y + 1;
    }
    LastLine(data, y);
    hide Octals, Lines;
    Append(head, done, Octals(data[y * BYTES_PER_LINE..]), "");
  }

  lemma LastLine(data: seq<Byte>, y: nat)
    requires y == |data| / BYTES_PER_LINE
    ensures Lines(data[y * BYTES_PER_LINE..]) == Octals(data[y * BYTES_PER_LINE..])
  {
  }

  lemma NothingDone(head: string, data: seq<Byte>)
    ensures head + "" == head && "" + Lines(data[0 * BYTES_PER_LINE..]) == Lines(data)
  {
    assert data[0 * BYTES_PER_LINE..] == data;
  }

  lemma LinesStep(data: seq<Byte>, from: nat)
    requires from + BYTES_PER_LINE <= |data|
    ensures Lines(data[from..]) ==
      Octals(data[from..from + BYTES_PER_LINE]) + SPLICE + Lines(data[from + BYTES_PER_LINE..])
  {
    assert data[from..][..BYTES_PER_LINE] == data[from..from + BYTES_PER_LINE];
    assert data[from..][BYTES_PER_LINE..] == data[from + BYTES_PER_LINE..];
  }

  // ---------- reading back

  predicate NoMark(s: string) {
    '?' !in s
  }

  lemma {:induction false} OctalsHaveNoMark(data: seq<Byte>)
    ensures NoMark(Octals(data))
  {
    if data != [] {
      OctalsHaveNoMark(data[1..]);
    }
  }

  lemma {:induction false} LinesHaveNoMark(data: seq<Byte>)
    ensures NoMark(Lines(data))
  {
    if |data| < BYTES_PER_LINE {
      OctalsHaveNoMark(data);
    } else {
      OctalsHaveNoMark(data[..BYTES_PER_LINE]);
      LinesHaveNoMark(data[BYTES_PER_LINE..]);
    }
  }

  lemma OctalsHead(data: seq<Byte>, r: string)
    requires data != []
    ensures Octals(data) + r == Octal(data[0]) + (Octals(data[1..]) + r)
  {
  }

  lemma {:induction false} OctalsSplice(data: seq<Byte>, r: string)
    ensures SpliceLines(Octals(data) + r) == Octals(data) + SpliceLines(r)
  {
    if data == [] {
      assert Octals(data) + r == r;
    } else {
      var t := Octals(data[1..]) + r;
      OctalsHead(data, r);
      OctalsHead(data, SpliceLines(r));
      OctalsSplice(data[1..], r);
      hide Octals, Octal, SpliceLines;
      OctalSplice(data[0], t);
    }
  }

  lemma OctalSplice(b: Byte, t: string)
    ensures SpliceLines(Octal(b) + t) == Octal(b) + SpliceLines(t)
  {
    var s := Octal(b) + t;
    var d := Octal(b);
    assert s[1..] == d[1..] + t && s[1..][1..] == d[2..] + t && s[1..][1..][1..] == d[3..] + t;
    assert s[1..][1..][1..][1..] == t;
    assert s[1] != '\n' && s[1] != '\\' && s[2] != '\\' && s[3] != '\\';
    assert SpliceLines(s[1..][1..][1..]) == [d[3]] + SpliceLines(t);
    assert SpliceLines(s[1..][1..]) == [d[2]] + SpliceLines(s[1..][1..][1..]);
    assert SpliceLines(s[1..]) == [d[1]] + SpliceLines(s[1..][1..]);
  }

  lemma SpliceGone(r: string)
    ensures SpliceLines(SPLICE + r) == SpliceLines(r)
  {
    assert (SPLICE + r)[2..] == r;
  }

  lemma FirstLine(data: seq<Byte>, r: string)
    requires |data| >= BYTES_PER_LINE
    ensures Lines(data) + r == Octals(data[..BYTES_PER_LINE]) + (SPLICE + (Lines(data[BYTES_PER_LINE..]) + r))
  {
    var line, rest := data[..BYTES_PER_LINE], data[BYTES_PER_LINE..];
    assert Lines(data) == Octals(line) + SPLICE + Lines(rest);
    hide Octals, Lines;
    Append("", Octals(line), SPLICE, Lines(rest));
    Append("", Octals(line), SPLICE + Lines(rest), r);
    Append("", SPLICE, Lines(rest), r);
  }

  lemma {:induction false} LinesSplice(data: seq<Byte>, r: string)
    ensures SpliceLines(Lines(data) + r) == Octals(data) + SpliceLines(r)
    decreases |data|
  {
    if |data| < BYTES_PER_LINE {
      OctalsSplice(data, r);
    } else {
      hide Octals, Lines, SpliceLines;
      var line, rest := data[..BYTES_PER_LINE], data[BYTES_PER_LINE..];
      var t := Lines(rest) + r;
      FirstLine(data, r);
      OctalsSplice(line, SPLICE + t);
      SpliceGone(t);
      LinesSplice(rest, r);
      OctalsSplit(data, BYTES_PER_LINE, SpliceLines(r));
    }
  }

  lemma OctalsSplit(data: seq<Byte>, n: nat, r: string)
    requires n <= |data|
    ensures Octals(data) + r == Octals(data[..n]) + (Octals(data[n..]) + r)
  {
    hide *;
    var a, b := data[..n], data[n..];
    assert data == a + b;
    OctalsConcat(a, b);
    Append(Octals(a), Octals(b), r, "");
  }

  lemma {:induction false} OctalsConcat(a: seq<Byte>, b: seq<Byte>)
    ensures Octals(a + b) == Octals(a) + Octals(b)
  {
    if a == [] {
      assert a + b == b;
    } else {
      assert (a + b)[1..] == a[1..] + b;
      OctalsConcat(a[1..], b);
    }
  }

  function Chars(data: seq<Byte>): string {
    seq(|data|, i requires 0 <= i < |data| => data[i] as char)
  }

  lemma OctalReads(b: Byte, t: string)
    ensures Escape(Octal(b)[1..] + t) == Some((b as char, 3))
  {
    var d := Octal(b)[1..];
    var s := d + t;
    assert s[..3] == d;
    assert d[..2][..1] == d[..1] && d[..2] == [d[0], d[1]] && d[..1] == [d[0]] && d[..1][..0] == [];
    assert OctalValue([]) == 0;
    assert OctalValue(d[..1]) == b / 64;
    assert OctalValue(d[..2]) == 8 * (b / 64) + b / 8 % 8;
    assert OctalValue(d) == b;
  }

  lemma OctalsFirst(data: seq<Byte>)
    requires data != []
    ensures Octals(data) + "\"" == ['\\'] + (Octal(data[0])[1..] + (Octals(data[1..]) + "\""))
  {
  }

  lemma ReadEscaped(c: char, e: string, t: string)
    requires |e| == 3 && Escape(e + t) == Some((c, 3))
    ensures Literals(['\\'] + (e + t)) == Prefixed(c, Literals(t))
  {
    var s := ['\\'] + (e + t);
    assert s[1..] == e + t && s[4..] == t;
  }

  lemma {:induction false} OctalsRead(data: seq<Byte>)
    ensures Literals(Octals(data) + "\"") == Some((Chars(data), ""))
  {
    hide Octal, Escape, OctalValue;
    if data == [] {
      assert Octals(data) + "\"" == "\"";
      assert Chars(data) == [];
    } else {
      hide Octals, Literals, Chars;
      var t := Octals(data[1..]) + "\"";
      OctalsRead(data[1..]);
      OctalsFirst(data);
      OctalReads(data[0], t);
      ReadEscaped(data[0] as char, Octal(data[0])[1..], t);
      CharsFirst(data);
    }
  }

  lemma CharsFirst(data: seq<Byte>)
    requires data != []
    ensures Chars(data) == [data[0] as char] + Chars(data[1..])
  {
  }

  /** A C compiler reads exactly the data bytes back, whatever their number. */
  lemma BinaryRoundTrip(data: seq<Byte>)
    ensures
      var s := Phases12(Emit(data));
      s != [] && s[0] == '"' && Literals(s[1..]) == Some((Chars(data), ""))
  {
    var inside := Lines(data) + "\"";
    assert Emit(data) == ['"'] + (SPLICE + inside);
    LinesHaveNoMark(data);
    assert NoTwoMarks(Emit(data)) by {
      assert NoMark(Emit(data));
    }
    NoTrigraphs(Emit(data));
    SpliceGone(inside);
    assert (['"'] + (SPLICE + inside))[1..] == SPLICE + inside;
    LinesSplice(data, "\"");
    assert SpliceLines("\"") == "\"";
    OctalsRead(data);
  }
}
