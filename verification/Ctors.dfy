/** The public constructors of raw atoms (runtime/expr_all.cpp, lines 345-415). */
module Ctors {
  import opened Wrappers
  import opened Decimal
  import opened Atoms
  import opened Exprs

  const INT_BUFFER_SIZE := 25

  /** The digits of `value` are written backwards into a buffer; the atom is its used end. */
  method IntExpr(value: nat) returns (e: Expr)
    requires value < SIZE_MODULUS
    ensures e == Raw(Digits(value) + [NUL]) && Buildable(e)
  {
    var str := new char[INT_BUFFER_SIZE];
    var p := INT_BUFFER_SIZE - 1;
    str[p] := NUL;
    var v := value;
    ghost var tail := [NUL];
    SizeFitsTwentyDigits(value);
    NumeralIsAtom(value);
    hide Buildable;
    while true
      invariant |Digits(v)| + 4 <= p < INT_BUFFER_SIZE
      invariant str[p..] == tail
      invariant Digits(v) + tail == Digits(value) + [NUL]
      decreases v
    {
      p := p - 1;
      str[p] := DigitChar(v % 10);
      tail := [DigitChar(v % 10)] + tail;
      assert str[p..] == tail;
      if v / 10 == 0 {
        assert Digits(v) == [DigitChar(v)];
        break;
      }
      assert Digits(v) == Digits(v / 10) + [DigitChar(v % 10)];
      v := v / 10;
    }
    e := Raw(str[p..]);
  }

  lemma NumeralIsAtom(value: nat)
    ensures Buildable(Raw(Digits(value) + [NUL]))
  {
    assert IsNumber(Digits(value));
    assert (Digits(value) + [NUL])[..|Digits(value)|] == Digits(value);
  }

  /** The value of a C `char`, signed or not, converted to an unsigned machine word. */
  function ToSize(value: int): nat
    requires -128 <= value < 256
  {
    if value < 0 then value + SIZE_MODULUS else value
  }

  predicate HasLiteral(value: int) {
    32 <= value < 127 && value != '\'' as int && value != '\\' as int
  }

  /** The atom's text: a character literal where that is easy, and a number otherwise. */
  function CharText(value: int): string
    requires -128 <= value < 256
  {
    if HasLiteral(value) then ['\'', value as char, '\''] else Digits(ToSize(value))
  }

  method CharExpr(value: int) returns (e: Expr)
    requires -128 <= value < 256
    ensures e == Raw(CharText(value) + [NUL]) && Buildable(e)
  {
    if value >= 32 && value < 127 && value != '\'' as int && value != '\\' as int {
      var lit := ['\'', '_', '\'', NUL];
      lit := lit[1 := value as char];
      e := Raw(lit);
      assert IsCharLiteral(lit[..3]);
      assert lit == CharText(value) + [NUL];
    } else {
      e := IntExpr(ToSize(value));
    }
  }

  /** Distinct characters give distinct atoms, also where a character is written as a number. */
  lemma CharAtomsDistinct(a: int, b: int)
    requires -128 <= a < 256 && -128 <= b < 256 && a != b
    ensures CharText(a) != CharText(b)
  {
    DigitsInjective(ToSize(a), ToSize(b));
    assert IsDigit(Digits(ToSize(a))[0]) && IsDigit(Digits(ToSize(b))[0]);
    if HasLiteral(a) && HasLiteral(b) {
      assert CharText(a)[1] != CharText(b)[1];
    }
  }

  /** A NUL-terminated name becomes an atom exactly when it is a qualified name; otherwise the program aborts. */
  method QnameExpr(name: string, ghost t: string) returns (e: Option<Expr>)
    requires NoNul(t) && |t| < |name| && name[..|t|] == t && name[|t|] == NUL
    ensures e.Some? <==> IsQname(t)
    ensures e.Some? ==> e.value == Raw(t + [NUL]) && Buildable(e.value)
  {
    var end := ValidQnameEnd(name, t);
    match end
    case None => return None;
    case Some(n) =>
      assert name[..n] == t + [NUL];
      assert (t + [NUL])[..|t|] == t;
      return Some(Raw(name[..n]));
  }

  /** Distinct numbers give distinct atoms. */
  lemma IntAtomsDistinct(m: nat, n: nat)
    requires m != n
    ensures Digits(m) + [NUL] != Digits(n) + [NUL]
  {
    DigitsInjective(m, n);
    assert (Digits(m) + [NUL])[..|Digits(m)|] == Digits(m);
    assert (Digits(n) + [NUL])[..|Digits(n)|] == Digits(n);
  }
}
