/** Decimal text: what printf writes for %d and what the strto* functions read back. */
module Decimal {
  import opened Bits
  import opened OrderedMap

  type Text = seq<byte>

  const MINUS: byte := 45
  const PLUS: byte := 43
  const COLON: byte := 58

  predicate IsDigit(c: byte)
  {
    48 <= c <= 57
  }

  /** isspace in the C locale. */
  predicate IsSpace(c: byte)
  {
    c == 32 || 9 <= c <= 13
  }

  ghost predicate AllDigits(s: Text)
  {
    forall i | 0 <= i < |s| :: IsDigit(s[i])
  }

  function Digits(n: nat): (s: Text)
    ensures |s| > 0
  {
    if n < 10 then [48 + n] else Digits(n / 10) + [48 + n % 10]
  }

  /** %d. */
  function Signed(i: int): (s: Text)
    ensures |s| > 0
  {
    if i < 0 then [MINUS] + Digits(-i) else Digits(i)
  }

  /** The number that a string of digits denotes in base 10, or 8. */
  function Value(s: Text, octal: bool): nat
  {
    if |s| == 0 then 0
    else Value(s[..|s| - 1], octal) * (if octal then 8 else 10) + if s[|s| - 1] >= 48 then s[|s| - 1] - 48 else 0
  }

  lemma {:induction false} DigitsReadBack(n: nat)
    ensures AllDigits(Digits(n)) && Value(Digits(n), false) == n
    ensures n > 0 ==> Digits(n)[0] != 48
    ensures n == 0 ==> Digits(n) == [48]
  {
    var s := Digits(n);
    if n >= 10 {
      DigitsReadBack(n / 10);
      assert s[..|s| - 1] == Digits(n / 10);
    } else {
      assert s[..0] == [];
    }
  }

  lemma {:induction false} DigitsLength(n: nat, k: nat)
    requires k > 0 && n < Pow10(k)
    ensures |Digits(n)| <= k
  {
    if n >= 10 {
      DigitsLength(n / 10, k - 1);
    }
  }

  function Pow10(k: nat): nat
  {
    if k == 0 then 1 else 10 * Pow10(k - 1)
  }

  /** How many bytes from position d on satisfy p. */
  function Span(s: Text, d: nat, p: byte -> bool): (n: nat)
    ensures d <= |s| ==> d + n <= |s|
    decreases |s| - d
  {
    if d >= |s| || !p(s[d]) then 0 else 1 + Span(s, d + 1, p)
  }

  lemma {:induction false} SpanStops(s: Text, d: nat, p: byte -> bool)
    requires d <= |s|
    ensures forall i | d <= i < d + Span(s, d, p) :: p(s[i])
    ensures d + Span(s, d, p) < |s| ==> !p(s[d + Span(s, d, p)])
    decreases |s| - d
  {
    if Span(s, d, p) > 0 {
      SpanStops(s, d + 1, p);
    }
  }

  lemma {:induction false} SpanIs(s: Text, d: nat, p: byte -> bool, n: nat)
    requires d + n <= |s| && (forall i | d <= i < d + n :: p(s[i])) && (d + n < |s| ==> !p(s[d + n]))
    ensures Span(s, d, p) == n
    decreases n
  {
    if n > 0 {
      SpanIs(s, d + 1, p, n - 1);
    }
  }

  const INT_MAX := 0x7FFF_FFFF
  const INT_MIN := -0x8000_0000
  const LLONG_MAX := 0x7FFF_FFFF_FFFF_FFFF
  const LLONG_MIN := -0x8000_0000_0000_0000

  function Clamp(i: int): int
  {
    if i < LLONG_MIN then LLONG_MIN else if i > LLONG_MAX then LLONG_MAX else i
  }

  datatype Parsed = Parsed(value: int, used: nat)

  /**
   strtoll(s, &end, 10) on the bytes that are left: the value and how far `end` moved. It is None when the
   scan runs over the last byte, for which C gives no meaning.
   */
  function StrToLL(s: Text): (r: Option<Parsed>)
    ensures r.Some? ==> r.value.used < |s| && LLONG_MIN <= r.value.value <= LLONG_MAX
  {
    var w := Span(s, 0, IsSpace);
    if w == |s| then None
    else
      var d: nat := w + if s[w] == MINUS || s[w] == PLUS then 1 else 0;
      Number(s, d, s[w] == MINUS)
  }

  function WithSign(v: nat, negative: bool): int
  {
    if negative then 0 - v else v
  }

  /** The digits of strtoll's subject, behind d bytes of blanks and sign. */
  function Number(s: Text, d: nat, negative: bool): (r: Option<Parsed>)
    requires d <= |s|
    ensures r.Some? ==> r.value.used < |s| && LLONG_MIN <= r.value.value <= LLONG_MAX
  {
    var n := Span(s, d, IsDigit);
    if d + n == |s| then None
    else if n == 0 then Some(Parsed(0, 0))
    else Some(Parsed(Clamp(WithSign(Value(s[d..d + n], false), negative)), d + n))
  }

  lemma {:induction false} NumberOfDigits(front: Text, m: nat, negative: bool, rest: Text)
    requires |rest| > 0 && !IsDigit(rest[0])
    ensures Number(front + Digits(m) + rest, |front|, negative) ==
            Some(Parsed(Clamp(WithSign(m, negative)), |front| + |Digits(m)|))
  {
    DigitsReadBack(m);
    var s, d, n := front + Digits(m) + rest, |front|, |Digits(m)|;
    assert s[d + n] == rest[0];
    assert forall i | d <= i < d + n :: s[i] == Digits(m)[i - d];
    SpanIs(s, d, IsDigit, n);
    assert s[d..d + n] == Digits(m);
  }

  /** Reading back a printed 64-bit integer consumes exactly its text. */
  lemma {:induction false} StrToLLOfSigned(i: int, rest: Text)
    requires LLONG_MIN <= i <= LLONG_MAX && |rest| > 0 && !IsDigit(rest[0])
    ensures StrToLL(Signed(i) + rest) == Some(Parsed(i, |Signed(i)|))
  {
    if i < 0 {
      StrToLLOfMinus(-i, rest);
    } else {
      StrToLLOfDigits(i, rest);
    }
  }

  lemma {:induction false} StrToLLOfMinus(m: nat, rest: Text)
    requires |rest| > 0 && !IsDigit(rest[0])
    ensures StrToLL([MINUS] + Digits(m) + rest) == Some(Parsed(Clamp(0 - m), 1 + |Digits(m)|))
  {
    NumberOfDigits([MINUS], m, true, rest);
    ScanSigned([MINUS] + Digits(m) + rest);
  }

  lemma {:induction false} StrToLLOfDigits(m: nat, rest: Text)
    requires |rest| > 0 && !IsDigit(rest[0])
    ensures StrToLL(Digits(m) + rest) == Some(Parsed(Clamp(m), |Digits(m)|))
  {
    DigitsReadBack(m);
    NumberOfDigits([], m, false, rest);
    assert [] + Digits(m) + rest == Digits(m) + rest;
    ScanSigned(Digits(m) + rest);
  }

  /** With no blanks in front, the number starts at once or after the minus sign. */
  lemma {:induction false} ScanSigned(s: Text)
    requires |s| > 0 && (IsDigit(s[0]) || s[0] == MINUS)
    ensures StrToLL(s) == if s[0] == MINUS then Number(s, 1, true) else Number(s, 0, false)
  {
    SpanIs(s, 0, IsSpace, 0);
  }

  /** A scan that finds a digit moves on. */
  lemma {:induction false} StrToLLMoves(s: Text)
    requires |s| > 0 && IsDigit(s[0]) && StrToLL(s).Some?
    ensures StrToLL(s).value.used > 0
  {
    ScanSigned(s);
  }

  /** Blanks and a sign are passed over, a sign alone is not a number, and what is out of range becomes the bound. */
  lemma {:induction false} StrToLLExamples(s: Text, t: Text, m: nat, rest: Text)
    requires s == [32, 43, 55, 120] && t == [45, 120] && |rest| > 0 && !IsDigit(rest[0])
    ensures StrToLL(s) == Some(Parsed(7, 3)) && StrToLL(t) == Some(Parsed(0, 0))
    ensures m > 0x7FFF_FFFF_FFFF_FFFF ==> StrToLL(Digits(m) + rest) == Some(Parsed(0x7FFF_FFFF_FFFF_FFFF, |Digits(m)|))
  {
    ReadsAt(s, 2);
    NoNumber(t);
    StrToLLOfDigits(m, rest);
  }

  lemma {:induction false} ReadsAt(s: Text, d: nat)
    requires |s| == 4 && d == 2 && s[0] == 32 && s[1] == PLUS && IsDigit(s[2]) && !IsDigit(s[3])
    ensures StrToLL(s) == Some(Parsed(s[2] - 48, 3))
  {
    SpanIs(s, 0, IsSpace, 1);
    SpanIs(s, d, IsDigit, 1);
    DigitAt(s, d);
  }

  lemma {:induction false} NoNumber(s: Text)
    requires |s| == 2 && s[0] == MINUS && !IsDigit(s[1])
    ensures StrToLL(s) == Some(Parsed(0, 0))
  {
    ScanSigned(s);
    SpanIs(s, 1, IsDigit, 0);
  }

  lemma {:induction false} DigitAt(s: Text, d: nat)
    requires d < |s| && IsDigit(s[d])
    ensures Value(s[d..d + 1], false) == Value(s[d..d + 1], true) == s[d] - 48
  {
    assert s[d..d + 1][..0] == [];
  }
}
