/** Decimal text: `std::to_string` on unsigned numbers and whole-string `std::from_chars`. */
module Decimal {
  import opened Common

  predicate IsDigit(c: char) { '0' <= c <= '9' }

  function DigitValue(c: char): (d: nat)
    requires IsDigit(c)
    ensures d < 10
  {
    c as int - '0' as int
  }

  function DigitChar(d: nat): (c: char)
    requires d < 10
    ensures IsDigit(c) && DigitValue(c) == d
  {
    (d + '0' as int) as char
  }

  function ToText(n: nat): (s: string)
    ensures s != [] && forall c :: c in s ==> IsDigit(c)
  {
    if n < 10 then [DigitChar(n)] else ToText(n / 10) + [DigitChar(n % 10)]
  }

  predicate AllDigits(s: string) { forall i :: 0 <= i < |s| ==> IsDigit(s[i]) }

  function Value(s: string): nat
    requires AllDigits(s)
  {
    if s == [] then 0 else 10 * Value(s[..|s| - 1]) + DigitValue(s[|s| - 1])
  }

  /** A non-empty run of digits whose value fits a 64-bit size; anything else is an error. */
  function ParseSize(s: string): (r: Option<nat>) {
    if s == [] || !AllDigits(s) || Value(s) >= SIZE_LIMIT then None else Some(Value(s))
  }

  lemma {:induction false} ValueOfText(n: nat)
    ensures AllDigits(ToText(n)) && Value(ToText(n)) == n
  {
    if n >= 10 {
      ValueOfText(n / 10);
      var s := ToText(n);
      assert s[..|s| - 1] == ToText(n / 10);
    }
  }

  /** Reading back a printed size gives the size. */
  lemma ParseOfText(n: nat)
    requires n < SIZE_LIMIT
    ensures ParseSize(ToText(n)) == Some(n)
  {
    ValueOfText(n);
  }

  /** Printed numbers are distinct: no two sizes share a text. */
  lemma TextInjective(m: nat, n: nat)
    requires ToText(m) == ToText(n)
    ensures m == n
  {
    ValueOfText(m);
    ValueOfText(n);
  }

  function Zeros(k: nat): string { seq(k, _ => '0') }

  /** Every run of digits is the plain text of its value behind zeros. */
  lemma {:induction false} DigitsAreText(s: string) returns (zeros: nat)
    requires s != [] && AllDigits(s)
    ensures s == Zeros(zeros) + ToText(Value(s))
  {
    var front, last := s[..|s| - 1], s[|s| - 1];
    var d := DigitValue(last);
    assert DigitChar(d) == last && s == front + [last];
    if front == [] {
      assert Value(front) == 0;
      zeros := 0;
      assert s == [last];
    } else {
      zeros := DigitsAreText(front);
      var v := Value(front);
      if v == 0 {
        assert ToText(0) == ['0'];
        zeros := zeros + 1;
        assert s == Zeros(zeros) + [last];
      } else {
        assert (10 * v + d) / 10 == v && (10 * v + d) % 10 == d;
        assert ToText(10 * v + d) == ToText(v) + [last];
      }
    }
  }

  lemma {:induction false} ValueOfZeros(k: nat, s: string)
    requires AllDigits(s)
    ensures AllDigits(Zeros(k) + s) && Value(Zeros(k) + s) == Value(s)
    decreases k + |s|
  {
    var whole := Zeros(k) + s;
    if s != [] {
      ValueOfZeros(k, s[..|s| - 1]);
      assert whole[..|whole| - 1] == Zeros(k) + s[..|s| - 1];
    } else if k > 0 {
      ValueOfZeros(k - 1, s);
      assert whole[..|whole| - 1] == Zeros(k - 1) + s;
    }
  }

  /** A size is read from exactly its plain text, with any number of zeros in front. */
  lemma ParsedExactly(s: string, n: nat)
    ensures ParseSize(s) == Some(n) <==> n < SIZE_LIMIT && exists zeros: nat :: s == Zeros(zeros) + ToText(n)
  {
    hide Value;
    if ParseSize(s) == Some(n) { var zeros := DigitsAreText(s); }
    if n < SIZE_LIMIT && exists zeros: nat :: s == Zeros(zeros) + ToText(n) {
      var zeros: nat :| s == Zeros(zeros) + ToText(n);
      ValueOfText(n);
      ValueOfZeros(zeros, ToText(n));
    }
  }
}
