/**
 * The PHP value semantics the importer relies on: which strings count as
 * "empty" in a boolean test, and how intval reads a number out of a string.
 */
module Php {

  /** A string is true in a PHP boolean test unless it is "" or "0". */
  predicate Truthy(s: string) {
    s != "" && s != "0"
  }

  predicate IsDigit(c: char) {
    '0' <= c <= '9'
  }

  /** Length of the longest prefix of `s` made of decimal digits. */
  function DigitRun(s: string): (n: nat)
    ensures n <= |s|
    ensures forall i :: 0 <= i < n ==> IsDigit(s[i])
    ensures n < |s| ==> !IsDigit(s[n])
  {
    if s != [] && IsDigit(s[0]) then 1 + DigitRun(s[1..]) else 0
  }

  /** Value of a string of decimal digits, most significant first. */
  function DecimalValue(digits: string): nat
    requires forall i :: 0 <= i < |digits| ==> IsDigit(digits[i])
  {
    if digits == [] then 0
    else assert IsDigit(digits[|digits| - 1]); 10 * DecimalValue(digits[..|digits| - 1]) + (digits[|digits| - 1] as int - '0' as int)
  }

  /** The white space PHP skips before a number: space, tab, newline, return, vertical tab, form feed. */
  predicate IsSpace(c: char) {
    c == ' ' || c == '\t' || c == '\n' || c == '\r' || c == '\U{000B}' || c == '\U{000C}'
  }

  /** `s` without its leading white space. */
  function SkipSpace(s: string): (t: string)
    ensures |t| <= |s|
    ensures t != [] ==> !IsSpace(t[0])
  {
    if s != [] && IsSpace(s[0]) then SkipSpace(s[1..]) else s
  }

  /** An optional sign, then the longest run of decimal digits. */
  function ReadSigned(t: string): int {
    if t != [] && (t[0] == '-' || t[0] == '+') then
      var digits := t[1..][..DigitRun(t[1..])];
      if t[0] == '-' then -(DecimalValue(digits) as int) else DecimalValue(digits)
    else
      DecimalValue(t[..DigitRun(t)])
  }

  /**
   * PHP's intval on a string: leading white space is skipped, then an
   * optional sign, then the longest run of decimal digits; anything else
   * makes the number 0 or ends it.
   */
  function IntVal(s: string): int {
    ReadSigned(SkipSpace(s))
  }

  /** White space in front of a number does not change what intval reads. */
  lemma {:induction false} IntValIgnoresLeadingSpace(w: string, s: string)
    requires forall i :: 0 <= i < |w| ==> IsSpace(w[i])
    ensures IntVal(w + s) == IntVal(s)
    ensures IntVal(" 7") == 7
  {
    assert IntVal(w + s) == IntVal(s) by { SkipSpaceOfSpace(w, s); }
    assert IntVal(" 7") == 7 by {
      assert SkipSpace(" 7") == "7";
      assert DigitRun("7") == 1;
    }
  }

  lemma {:induction false} SkipSpaceOfSpace(w: string, s: string)
    requires forall i :: 0 <= i < |w| ==> IsSpace(w[i])
    ensures SkipSpace(w + s) == SkipSpace(s)
  {
    if w != [] {
      assert (w + s)[0] == w[0] && (w + s)[1..] == w[1..] + s;
      SkipSpaceOfSpace(w[1..], s);
    } else {
      assert w + s == s;
    }
  }

  /** Decimal rendering of an integer, as PHP writes ids into exported metadata. */
  function Decimal(n: int): (s: string)
    ensures s != []
    decreases if n < 0 then -n + 1 else n
  {
    if n < 0 then "-" + Decimal(-n)
    else if n < 10 then [('0' as int + n) as char]
    else Decimal(n / 10) + [('0' as int + n % 10) as char]
  }

  lemma {:induction false} NatDecimalDigits(n: nat)
    ensures forall i :: 0 <= i < |Decimal(n)| ==> IsDigit(Decimal(n)[i])
    ensures DecimalValue(Decimal(n)) == n
  {
    if n >= 10 {
      NatDecimalDigits(n / 10);
      var d := Decimal(n / 10);
      assert Decimal(n) == d + [('0' as int + n % 10) as char];
      assert Decimal(n)[..|Decimal(n)| - 1] == d;
    }
  }

  lemma AllDigitsRun(s: string)
    requires forall i :: 0 <= i < |s| ==> IsDigit(s[i])
    ensures DigitRun(s) == |s|
  {
    if s != [] {
      AllDigitsRun(s[1..]);
    }
  }

  /** Reading back a written id gives the id: intval undoes the decimal rendering. */
  lemma {:induction false} IntValDecimal(n: int)
    ensures IntVal(Decimal(n)) == n
  {
    if n < 0 {
      NatDecimalDigits(-n);
      AllDigitsRun(Decimal(-n));
      var s := Decimal(n);
      assert s[0] == '-' && s[1..] == Decimal(-n);
      assert SkipSpace(s) == s;
      assert s[1..][..DigitRun(s[1..])] == Decimal(-n);
      assert ReadSigned(s) == n;
    } else {
      NatDecimalDigits(n);
      AllDigitsRun(Decimal(n));
      assert IsDigit(Decimal(n)[0]) && SkipSpace(Decimal(n)) == Decimal(n);
      assert Decimal(n)[..|Decimal(n)|] == Decimal(n);
      assert ReadSigned(Decimal(n)) == n;
    }
  }

  /** A "0" or an absent value reads as 0, and any truthy decimal id reads back as a non-zero id. */
  lemma {:induction false} TruthyDecimal(n: int)
    ensures Truthy(Decimal(n)) <==> n != 0
  {
    IntValDecimal(n);
    if n == 0 {
      assert Decimal(0) == "0";
    } else if n > 0 && n < 10 {
    } else if n < 0 {
      assert Decimal(n)[0] == '-';
    } else {
      assert IntVal("0") == 0 by { assert SkipSpace("0") == "0"; assert DigitRun("0") == 1; }
    }
  }
}
