/**
 * The A1-style cell reference of Office Open XML (the `r` attribute of a cell, ECMA-376
 * Part 1, section 18.3.1.4): a column name in bijective base 26 over 'A'..'Z' followed by
 * the 1-based row number in decimal. Both OpenXML tables build their references from these.
 */
module CellReference {

  predicate IsLetter(c: char) { 'A' <= c <= 'Z' }

  /** char.IsDigit, restricted to the ASCII digits. */
  predicate IsDigit(c: char) { '0' <= c <= '9' }

  predicate AllLetters(s: string) { forall i :: 0 <= i < |s| ==> IsLetter(s[i]) }

  predicate AllDigits(s: string) { forall i :: 0 <= i < |s| ==> IsDigit(s[i]) }

  /** The letters of `n` in bijective base 26 (1 is "A", 26 is "Z", 27 is "AA"); no letters
      for `n <= 0`. */
  function ColumnLetters(n: int): (name: string)
    ensures AllLetters(name)
    ensures name == [] <==> n <= 0
    decreases n
  {
    if n <= 0 then []
    else ColumnLetters((n - 1) / 26) + [(65 + (n - 1) % 26) as char]
  }

  /** The number a column name stands for in bijective base 26. */
  function LettersValue(name: string): int
    requires AllLetters(name)
    decreases |name|
  {
    if name == [] then 0
    else 26 * LettersValue(name[..|name| - 1]) + (name[|name| - 1] as int - 64)
  }

  /** Reading back the letters of a non-negative `n` gives `n`. */
  lemma {:induction false} LettersValueOfColumnLetters(n: int)
    requires n >= 0
    ensures LettersValue(ColumnLetters(n)) == n
    decreases n
  {
    if n > 0 {
      var q := (n - 1) / 26;
      var name := ColumnLetters(n);
      LettersValueOfColumnLetters(q);
      assert name[..|name| - 1] == ColumnLetters(q);
    }
  }

  /** Writing out the value of a column name gives the name back: ColumnLetters is onto
      the strings of capital letters. */
  lemma {:induction false} ColumnLettersOfLettersValue(name: string)
    requires AllLetters(name)
    ensures ColumnLetters(LettersValue(name)) == name
    decreases |name|
  {
    if name != [] {
      var init := name[..|name| - 1];
      var d := name[|name| - 1] as int - 64;
      var v := LettersValue(name);
      ColumnLettersOfLettersValue(init);
      LettersValueNonNegative(init);
      assert v - 1 == 26 * LettersValue(init) + (d - 1);
      assert (v - 1) / 26 == LettersValue(init) && (v - 1) % 26 == d - 1;
      assert name == init + [name[|name| - 1]];
    }
  }

  lemma {:induction false} LettersValueNonNegative(name: string)
    requires AllLetters(name)
    ensures LettersValue(name) >= 0
    ensures name != [] ==> LettersValue(name) >= 1
    decreases |name|
  {
    if name != [] {
      LettersValueNonNegative(name[..|name| - 1]);
    }
  }

  /** Different non-negative numbers get different names. */
  lemma ColumnLettersInjective(a: int, b: int)
    requires a >= 0 && b >= 0
    requires ColumnLetters(a) == ColumnLetters(b)
    ensures a == b
  {
    LettersValueOfColumnLetters(a);
    LettersValueOfColumnLetters(b);
  }

  /** The names of the numbers 1 to 26 are the single letters 'A' to 'Z'; from 27 on a
      name has at least two letters. */
  lemma ColumnLettersLength(n: int)
    ensures 1 <= n <= 26 ==> ColumnLetters(n) == [(64 + n) as char]
    ensures n > 26 ==> |ColumnLetters(n)| >= 2
  {
    if n > 26 {
      assert (n - 1) / 26 >= 1;
    }
  }

  lemma ColumnLettersExamples()
    ensures ColumnLetters(1) == "A"
    ensures ColumnLetters(26) == "Z"
    ensures ColumnLetters(27) == "AA"
    ensures ColumnLetters(702) == "ZZ"
  {
    assert ColumnLetters(1) == ColumnLetters(0) + "A";
    assert ColumnLetters(26) == ColumnLetters(0) + "Z";
    assert ColumnLetters(27) == ColumnLetters(1) + "A";
    assert ColumnLetters(702) == ColumnLetters(26) + "Z";
  }

  function DigitChar(d: int): char
    requires 0 <= d < 10
  {
    (48 + d) as char
  }

  /** Int32.ToString() of a non-negative number: its decimal digits, no leading zero. */
  function NatToDecimal(n: nat): (s: string)
    ensures s != [] && AllDigits(s)
    ensures |s| > 1 ==> s[0] != '0'
    decreases n
  {
    if n < 10 then [DigitChar(n)] else NatToDecimal(n / 10) + [DigitChar(n % 10)]
  }

  /** Int32.ToString() with the minus sign of a negative number. */
  function IntToDecimal(n: int): string {
    if n < 0 then "-" + NatToDecimal(-n) else NatToDecimal(n)
  }

  /** The value of a string of decimal digits (int.Parse without its range check). */
  function DecimalValue(s: string): nat
    requires AllDigits(s)
    decreases |s|
  {
    if s == [] then 0 else 10 * DecimalValue(s[..|s| - 1]) + (s[|s| - 1] as int - 48)
  }

  /** Parsing the decimal text of `n` gives `n`. */
  lemma {:induction false} DecimalValueOfNatToDecimal(n: nat)
    ensures DecimalValue(NatToDecimal(n)) == n
    decreases n
  {
    if n >= 10 {
      var s := NatToDecimal(n);
      DecimalValueOfNatToDecimal(n / 10);
      assert s[..|s| - 1] == NatToDecimal(n / 10);
    }
  }

  /** Printing the value of a digit string without leading zeros gives the string back. */
  lemma {:induction false} NatToDecimalOfDecimalValue(s: string)
    requires s != [] && AllDigits(s)
    requires |s| > 1 ==> s[0] != '0'
    ensures NatToDecimal(DecimalValue(s)) == s
    decreases |s|
  {
    var init := s[..|s| - 1];
    var d := s[|s| - 1] as int - 48;
    if |s| > 1 {
      NatToDecimalOfDecimalValue(init);
      DecimalValuePositive(init);
      var v := DecimalValue(s);
      assert v / 10 == DecimalValue(init) && v % 10 == d;
      assert s == init + [s[|s| - 1]];
    }
  }

  lemma {:induction false} DecimalValuePositive(s: string)
    requires s != [] && AllDigits(s) && s[0] != '0'
    ensures DecimalValue(s) >= 1
    decreases |s|
  {
    if |s| > 1 {
      DecimalValuePositive(s[..|s| - 1]);
    }
  }
}
