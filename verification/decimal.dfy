/**
 * Decimal notation of counts: the digit decomposition (`count.toString()`
 * split into digits), the text written to the store (`String(count)`), and
 * the reading of stored text back into a number (`Number(text)` on the
 * digit strings this worker writes).
 */
module Decimal {
  import opened Wrappers

  type digit = d: nat | d < 10

  /** The number a sequence of decimal digits denotes, most significant first. */
  function Value(ds: seq<digit>): (n: nat) {
    if ds == [] then 0 else Value(ds[..|ds| - 1]) * 10 + ds[|ds| - 1]
  }

  /** No superfluous leading zero: the form `toString` produces. */
  predicate Canonical(ds: seq<digit>) {
    |ds| >= 1 && (ds[0] != 0 || |ds| == 1)
  }

  /** The decimal digits of `n`, most significant first; 0 has the single digit 0. */
  function Digits(n: nat): (ds: seq<digit>)
    ensures Canonical(ds)
    ensures Value(ds) == n
  {
    if n < 10 then [n] else Digits(n / 10) + [n % 10]
  }

  /** A sequence whose leading digit is not zero denotes a positive number. */
  lemma {:induction false} LeadingDigitPositive(ds: seq<digit>)
    requires |ds| >= 1 && ds[0] != 0
    ensures Value(ds) > 0
  {
    if |ds| > 1 {
      var init := ds[..|ds| - 1];
      assert init[0] == ds[0];
      LeadingDigitPositive(init);
    }
  }

  /** `Digits(n)` is the only canonical digit sequence denoting `n`. */
  lemma {:induction false} DigitsUnique(ds: seq<digit>, n: nat)
    requires Canonical(ds) && Value(ds) == n
    ensures ds == Digits(n)
  {
    if |ds| > 1 {
      var init := ds[..|ds| - 1];
      assert init[0] == ds[0];
      LeadingDigitPositive(init);
      assert n / 10 == Value(init) && n % 10 == ds[|ds| - 1];
      DigitsUnique(init, n / 10);
      assert ds == init + [ds[|ds| - 1]];
    }
  }

  function DigitChar(d: digit): (c: char)
    ensures '0' <= c <= '9'
  {
    ('0' as int + d) as char
  }

  predicate IsDigitChar(c: char) {
    '0' <= c <= '9'
  }

  function CharDigit(c: char): (d: digit)
    requires IsDigitChar(c)
    ensures DigitChar(d) == c
  {
    (c as int - '0' as int) as digit
  }

  /** The digits a string of digit characters spells (`split('').map(Number)`). */
  function TextDigits(s: string): (ds: seq<digit>)
    requires forall i :: 0 <= i < |s| ==> IsDigitChar(s[i])
    ensures |ds| == |s|
    ensures forall i :: 0 <= i < |s| ==> DigitChar(ds[i]) == s[i]
  {
    seq(|s|, i requires 0 <= i < |s| => CharDigit(s[i]))
  }

  /** The decimal text of `n`, as `String(n)` writes it. */
  function Show(n: nat): (s: string)
    ensures |s| == |Digits(n)|
    ensures forall i :: 0 <= i < |s| ==> IsDigitChar(s[i]) && s[i] == DigitChar(Digits(n)[i])
  {
    var ds := Digits(n);
    seq(|ds|, i requires 0 <= i < |ds| => DigitChar(ds[i]))
  }

  /** The digits of the decimal text of `n` are the digits of `n`. */
  lemma TextDigitsShow(n: nat)
    ensures TextDigits(Show(n)) == Digits(n)
  {
  }

  /** The number a non-empty string of ASCII digits denotes; None for any other text. */
  function Parse(s: string): (r: Option<nat>)
    ensures r.Some? <==> |s| >= 1 && forall i :: 0 <= i < |s| ==> IsDigitChar(s[i])
  {
    if |s| >= 1 && forall i :: 0 <= i < |s| ==> IsDigitChar(s[i]) then Some(Value(TextDigits(s)))
    else None
  }

  /** Reading back the text of `n` gives `n`. */
  lemma ParseShow(n: nat)
    ensures Parse(Show(n)) == Some(n)
  {
    TextDigitsShow(n);
  }

  /** A digit string without a superfluous leading zero is the text of the number it denotes. */
  lemma ShowParse(s: string)
    requires Parse(s).Some?
    requires s[0] != '0' || |s| == 1
    ensures Show(Parse(s).value) == s
  {
    var ds := TextDigits(s);
    assert ds[0] == 0 ==> s[0] == '0';
    DigitsUnique(ds, Value(ds));
  }
}
