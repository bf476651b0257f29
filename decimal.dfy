/** Decimal text for non-negative integers: how a template literal `${n}` renders a
    count, and how `parseInt(s, 10)` reads a run of ASCII digits back. */
module Decimal {

  /** A character matched by the regular-expression class `\d` (ASCII digits only). */
  predicate IsDigit(c: char) {
    '0' <= c <= '9'
  }

  predicate AllDigits(s: string) {
    forall i :: 0 <= i < |s| ==> IsDigit(s[i])
  }

  function DigitChar(d: nat): (c: char)
    requires d < 10
    ensures IsDigit(c) && DigitValue(c) == d
  {
    ('0' as int + d) as char
  }

  function DigitValue(c: char): (d: nat)
    requires IsDigit(c)
    ensures d < 10
  {
    c as int - '0' as int
  }

  /** `${n}` for a non-negative integer: its shortest decimal form, "0" for zero. */
  function NatToString(n: nat): (r: string)
    ensures |r| > 0 && AllDigits(r)
    ensures r[0] == '0' ==> n == 0 && |r| == 1
  {
    if n < 10 then [DigitChar(n)]
    else NatToString(n / 10) + [DigitChar(n % 10)]
  }

  /** `parseInt(s, 10)` for a string of ASCII digits, read most significant digit first. */
  function DigitsValue(s: string): nat
    requires AllDigits(s)
  {
    if |s| == 0 then 0
    else DigitsValue(s[..|s| - 1]) * 10 + DigitValue(s[|s| - 1])
  }

  /** Reading back the rendering of `n` gives `n`. */
  lemma {:induction false} ParseRendered(n: nat)
    ensures DigitsValue(NatToString(n)) == n
  {
    var r := NatToString(n);
    if n >= 10 {
      var prefix := NatToString(n / 10);
      assert r[..|r| - 1] == prefix;
      ParseRendered(n / 10);
    }
  }

  /** A digit string without a superfluous leading zero is the rendering of its value. */
  lemma {:induction false} RenderParsed(s: string)
    requires |s| > 0 && AllDigits(s)
    requires s[0] == '0' ==> |s| == 1
    ensures NatToString(DigitsValue(s)) == s
  {
    var init := s[..|s| - 1];
    var last := DigitValue(s[|s| - 1]);
    if |init| == 0 {
      assert s == [DigitChar(last)];
    } else {
      assert init[0] == s[0];
      RenderParsed(init);
      var v := DigitsValue(init);
      assert v > 0;
      assert DigitsValue(s) / 10 == v && DigitsValue(s) % 10 == last;
      assert s == init + [DigitChar(last)];
    }
  }
}
