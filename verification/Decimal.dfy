/** Decimal rendering and reading of integers, as strconv.Itoa and strconv.Atoi do it. */
module Decimal {

  predicate IsDigit(c: char) { '0' <= c <= '9' }

  predicate AllDigits(s: string) { forall i :: 0 <= i < |s| ==> IsDigit(s[i]) }

  /** `0` or a digit run without a leading zero: the grammar of a version part. */
  predicate IsNumeral(s: string) {
    s != "" && AllDigits(s) && (s[0] == '0' ==> |s| == 1)
  }

  function DigitChar(d: nat): (c: char)
    requires d < 10
    ensures IsDigit(c)
  {
    '0' + (d as char)
  }

  function DigitValue(c: char): (d: nat)
    requires IsDigit(c)
    ensures d < 10 && DigitChar(d) == c
  {
    c as int - '0' as int
  }

  /** Unsigned decimal rendering. */
  function Render(n: nat): (s: string)
    ensures IsNumeral(s)
    ensures n > 0 ==> s[0] != '0'
  {
    if n < 10 then [DigitChar(n)] else Render(n / 10) + [DigitChar(n % 10)]
  }

  /** strconv.Itoa. */
  function Itoa(n: int): string {
    if n < 0 then "-" + Render(-n) else Render(n)
  }

  /** The number a digit run denotes. */
  function Value(s: string): nat
    requires AllDigits(s)
  {
    if s == "" then 0 else 10 * Value(s[..|s| - 1]) + DigitValue(s[|s| - 1])
  }

  lemma {:induction false} ValueOfRender(n: nat)
    ensures Value(Render(n)) == n
  {
    if n < 10 {
      assert Render(n)[..0] == "";
    } else {
      ValueOfRender(n / 10);
      var s := Render(n);
      assert s[..|s| - 1] == Render(n / 10);
    }
  }

  lemma {:induction false} RenderOfValue(s: string)
    requires IsNumeral(s)
    ensures Render(Value(s)) == s
    ensures |s| > 1 ==> Value(s) >= 10
  {
    var t := s[..|s| - 1];
    if |s| == 1 {
      assert Value(t) == 0;
    } else {
      assert t[0] == s[0];
      RenderOfValue(t);
      assert Value(t) > 0 by {
        if |t| == 1 {
          assert Value(t) == DigitValue(t[0]) by { assert t[..0] == ""; }
          assert t[0] != '0';
        }
      }
      assert Value(s) / 10 == Value(t) && Value(s) % 10 == DigitValue(s[|s| - 1]);
      assert s == t + [s[|s| - 1]];
    }
  }
}
