/** Decimal rendering of ids, as Java's string concatenation writes a
    non-negative Long into a message, and the parse that reads it back. */
module Decimal {

  predicate IsDigit(c: char) {
    '0' <= c <= '9'
  }

  predicate AllDigits(s: string) {
    forall i :: 0 <= i < |s| ==> IsDigit(s[i])
  }

  function DigitValue(c: char): nat
    requires IsDigit(c)
  {
    c as int - '0' as int
  }

  function DigitChar(d: nat): (c: char)
    requires d < 10
    ensures IsDigit(c) && DigitValue(c) == d
  {
    ('0' as int + d) as char
  }

  /** The canonical decimal text of `n`: digits only, no leading zero. */
  function Render(n: nat): (s: string)
    ensures 0 < |s|
    ensures AllDigits(s)
    ensures s[0] == '0' ==> n == 0 && |s| == 1
    decreases n
  {
    if n < 10 then [DigitChar(n)] else Render(n / 10) + [DigitChar(n % 10)]
  }

  /** The number a string of decimal digits denotes. */
  function Parse(s: string): nat
    requires AllDigits(s)
    decreases |s|
  {
    if |s| == 0 then 0 else 10 * Parse(s[..|s| - 1]) + DigitValue(s[|s| - 1])
  }

  /** Rendering loses nothing: the id can be read back from its text. */
  lemma {:induction false} ParseRender(n: nat)
    ensures Parse(Render(n)) == n
    decreases n
  {
    if n >= 10 {
      var s := Render(n);
      assert s[..|s| - 1] == Render(n / 10);
      ParseRender(n / 10);
    }
  }

  /** Distinct ids never render to the same text. */
  /** A message made of a fixed prefix and a rendered number keeps the prefix
      intact, and the number can be read back from the rest. */
  lemma ReadBackAfterPrefix(prefix: string, n: nat)
    ensures var m := prefix + Render(n);
            && |prefix| < |m|
            && m[..|prefix|] == prefix
            && AllDigits(m[|prefix|..])
            && Parse(m[|prefix|..]) == n
  {
    var m := prefix + Render(n);
    assert m[|prefix|..] == Render(n);
    ParseRender(n);
  }

  lemma RenderInjective(a: nat, b: nat)
    requires Render(a) == Render(b)
    ensures a == b
  {
    ParseRender(a);
    ParseRender(b);
  }
}
