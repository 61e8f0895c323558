/** Decimal text of a natural number, as Python's `%s` writes an int, and
    reading it back. */
module Decimal {

  predicate IsDigit(c: char) {
    '0' <= c <= '9'
  }

  function DigitChar(d: nat): (c: char)
    requires d < 10
    ensures IsDigit(c) && c as int - '0' as int == d
  {
    ('0' as int + d) as char
  }

  function DigitValue(c: char): nat {
    if IsDigit(c) then c as int - '0' as int else 0
  }

  /** Decimal text as `str` writes it: digits only, never empty, and no
      leading zero unless the whole text is "0". */
  predicate Canonical(s: string) {
    && |s| > 0
    && (forall i | 0 <= i < |s| :: IsDigit(s[i]))
    && (s[0] == '0' ==> |s| == 1)
  }

  /** `str(n)`: digits only, never empty, and no leading zero. */
  function Show(n: nat): (s: string)
    ensures Canonical(s)
    ensures s[0] == '0' ==> n == 0
  {
    if n < 10 then [DigitChar(n)] else Show(n / 10) + [DigitChar(n % 10)]
  }

  /** The number a string of digits denotes. */
  function Value(s: string): nat {
    if s == [] then 0 else Value(s[..|s| - 1]) * 10 + DigitValue(s[|s| - 1])
  }

  lemma {:induction false} ValueOfShow(n: nat)
    ensures Value(Show(n)) == n
  {
    if n >= 10 {
      ValueOfShow(n / 10);
      var s := Show(n);
      assert s[..|s| - 1] == Show(n / 10);
      assert DigitValue(s[|s| - 1]) == n % 10;
    }
  }

  /** Each canonical text is the one `str` writes for the number it
      denotes, so `Show` and `Value` are inverse on canonical text. */
  lemma {:induction false} ShowOfValue(s: string)
    requires Canonical(s)
    ensures Show(Value(s)) == s
  {
    if |s| > 1 {
      var t, d := s[..|s| - 1], s[|s| - 1];
      assert Canonical(t);
      ShowOfValue(t);
      assert Show(0) == "0" && t[0] != '0';
      assert Value(s) / 10 == Value(t) && Value(s) % 10 == DigitValue(d);
      assert s == t + [d];
    }
  }
}
