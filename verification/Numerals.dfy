/** Decimal rendering of unsigned numbers (`std::to_string`), with the facts that make it usable as
    part of an identifier: only digits appear, and different numbers render differently. */
module Numerals {

  function Digit(d: nat): char
    requires d < 10
  {
    "0123456789"[d]
  }

  predicate IsDigit(c: char) {
    '0' <= c <= '9'
  }

  function ToString(n: nat): (s: string)
    ensures |s| > 0
    ensures forall i | 0 <= i < |s| :: IsDigit(s[i])
  {
    if n < 10 then [Digit(n)] else ToString(n / 10) + [Digit(n % 10)]
  }

  function Value(s: string): nat
  {
    if s == [] then 0
    else
      var last := s[|s| - 1];
      10 * Value(s[..|s| - 1]) + (if IsDigit(last) then last as nat - '0' as nat else 0)
  }

  lemma {:induction false} ValueOfToString(n: nat)
    ensures Value(ToString(n)) == n
  {
    var s := ToString(n);
    if n < 10 {
      assert s[..|s| - 1] == [];
    } else {
      ValueOfToString(n / 10);
      assert s[..|s| - 1] == ToString(n / 10);
    }
  }

  predicate AllDigits(s: string) {
    forall i | 0 <= i < |s| :: IsDigit(s[i])
  }

  function Pow10(k: nat): (p: nat)
    ensures p >= 1
  {
    if k == 0 then 1 else 10 * Pow10(k - 1)
  }

  /** A digit run without a leading zero is the rendering of its value. */
  lemma {:induction false} ToStringOfValue(s: string)
    requires AllDigits(s) && s != "" && s[0] != '0'
    ensures Value(s) >= 1 && ToString(Value(s)) == s
    decreases |s|
  {
    var init, last := s[..|s| - 1], s[|s| - 1];
    var d := last as nat - '0' as nat;
    assert IsDigit(last) && last == Digit(d) && s == init + [last];
    if init == "" {
      assert Value(init) == 0 && Value(s) == d;
    } else {
      ToStringOfValue(init);
      assert Value(s) / 10 == Value(init) && Value(s) % 10 == d;
    }
  }

  lemma {:induction false} ValueFromOne(s: string)
    requires AllDigits(s) && s != "" && s[0] == '1'
    ensures Value(s) < 2 * Pow10(|s| - 1)
    decreases |s|
  {
    var init := s[..|s| - 1];
    assert IsDigit(s[|s| - 1]);
    if init != "" { ValueFromOne(init); } else { assert Value(init) == 0; }
  }

  lemma {:induction false} ToStringLength(n: nat, k: nat)
    requires k >= 1 && n < Pow10(k)
    ensures |ToString(n)| <= k
  {
    if n >= 10 {
      assert Pow10(1) == 10 * Pow10(0);
      ToStringLength(n / 10, k - 1);
    }
  }

  lemma ToStringInjective(a: nat, b: nat)
    ensures ToString(a) == ToString(b) <==> a == b
  {
    ValueOfToString(a);
    ValueOfToString(b);
  }
}
