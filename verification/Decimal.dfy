// Decimal text of integers, as strconv.FormatInt(x, 10) and a JavaScript template literal print it.
module Decimal {
  import opened Wrappers

  predicate IsDigit(c: char) {
    '0' <= c <= '9'
  }

  function DigitChar(d: nat): (c: char)
    requires d < 10
    ensures IsDigit(c) && c as int - '0' as int == d
  {
    ('0' as int + d) as char
  }

  // No leading zero, except for zero itself.
  function OfNat(n: nat): (s: string)
    ensures |s| > 0 && (forall i | 0 <= i < |s| :: IsDigit(s[i]))
    ensures s[0] == '0' ==> n == 0 && s == "0"
  {
    if n < 10 then [DigitChar(n)] else OfNat(n / 10) + [DigitChar(n % 10)]
  }

  function OfInt(x: int): (s: string)
    ensures |s| > 0 && (forall i | 0 <= i < |s| :: IsDigit(s[i]) || s[i] == '-')
  {
    if x < 0 then "-" + OfNat(-x) else OfNat(x)
  }

  function ReadNat(s: string): Option<nat> {
    if |s| == 0 || !IsDigit(s[|s| - 1]) then
      None
    else
      var d := s[|s| - 1] as int - '0' as int;
      if |s| == 1 then
        Some(d)
      else
        var high :- ReadNat(s[..|s| - 1]);
        Some(high * 10 + d)
  }

  function ReadInt(s: string): Option<int> {
    if |s| > 0 && s[0] == '-' then
      match ReadNat(s[1..])
      case Some(n) => var x: int := n; Some(-x)
      case None => None
    else
      match ReadNat(s)
      case Some(n) => Some(n)
      case None => None
  }

  lemma {:induction false} ReadNatOfNat(n: nat)
    ensures ReadNat(OfNat(n)) == Some(n)
  {
    if n < 10 {
    } else {
      ReadNatOfNat(n / 10);
      var s := OfNat(n);
      assert s[..|s| - 1] == OfNat(n / 10);
    }
  }

  lemma ReadIntOfInt(x: int)
    ensures ReadInt(OfInt(x)) == Some(x)
  {
    if x < 0 {
      ReadNatOfNat(-x);
      assert OfInt(x)[1..] == OfNat(-x);
    } else {
      ReadNatOfNat(x);
      assert IsDigit(OfNat(x)[0]);
    }
  }

  lemma OfIntInjective(x: int, y: int)
    requires OfInt(x) == OfInt(y)
    ensures x == y
  {
    ReadIntOfInt(x);
    ReadIntOfInt(y);
  }

  lemma Examples()
    ensures OfInt(0) == "0" && OfInt(-120) == "-120" && OfInt(1_700) == "1700"
  {
    assert OfNat(12) == "12";
    assert OfNat(17) == "17";
    assert OfNat(170) == "170";
  }
}
