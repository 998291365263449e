// Decimal numerals as printf and strtoul write and read them.

module Text {

  predicate IsDigit(c: char) { '0' <= c <= '9' }

  function DigitChar(d: nat): (c: char)
    requires d < 10
    ensures IsDigit(c) && DigitValue(c) == d
  {
    '0' + d as char
  }

  function DigitValue(c: char): (d: nat)
    requires IsDigit(c)
    ensures d < 10
  {
    c as int - '0' as int
  }

  function Decimal(n: nat): (s: string)
    ensures |s| > 0 && forall c <- s :: IsDigit(c)
  {
    if n < 10 then [DigitChar(n)] else Decimal(n / 10) + [DigitChar(n % 10)]
  }

  // the digits from the front, as strtoul accumulates them
  function Accumulate(s: string, acc: nat): nat {
    if s == [] || !IsDigit(s[0]) then acc else Accumulate(s[1..], acc * 10 + DigitValue(s[0]))
  }

  lemma {:induction false} AccumulateAppend(s: string, t: string, acc: nat)
    requires forall c <- s :: IsDigit(c)
    ensures Accumulate(s + t, acc) == Accumulate(t, Accumulate(s, acc))
    decreases |s|
  {
    if s == [] {
      assert s + t == t;
    } else {
      assert (s + t)[1..] == s[1..] + t;
      AccumulateAppend(s[1..], t, acc * 10 + DigitValue(s[0]));
    }
  }

  // Reading back a rendered numeral, whatever non-digit follows it.
  lemma {:induction false} DecimalRoundTrip(n: nat, rest: string)
    requires rest == [] || !IsDigit(rest[0])
    ensures Accumulate(Decimal(n) + rest, 0) == n
  {
    DecimalValue(n);
    AccumulateAppend(Decimal(n), rest, 0);
  }

  lemma {:induction false} DecimalValue(n: nat)
    ensures Accumulate(Decimal(n), 0) == n
  {
    if n >= 10 {
      var d := [DigitChar(n % 10)];
      DecimalValue(n / 10);
      AccumulateAppend(Decimal(n / 10), d, 0);
      assert d[1..] == [];
      assert Accumulate(d, n / 10) == Accumulate([], n / 10 * 10 + n % 10);
    } else {
      var d := [DigitChar(n)];
      assert d[1..] == [];
      assert Accumulate(d, 0) == Accumulate([], n);
    }
  }

  // A numeral has no leading zero, so it has as many digits as its number needs.
  lemma {:induction false} DecimalIsCanonical(n: nat)
    ensures Decimal(n)[0] == '0' <==> n == 0
    ensures n < 10 ==> |Decimal(n)| == 1
    ensures n >= 10 ==> |Decimal(n)| == |Decimal(n / 10)| + 1
  {
    if n >= 10 { DecimalIsCanonical(n / 10); }
  }
}
