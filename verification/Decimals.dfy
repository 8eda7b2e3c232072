/** Decimal numerals, as fmt's %d writes them and as they are read. */
module Decimals {
  import opened Options

  function Decimal(n: nat): (s: string)
    ensures s != ""
  {
    if n < 10 then ['0' + n as char] else Decimal(n / 10) + ['0' + (n % 10) as char]
  }

  predicate IsDigit(c: char) { '0' <= c <= '9' }

  /** The value of a numeral; zero alone may begin with the digit zero (6.4.4.1 for C constants). */
  function DecimalValue(s: string): Option<nat> {
    if s == "" || !IsDigit(s[|s| - 1]) || (|s| > 1 && s[0] == '0') then None
    else
      var unit := (s[|s| - 1] - '0') as int;
      if |s| == 1 then Some(unit)
      else
        var front := DecimalValue(s[..|s| - 1]);
        if front.None? then None else Some(front.value * 10 + unit)
  }

  lemma {:induction false} DecimalRead(n: nat)
    ensures DecimalValue(Decimal(n)) == Some(n)
    ensures n > 0 ==> Decimal(n)[0] != '0'
  {
    if n >= 10 {
      DecimalRead(n / 10);
      var s := Decimal(n);
      assert s[..|s| - 1] == Decimal(n / 10);
      assert s[0] == Decimal(n / 10)[0];
    }
  }

  lemma {:induction false} DecimalDigits(n: nat)
    ensures forall c | c in Decimal(n) :: IsDigit(c)
  {
    if n >= 10 {
      DecimalDigits(n / 10);
    }
  }
}
