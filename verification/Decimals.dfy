/** Decimal numbers as byte strings. */
module Decimals {
  import opened Wrappers
  import opened Wire

  predicate IsDigit(b: Byte) {
    48 <= b <= 57
  }

  predicate AllDigits(s: seq<Byte>) {
    forall i :: 0 <= i < |s| ==> IsDigit(s[i])
  }

  function DecimalValue(s: seq<Byte>): nat
    requires AllDigits(s)
  {
    if s == [] then 0 else 10 * DecimalValue(s[..|s| - 1]) + (s[|s| - 1] - 48) as nat
  }

  /** `parse::<u16>` and `parse::<usize>`: an optional plus sign, at least one digit, no overflow. */
  function ParseDecimal(s: seq<Byte>, max: nat): Option<nat> {
    var digits := if |s| > 1 && s[0] == 43 then s[1..] else s;
    if digits != [] && AllDigits(digits) && DecimalValue(digits) <= max then Some(DecimalValue(digits)) else None
  }

  function DecimalText(n: nat): seq<Byte> {
    (if n < 10 then [] else DecimalText(n / 10)) + [(48 + n % 10) as Byte]
  }

  lemma {:induction false} DecimalTextValue(n: nat)
    ensures DecimalText(n) != [] && AllDigits(DecimalText(n)) && DecimalValue(DecimalText(n)) == n
  {
    var s := DecimalText(n);
    if n >= 10 {
      DecimalTextValue(n / 10);
      assert s[..|s| - 1] == DecimalText(n / 10);
    } else {
      assert s[..|s| - 1] == [];
    }
  }
}
