/** Decimal rendering as `fmt.Sprintf("%03d")` performs it. */
module Decimal {

  function Digit(d: nat): char
    requires d < 10
  {
    '0' + d as char
  }

  function Digits(n: nat): (s: string)
    ensures |s| >= 1
    ensures n >= 10 ==> |s| >= 2
  {
    if n < 10 then [Digit(n)] else Digits(n / 10) + [Digit(n % 10)]
  }

  function Pad3(n: nat): string {
    if n < 10 then "00" + Digits(n) else if n < 100 then "0" + Digits(n) else Digits(n)
  }

  /** The number a padded rendering stands for. */
  function Value(s: string): int {
    if s == [] then 0 else 10 * Value(s[..|s| - 1]) + (s[|s| - 1] as int - '0' as int)
  }

  lemma {:induction false} ValueOfDigits(n: nat)
    ensures Value(Digits(n)) == n
  {
    if n >= 10 {
      ValueOfDigits(n / 10);
      assert Digits(n)[..|Digits(n)| - 1] == Digits(n / 10);
    } else {
      assert Digits(n)[..0] == [];
    }
  }

  lemma {:induction false} ValueOfZeros(s: string)
    ensures Value("0" + s) == Value(s)
  {
    if s == [] {
      assert "0" + s == "0" && "0"[..0] == [];
    } else {
      assert ("0" + s)[..|s|] == "0" + s[..|s| - 1];
      ValueOfZeros(s[..|s| - 1]);
    }
  }

  /** Distinct numbers have distinct names, so numbered IDs and archives never collide. */
  lemma Pad3Injective(m: nat, n: nat)
    requires Pad3(m) == Pad3(n)
    ensures m == n
  {
    ValueOfPad3(m);
    ValueOfPad3(n);
  }

  lemma ValueOfPad3(n: nat)
    ensures Value(Pad3(n)) == n
  {
    ValueOfDigits(n);
    ValueOfZeros(Digits(n));
    ValueOfZeros("0" + Digits(n));
    assert "00" + Digits(n) == "0" + ("0" + Digits(n));
  }
}
