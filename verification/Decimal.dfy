/** Decimal numerals, as printf's %d and %zu write them. */
module Decimal {
  import opened Bytes

  function Numeral(n: nat): (s: seq<byte>)
    ensures s != []
  {
    if n < 10 then ['0' as int + n] else Numeral(n / 10) + ['0' as int + n % 10]
  }

  function SignedNumeral(i: int): seq<byte> {
    if i < 0 then ['-' as int] + Numeral(-i) else Numeral(i)
  }

  ghost predicate AllDigits(s: seq<byte>) {
    forall k :: 0 <= k < |s| ==> IsDigit(s[k])
  }

  lemma {:induction false} NumeralDigits(n: nat)
    ensures AllDigits(Numeral(n))
    ensures n > 0 ==> Numeral(n)[0] != '0' as int
  {
    if n >= 10 {
      NumeralDigits(n / 10);
    }
  }

  /** What a left-to-right scan of digits accumulates. */
  function Scan(s: seq<byte>, v: int): int
    decreases |s|
  {
    if s == [] then v else Scan(s[1..], v * 10 + s[0] - '0' as int)
  }

  lemma {:induction false} ScanAppend(s: seq<byte>, d: byte, v: int)
    ensures Scan(s + [d], v) == Scan(s, v) * 10 + d - '0' as int
    decreases |s|
  {
    if s != [] {
      assert (s + [d])[1..] == s[1..] + [d];
      ScanAppend(s[1..], d, v * 10 + s[0] - '0' as int);
    }
  }

  /** Scanning a numeral gives the number back. */
  lemma {:induction false} ScanNumeral(n: nat)
    ensures Scan(Numeral(n), 0) == n
  {
    if n >= 10 {
      ScanNumeral(n / 10);
      ScanAppend(Numeral(n / 10), '0' as int + n % 10, 0);
    }
  }

  function Pow10(k: nat): (p: nat)
    ensures p > 0
  {
    if k == 0 then 1 else 10 * Pow10(k - 1)
  }

  lemma {:induction false} NumeralLength(n: nat, k: nat)
    requires k > 0 && n < Pow10(k)
    ensures |Numeral(n)| <= k
  {
    if n >= 10 {
      NumeralLength(n / 10, k - 1);
    }
  }
}
