/** Base-10 text of natural numbers: what strconv.AppendInt writes for a
    non-negative count, and the digit strings the seconds text is built from. */
module Decimal {
  import opened Bytes

  const Zero: byte := '0' as byte
  const Nine: byte := '9' as byte

  predicate IsDigit(b: byte) {
    Zero <= b <= Nine
  }

  predicate AllDigits(s: seq<byte>) {
    forall i :: 0 <= i < |s| ==> IsDigit(s[i])
  }

  function DigitChar(d: nat): (b: byte)
    requires d < 10
    ensures IsDigit(b) && b as int - Zero as int == d
  {
    (Zero as int + d) as byte
  }

  function DigitValue(b: byte): nat
    requires IsDigit(b)
  {
    b as int - Zero as int
  }

  function Pow10(k: nat): (p: nat)
    ensures p >= 1
  {
    if k == 0 then 1 else 10 * Pow10(k - 1)
  }

  /** The number a digit string denotes, most significant digit first. */
  function Value(s: seq<byte>): nat
    requires AllDigits(s)
  {
    if s == [] then 0 else Value(s[..|s| - 1]) * 10 + DigitValue(s[|s| - 1])
  }

  /** The shortest decimal text of n: at least one digit, and a leading
      zero only for n == 0 itself. */
  function Digits(n: nat): (s: seq<byte>)
    ensures AllDigits(s) && |s| >= 1
    ensures (s[0] == Zero) == (n == 0)
  {
    if n < 10 then [DigitChar(n)] else Digits(n / 10) + [DigitChar(n % 10)]
  }

  lemma {:induction false} DigitsValue(n: nat)
    ensures Value(Digits(n)) == n
  {
    if n >= 10 {
      var s := Digits(n);
      assert s[..|s| - 1] == Digits(n / 10);
      DigitsValue(n / 10);
    }
  }

  lemma {:induction false} DigitsLength(n: nat, k: nat)
    requires 1 <= k && n < Pow10(k)
    ensures |Digits(n)| <= k
  {
    if n >= 10 {
      assert k >= 2;
      DigitsLength(n / 10, k - 1);
    }
  }

  /** The last k decimal digits of f, with leading zeros. */
  function Pad(f: nat, k: nat): (s: seq<byte>)
    ensures |s| == k && AllDigits(s)
  {
    if k == 0 then [] else Pad(f / 10, k - 1) + [DigitChar(f % 10)]
  }

  lemma {:induction false} PadValue(f: nat, k: nat)
    ensures Value(Pad(f, k)) == f % Pow10(k)
  {
    if k > 0 {
      var s := Pad(f, k);
      assert s[..k - 1] == Pad(f / 10, k - 1);
      PadValue(f / 10, k - 1);
      ModPow10Step(f, k);
    }
  }

  lemma ModPow10Step(f: nat, k: nat)
    requires k > 0
    ensures f % Pow10(k) == (f / 10) % Pow10(k - 1) * 10 + f % 10
  {
    var p := Pow10(k - 1);
    var q := f / 10;
    assert f == q * 10 + f % 10;
    assert q == (q / p) * p + q % p;
    assert f == (q / p) * (10 * p) + ((q % p) * 10 + f % 10);
    assert 0 <= (q % p) * 10 + f % 10 < 10 * p;
    ModUnique(f, 10 * p, q / p, (q % p) * 10 + f % 10);
  }

  lemma ModUnique(a: int, b: int, q: int, r: int)
    requires b > 0 && a == q * b + r && 0 <= r < b
    ensures a % b == r && a / b == q
  {
    var q', r' := a / b, a % b;
    assert (q - q') * b == r' - r;
    if q > q' {
      MulAtLeast(q - q', b);
    } else if q < q' {
      MulAtLeast(q' - q, b);
    }
  }

  lemma MulAtLeast(x: int, b: int)
    requires x >= 1 && b > 0
    ensures x * b >= b
  {
  }

  /** Drops the trailing zero digits of a fraction. */
  function StripZeros(s: seq<byte>): (r: seq<byte>)
    ensures |r| <= |s| && r == s[..|r|]
    ensures r == [] || r[|r| - 1] != Zero
  {
    if s != [] && s[|s| - 1] == Zero then StripZeros(s[..|s| - 1]) else s
  }

  lemma {:induction false} StripZerosValue(s: seq<byte>)
    requires AllDigits(s)
    ensures Value(s) == Value(StripZeros(s)) * Pow10(|s| - |StripZeros(s)|)
  {
    if s != [] && s[|s| - 1] == Zero {
      var t := s[..|s| - 1];
      StripZerosValue(t);
      var r := StripZeros(t);
      assert StripZeros(s) == r;
      assert Value(s) == Value(t) * 10 by {
        assert s[..|s| - 1] == t;
      }
      var p := Pow10(|t| - |r|);
      assert Pow10(|s| - |r|) == 10 * p;
      MulShift(Value(r), p);
    }
  }

  lemma MulShift(v: int, p: int)
    ensures v * p * 10 == v * (10 * p)
  {
  }
}
