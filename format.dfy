/**
 * Digit strings as Python writes them with `hex(n)[2:]`, `oct(n)[2:]` and
 * `"%d" % n`: lower-case digits, no prefix, no leading zeros, and "0" for
 * zero. Every rendering is paired with the reading that inverts it.
 */
module Format {

  /** The digit of value `d`, lower case as `hex()` writes it. */
  function DigitChar(d: nat): char
    requires d < 16
  {
    if d < 10 then ('0' as int + d) as char else ('a' as int + d - 10) as char
  }

  /** The value of a digit character; 16, a value no base here accepts, for a non-digit. */
  function DigitValue(c: char): nat
  {
    if '0' <= c <= '9' then c as nat - '0' as nat
    else if 'a' <= c <= 'f' then c as nat - 'a' as nat + 10
    else 16
  }

  /** Every character of `s` is a digit of base `base`. */
  predicate IsDigits(s: string, base: nat)
  {
    forall i :: 0 <= i < |s| ==> DigitValue(s[i]) < base
  }

  /** `n` written in base `base`, most significant digit first, without leading zeros. */
  function ToBase(n: nat, base: nat): string
    requires 2 <= base <= 16
    decreases n
  {
    if n < base then [DigitChar(n)] else ToBase(n / base, base) + [DigitChar(n % base)]
  }

  /** The value of the digit string `s` read in base `base`; the empty string reads as 0. */
  function FromBase(s: string, base: nat): nat
  {
    if s == [] then 0 else FromBase(s[..|s| - 1], base) * base + DigitValue(s[|s| - 1])
  }

  /** `"%d" % n`. */
  function Decimal(n: nat): string { ToBase(n, 10) }

  /** `hex(n)[2:]`. */
  function Hex(n: nat): string { ToBase(n, 16) }

  /** `oct(n)[2:]`. */
  function Octal(n: nat): string { ToBase(n, 8) }

  /** `k` zero digits. */
  function Zeros(k: nat): (z: string)
    ensures |z| == k && forall i :: 0 <= i < k ==> z[i] == '0'
  {
    seq(k, _ => '0')
  }

  lemma {:induction false} DigitRoundTrip(d: nat)
    requires d < 16
    ensures DigitValue(DigitChar(d)) == d
  {
  }

  /** `ToBase` writes a non-empty, canonical string of digits of the base. */
  lemma {:induction false} ToBaseDigits(n: nat, base: nat)
    requires 2 <= base <= 16
    ensures IsDigits(ToBase(n, base), base)
    ensures |ToBase(n, base)| > 0
    ensures ToBase(n, base)[0] == '0' ==> n == 0
    decreases n
  {
    if n < base {
      DigitRoundTrip(n);
    } else {
      var q, r := n / base, n % base;
      QuotientSmaller(n, base);
      ToBaseDigits(q, base);
      DigitRoundTrip(r);
      DigitsSnoc(ToBase(q, base), DigitChar(r), base);
    }
  }

  lemma {:induction false} DigitsSnoc(p: string, c: char, base: nat)
    requires IsDigits(p, base) && DigitValue(c) < base && |p| > 0
    ensures IsDigits(p + [c], base) && (p + [c])[0] == p[0]
  {
    assert forall i :: 0 <= i < |p| ==> (p + [c])[i] == p[i];
  }

  lemma {:induction false} DivMod(n: nat, base: nat)
    requires 2 <= base <= 16
    ensures n == (n / base) * base + n % base
  {
  }

  lemma QuotientSmaller(n: nat, base: nat)
    requires 2 <= base <= 16 && n >= base
    ensures n / base < n
  {
  }

  /** Reading a string with one more digit at the end. */
  lemma {:induction false} FromBaseSnoc(p: string, c: char, base: nat)
    ensures FromBase(p + [c], base) == FromBase(p, base) * base + DigitValue(c)
  {
    assert (p + [c])[..|p|] == p;
  }

  /** `FromBaseSnoc` with the value of the prefix already known. */
  lemma FromBaseSnocValue(p: string, c: char, base: nat, v: nat)
    requires FromBase(p, base) == v
    ensures FromBase(p + [c], base) == v * base + DigitValue(c)
  {
    FromBaseSnoc(p, c, base);
  }

  /** Reading what `ToBase` wrote gives the number back. */
  lemma {:induction false} FromBaseToBase(n: nat, base: nat)
    requires 2 <= base <= 16
    ensures FromBase(ToBase(n, base), base) == n
    decreases n
  {
    if n < base {
      DigitRoundTrip(n);
      FromBaseSnoc([], DigitChar(n), base);
      assert [] + [DigitChar(n)] == ToBase(n, base);
    } else {
      var q, r := n / base, n % base;
      var p := ToBase(q, base);
      assert ToBase(n, base) == p + [DigitChar(r)];
      QuotientSmaller(n, base);
      assert FromBase(p, base) == q by {
        FromBaseToBase(q, base);
      }
      DigitRoundTrip(r);
      FromBaseSnocValue(p, DigitChar(r), base, q);
      DivMod(n, base);
    }
  }

  /** A leading zero does not change the value of a digit string. */
  lemma {:induction false} FromBaseLeadingZero(s: string, base: nat)
    ensures FromBase(['0'] + s, base) == FromBase(s, base)
    decreases |s|
  {
    var t := ['0'] + s;
    if s == [] {
      assert t[..|t| - 1] == [];
    } else {
      FromBaseLeadingZero(s[..|s| - 1], base);
      assert t[..|t| - 1] == ['0'] + s[..|s| - 1];
    }
  }

  /** Any number of leading zeros does not change the value of a digit string. */
  lemma {:induction false} FromBaseZeros(k: nat, s: string, base: nat)
    ensures FromBase(Zeros(k) + s, base) == FromBase(s, base)
    ensures IsDigits(s, base) && base > 0 ==> IsDigits(Zeros(k) + s, base)
  {
    if k == 0 {
      assert Zeros(k) + s == s;
    } else {
      FromBaseZeros(k - 1, s, base);
      assert Zeros(k) + s == ['0'] + (Zeros(k - 1) + s);
      FromBaseLeadingZero(Zeros(k - 1) + s, base);
    }
  }

  /** Distinct numbers have distinct decimal writings. */
  lemma {:induction false} DecimalInjective(m: nat, n: nat)
    ensures Decimal(m) == Decimal(n) <==> m == n
  {
    FromBaseToBase(m, 10);
    FromBaseToBase(n, 10);
  }

  /** `oct(n)[2:]` has one digit below 8 and two digits from 8 to 63. */
  lemma {:induction false} OctalLength(n: nat)
    ensures n < 8 ==> |Octal(n)| == 1
    ensures 8 <= n < 64 ==> |Octal(n)| == 2
  {
    if 8 <= n < 64 {
      assert n / 8 < 8;
      assert ToBase(n / 8, 8) == [DigitChar(n / 8)];
    }
  }

  /** A number below 0x10000 has at most four hex digits. */
  lemma {:induction false} HexLength(n: nat)
    requires n < 0x10000
    ensures |Hex(n)| <= 4
  {
    if n >= 16 {
      ToBaseStep(n, 16);
      var q := n / 16;
      if q >= 16 {
        ToBaseStep(q, 16);
        var q2 := q / 16;
        if q2 >= 16 {
          ToBaseStep(q2, 16);
          assert q2 / 16 < 16;
        }
      }
    }
  }

  /** A number of at least `base` has one more digit than its quotient by `base`. */
  lemma {:induction false} ToBaseStep(n: nat, base: nat)
    requires 2 <= base <= 16 && n >= base
    ensures |ToBase(n, base)| == |ToBase(n / base, base)| + 1
  {
  }
}
