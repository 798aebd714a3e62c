/**
 Binary digits and the two conversions the gamma codec relies on: the digits
 of a positive number (what `bin(n)[2:]` gives in gamma.py) and the value of a
 digit string read most significant digit first (what `int(s, 2)` gives).
 */
module Bits {

  /** A binary digit, written as the character the codec's strings use. */
  type Bit = c: char | c == '0' || c == '1' witness '0'

  function DigitValue(b: Bit): (v: nat)
    ensures v < 2
  {
    if b == '1' then 1 else 0
  }

  function Pow2(k: nat): (r: nat)
    ensures r >= 1
  {
    if k == 0 then 1 else 2 * Pow2(k - 1)
  }

  /** floor(log2 n), so that n has Log2(n) + 1 binary digits. */
  function Log2(n: nat): (k: nat)
    requires n >= 1
  {
    if n == 1 then 0 else 1 + Log2(n / 2)
  }

  /** Log2(n) is the exponent of the largest power of two not above n. */
  lemma {:induction false} Log2Bounds(n: nat)
    requires n >= 1
    ensures Pow2(Log2(n)) <= n < Pow2(Log2(n) + 1)
  {
    if n > 1 {
      Log2Bounds(n / 2);
    }
  }

  /** ... and it is the only such exponent. */
  lemma {:induction false} Log2Unique(n: nat, k: nat)
    requires Pow2(k) <= n < Pow2(k + 1)
    ensures n >= 1 && Log2(n) == k
  {
    if k > 0 {
      Log2Unique(n / 2, k - 1);
    }
  }

  /** The value of a digit string, most significant digit first; the empty
      string has value 0. */
  function BitsToNat(s: seq<Bit>): (r: nat)
    ensures r < Pow2(|s|)
  {
    if |s| == 0 then 0 else 2 * BitsToNat(s[..|s| - 1]) + DigitValue(s[|s| - 1])
  }

  /** The binary digits of a positive number, most significant first. */
  function Binary(n: nat): (r: seq<Bit>)
    requires n >= 1
    ensures |r| >= 1
  {
    if n == 1 then ['1'] else Binary(n / 2) + [if n % 2 == 0 then '0' else '1']
  }

  /** Binary(n) has floor(log2 n) + 1 digits, no leading zero, and value n. */
  lemma {:induction false} BinaryDigits(n: nat)
    requires n >= 1
    ensures |Binary(n)| == Log2(n) + 1
    ensures Binary(n)[0] == '1'
    ensures BitsToNat(Binary(n)) == n
  {
    if n > 1 {
      BinaryDigits(n / 2);
      var r := Binary(n);
      assert r[..|r| - 1] == Binary(n / 2);
    }
  }

  /** A leading 1 in front of k digits adds 2^k to their value: this is why
      `int("1" + offset, 2)` equals 2^L + offset. */
  lemma {:induction false} LeadingOne(s: seq<Bit>)
    ensures BitsToNat(['1'] + s) == Pow2(|s|) + BitsToNat(s)
  {
    var t := ['1'] + s;
    if |s| == 0 {
      assert t[..0] == [];
    } else {
      assert t[..|t| - 1] == ['1'] + s[..|s| - 1];
      LeadingOne(s[..|s| - 1]);
    }
  }

  /** Two digit strings of the same length with the same value are equal. */
  lemma {:induction false} BitsToNatInjective(a: seq<Bit>, b: seq<Bit>)
    requires |a| == |b| && BitsToNat(a) == BitsToNat(b)
    ensures a == b
  {
    if |a| > 0 {
      var n := |a|;
      BitsToNatInjective(a[..n - 1], b[..n - 1]);
      assert a[n - 1] == b[n - 1];
      assert a == a[..n - 1] + [a[n - 1]];
      assert b == b[..n - 1] + [b[n - 1]];
    }
  }
}
