/** Binary numerals written as strings of '0' and '1' characters, most
    significant digit first, as JavaScript's `Number.prototype.toString(2)`
    produces them. */
module BinaryNumeral {

  /** A string made only of the characters '0' and '1'. */
  predicate IsBinary(s: string)
  {
    forall i :: 0 <= i < |s| ==> s[i] == '0' || s[i] == '1'
  }

  /** Two to the power k. */
  function Pow2(k: nat): (p: nat)
    ensures p >= 1
  {
    if k == 0 then 1 else 2 * Pow2(k - 1)
  }

  lemma {:induction false} Pow2Monotone(i: nat, j: nat)
    requires i <= j
    ensures Pow2(i) <= Pow2(j)
    decreases j - i
  {
    if i < j {
      Pow2Monotone(i + 1, j);
    }
  }

  /** The powers of two that bound a byte and a UTF-16 code unit. */
  lemma Pow2Values()
    ensures Pow2(7) == 0x80 && Pow2(8) == 0x100 && Pow2(16) == 0x1_0000
  {
  }

  /** `k` zero characters, as `'0'.repeat(k)` gives them. */
  function Zeros(k: nat): string
  {
    seq(k, _ => '0')
  }

  function Digit(b: nat): char
    requires b < 2
  {
    if b == 0 then '0' else '1'
  }

  function BitOf(c: char): nat
  {
    if c == '1' then 1 else 0
  }

  /** The numeral `n.toString(2)`: the binary digits of n with no leading
      zero, and "0" for zero. Its length is the bit length of n. */
  function ToBinary(n: nat): (r: string)
    ensures IsBinary(r) && |r| >= 1
    ensures n == 0 <==> r == "0"
    ensures n > 0 ==> r[0] == '1'
    ensures n < Pow2(|r|)
    ensures n > 0 ==> Pow2(|r| - 1) <= n
    decreases n
  {
    if n < 2 then [Digit(n)] else ToBinary(n / 2) + [Digit(n % 2)]
  }

  /** The value of a numeral read most significant digit first; the empty
      numeral reads as zero. This is the inverse of ToBinary. */
  function FromBinary(s: string): (n: nat)
    ensures n < Pow2(|s|)
  {
    if s == [] then 0 else 2 * FromBinary(s[..|s| - 1]) + BitOf(s[|s| - 1])
  }

  /** A numeral as ToBinary writes it: binary, non-empty, and either "0" or
      starting with a '1'. */
  predicate IsCanonical(s: string)
  {
    IsBinary(s) && |s| >= 1 && (s == "0" || s[0] == '1')
  }

  /** Reading back what ToBinary wrote gives the number again. */
  lemma {:induction false} FromToBinary(n: nat)
    ensures FromBinary(ToBinary(n)) == n
    decreases n
  {
    if n >= 2 {
      var r := ToBinary(n);
      assert r[..|r| - 1] == ToBinary(n / 2);
      FromToBinary(n / 2);
    }
  }

  /** A numeral that starts with a '1' is worth at least 2^(length - 1). */
  lemma {:induction false} LeadingOneLowerBound(s: string)
    requires |s| >= 1 && s[0] == '1'
    ensures FromBinary(s) >= Pow2(|s| - 1)
  {
    if |s| > 1 {
      LeadingOneLowerBound(s[..|s| - 1]);
    }
  }

  /** Every canonical numeral is the one ToBinary writes for its value, so
      ToBinary is a bijection between the naturals and canonical numerals. */
  lemma {:induction false} ToFromBinary(s: string)
    requires IsCanonical(s)
    ensures ToBinary(FromBinary(s)) == s
  {
    if |s| == 1 {
      assert s == "0" || s == "1";
    } else {
      var init := s[..|s| - 1];
      var n := FromBinary(s);
      LeadingOneLowerBound(s);
      Pow2Monotone(1, |s| - 1);
      assert n / 2 == FromBinary(init);
      assert Digit(n % 2) == s[|s| - 1];
      ToFromBinary(init);
      assert s == init + [s[|s| - 1]];
    }
  }

  /** Appending digits shifts the value left by their number. */
  lemma {:induction false} FromBinaryAppend(s: string, t: string)
    ensures FromBinary(s + t) == FromBinary(s) * Pow2(|t|) + FromBinary(t)
    decreases |t|
  {
    if t != [] {
      var init := t[..|t| - 1];
      assert (s + t)[..|s + t| - 1] == s + init;
      FromBinaryAppend(s, init);
      var b := BitOf(t[|t| - 1]);
      assert FromBinary(s + t) == 2 * FromBinary(s + init) + b;
      assert FromBinary(t) == 2 * FromBinary(init) + b;
      ShiftStep(FromBinary(s), Pow2(|init|), FromBinary(init), b);
    } else {
      assert s + t == s;
    }
  }

  lemma ShiftStep(a: nat, p: nat, x: nat, b: nat)
    ensures 2 * (a * p + x) + b == a * (2 * p) + (2 * x + b)
  {
  }

  /** Zeros read as zero, whatever their number. */
  lemma {:induction false} FromBinaryZeros(k: nat)
    ensures FromBinary(Zeros(k)) == 0
  {
    if k > 0 {
      assert Zeros(k)[..k - 1] == Zeros(k - 1);
      FromBinaryZeros(k - 1);
    }
  }

  /** Leading zeros do not change a numeral's value. */
  lemma LeadingZeros(k: nat, s: string)
    ensures FromBinary(Zeros(k) + s) == FromBinary(s)
  {
    FromBinaryAppend(Zeros(k), s);
    FromBinaryZeros(k);
  }
}
