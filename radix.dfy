/** Radixes, signed widths and digits: the vocabulary shared by parsing and formatting. */
module Radix {

  datatype Option<T> = None | Some(value: T)

  /** The radixes the converter reads and writes. */
  predicate ValidBase(b: int) {
    b == 2 || b == 8 || b == 10 || b == 16
  }

  /** The signed integer widths it dispatches on: i8, i16, i32 and i64. */
  predicate ValidSize(w: int) {
    w == 8 || w == 16 || w == 32 || w == 64
  }

  function Pow2(n: nat): (r: nat)
    ensures r >= 1
  {
    if n == 0 then 1 else 2 * Pow2(n - 1)
  }

  /** Smallest value of a w-bit two's-complement integer, -2^(w-1). */
  function MinValue(w: nat): int
    requires w >= 1
  {
    -(Pow2(w - 1) as int)
  }

  /** Largest value of a w-bit two's-complement integer, 2^(w-1) - 1. */
  function MaxValue(w: nat): int
    requires w >= 1
  {
    Pow2(w - 1) - 1
  }

  predicate InRange(x: int, w: nat)
    requires w >= 1
  {
    MinValue(w) <= x <= MaxValue(w)
  }

  lemma {:induction false} Pow2Monotone(m: nat, n: nat)
    requires m <= n
    ensures Pow2(m) <= Pow2(n)
  {
    if m < n {
      Pow2Monotone(m, n - 1);
    }
  }

  /** A value that fits a narrower width fits every wider one. */
  lemma RangeNested(x: int, w1: nat, w2: nat)
    requires 1 <= w1 <= w2
    requires InRange(x, w1)
    ensures InRange(x, w2)
    ensures MinValue(w2) <= MinValue(w1) && MaxValue(w1) <= MaxValue(w2)
  {
    Pow2Monotone(w1 - 1, w2 - 1);
  }

  /** The value of a character as a digit of radix 36: '0'..'9', then the letters in either case. */
  function CharValue(c: char): (v: int)
    ensures -1 <= v < 36
  {
    if '0' <= c <= '9' then c as int - '0' as int
    else if 'a' <= c <= 'z' then c as int - 'a' as int + 10
    else if 'A' <= c <= 'Z' then c as int - 'A' as int + 10
    else -1
  }

  /** The standard library's char::to_digit: the digit's value when it is below the radix. */
  function ToDigit(c: char, radix: nat): (r: Option<nat>)
    ensures r.Some? ==> r.value < radix && r.value < 36
    ensures r.Some? ==> ('0' <= c <= '9' || 'a' <= c <= 'z' || 'A' <= c <= 'Z')
    ensures radix <= 10 ==> (r.Some? <==> '0' <= c < ('0' as int + radix) as char)
    ensures radix == 16 ==> (r.Some? <==> ('0' <= c <= '9' || 'a' <= c <= 'f' || 'A' <= c <= 'F'))
    ensures r.Some? && '0' <= c <= '9' ==> r.value == c as int - '0' as int
    ensures r.Some? && !('0' <= c <= '9') ==> r.value >= 10
  {
    var v := CharValue(c);
    if 0 <= v < radix then Some(v) else None
  }

  /** Hexadecimal letters are accepted in either case with the same value. */
  lemma DigitCaseInsensitive(c: char, radix: nat)
    requires 'a' <= c <= 'z'
    ensures ToDigit(((c as int) - 32) as char, radix) == ToDigit(c, radix)
  {
  }

  predicate AllDigits(s: string, radix: nat) {
    forall i :: 0 <= i < |s| ==> ToDigit(s[i], radix).Some?
  }

  /** The number a run of digits denotes, most significant digit first (Horner's rule). */
  function Value(s: string, radix: nat): nat
    requires AllDigits(s, radix)
  {
    if s == [] then 0
    else
      var p := s[..|s| - 1];
      assert forall i :: 0 <= i < |p| ==> p[i] == s[i];
      var v := Value(p, radix);
      ProductNonNegative(v, radix);
      v * radix + ToDigit(s[|s| - 1], radix).value
  }

  lemma AllDigitsConcat(p: string, s: string, radix: nat)
    ensures AllDigits(p + s, radix) <==> AllDigits(p, radix) && AllDigits(s, radix)
  {
    if AllDigits(p, radix) && AllDigits(s, radix) {
      forall i | 0 <= i < |p + s| ensures ToDigit((p + s)[i], radix).Some? {
        if i >= |p| {
          assert (p + s)[i] == s[i - |p|];
        }
      }
    }
    if AllDigits(p + s, radix) {
      forall i | 0 <= i < |p| ensures ToDigit(p[i], radix).Some? {
        assert p[i] == (p + s)[i];
      }
      forall i | 0 <= i < |s| ensures ToDigit(s[i], radix).Some? {
        assert s[i] == (p + s)[|p| + i];
      }
    }
  }

  /** Appending digits never makes the denoted value smaller. */
  lemma {:induction false} ValuePrefixLe(p: string, s: string, radix: nat)
    requires radix >= 1
    requires AllDigits(p + s, radix)
    ensures AllDigits(p, radix)
    ensures Value(p, radix) <= Value(p + s, radix)
  {
    AllDigitsConcat(p, s, radix);
    if s == [] {
      assert p + s == p;
    } else {
      var s', c := s[..|s| - 1], s[|s| - 1];
      assert s == s' + [c];
      assert p + s == (p + s') + [c];
      AllDigitsConcat(s', [c], radix);
      AllDigitsConcat(p, s', radix);
      ValuePrefixLe(p, s', radix);
      ValueAppend(p + s', c, radix);
      MulAtLeast(Value(p + s', radix), radix);
    }
  }

  lemma ProductNonNegative(a: nat, b: nat)
    ensures a * b >= 0
  {
  }

  lemma MulAtLeast(v: nat, k: nat)
    requires k >= 1
    ensures v * k >= v
  {
    assert v * k == v + v * (k - 1);
  }

  /** Horner step: one more digit multiplies by the radix and adds the digit. */
  lemma ValueAppend(p: string, c: char, radix: nat)
    requires AllDigits(p, radix) && ToDigit(c, radix).Some?
    ensures AllDigits(p + [c], radix)
    ensures Value(p + [c], radix) == Value(p, radix) * radix + ToDigit(c, radix).value
  {
    AllDigitsConcat(p, [c], radix);
    assert (p + [c])[..|p + [c]| - 1] == p;
  }
}
