/**
 * ToStrRadix::to_str: Rust's `{:b}`, `{:o}`, `{}` and `{:X}` formatting of a
 * signed fixed-width integer.
 */
module Format {
  import opened Radix

  /** The digit character for d: '0'..'9', then upper-case 'A'..'F'. */
  function DigitChar(d: nat): (c: char)
    requires d < 16
    ensures '0' <= c <= '9' || 'A' <= c <= 'F'
    ensures forall radix :: d < radix ==> ToDigit(c, radix) == Some(d)
    ensures c == '0' <==> d == 0
  {
    if d < 10 then ('0' as int + d) as char else ('A' as int + d - 10) as char
  }

  /** The characters a formatted number is made of. */
  predicate IsOutputChar(c: char) {
    '0' <= c <= '9' || 'A' <= c <= 'F' || c == '-'
  }

  /**
   * The digits of n in the given base, most significant first: at least one
   * digit, no leading zero unless n is zero, and they denote n.
   */
  function NatDigits(n: nat, base: nat): (s: string)
    requires ValidBase(base)
    ensures |s| >= 1
    ensures forall i :: 0 <= i < |s| ==> '0' <= s[i] <= '9' || 'A' <= s[i] <= 'F'
    ensures AllDigits(s, base) && Value(s, base) == n
    ensures s[0] == '0' <==> n == 0
    ensures n == 0 ==> s == "0"
    decreases n
  {
    if n < base then [DigitChar(n)]
    else
      var s := NatDigits(n / base, base) + [DigitChar(n % base)];
      ValueAppend(NatDigits(n / base, base), DigitChar(n % base), base);
      s
  }

  /** The raw w-bit two's-complement pattern of x, read as an unsigned number. */
  function Bits(x: int, w: nat): (u: nat)
    requires w >= 1 && InRange(x, w)
    ensures u < Pow2(w)
    ensures u == x % Pow2(w)
    ensures x >= 0 ==> u == x
    ensures u == 0 <==> x == 0
  {
    var p := Pow2(w);
    assert p == 2 * Pow2(w - 1);
    var u := if x < 0 then x + p else x;
    ModByRange(x, if x < 0 then -1 else 0, u, p);
    u
  }

  /** x % p is the u with x == q * p + u and 0 <= u < p. */
  lemma ModByRange(x: int, q: int, u: int, p: int)
    requires p > 0 && 0 <= u < p && x == q * p + u
    ensures x % p == u
  {
    var k, r := x / p, x % p;
    assert x == k * p + r && 0 <= r < p;
    assert (k - q) * p == u - r;
    if k - q >= 1 {
      assert false;
    } else if k - q <= -1 {
      assert false;
    }
  }

  /**
   * to_str: signed decimal for base 10, the two's-complement pattern for
   * bases 2, 8 and 16. No prefix, no '+', and a '-' only in front of a
   * negative decimal.
   */
  function ToStr(x: int, base: nat, w: nat): (s: string)
    requires ValidBase(base) && ValidSize(w) && InRange(x, w)
    ensures |s| >= 1
    ensures forall i :: 0 <= i < |s| ==> IsOutputChar(s[i])
    ensures s[0] == '-' <==> base == 10 && x < 0
    ensures forall i :: 0 < i < |s| ==> s[i] != '-'
    ensures base == 10 && x < 0 ==> s == "-" + NatDigits(-x, 10)
    ensures base == 10 && x >= 0 ==> s == NatDigits(x, 10)
    ensures base != 10 ==> s == NatDigits(Bits(x, w), base)
  {
    if base == 10 then
      if x < 0 then "-" + NatDigits(-x, 10) else NatDigits(x, 10)
    else NatDigits(Bits(x, w), base)
  }

  /** Bases 2, 8 and 16 print the digits of x for x >= 0 and of x + 2^w for x < 0. */
  lemma ToStrTwosComplement(x: int, base: nat, w: nat)
    requires ValidBase(base) && base != 10 && ValidSize(w) && InRange(x, w)
    ensures AllDigits(ToStr(x, base, w), base)
    ensures Value(ToStr(x, base, w), base) == (if x >= 0 then x else x + Pow2(w))
    ensures Value(ToStr(x, base, w), base) == x % Pow2(w)
  {
    var u := Bits(x, w);
    assert ToStr(x, base, w) == NatDigits(u, base);
    assert Value(NatDigits(u, base), base) == u;
  }

  /** No leading zeros: the only output starting with '0' is "0" itself. */
  lemma ToStrNoLeadingZero(x: int, base: nat, w: nat)
    requires ValidBase(base) && ValidSize(w) && InRange(x, w)
    ensures ToStr(x, base, w)[0] == '0' <==> x == 0
    ensures x == 0 ==> ToStr(x, base, w) == "0"
    ensures base == 10 && x < 0 ==> ToStr(x, base, w)[1] != '0'
  {
    if base == 10 && x < 0 {
      var d := NatDigits(-x, 10);
      assert ToStr(x, base, w) == "-" + d;
      assert ("-" + d)[1] == d[0];
    }
  }
}
