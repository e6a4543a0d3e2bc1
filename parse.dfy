/**
 * FromStrRadix::from_str for i8, i16, i32 and i64: the standard library's
 * from_str_radix, which reads an optional sign and then folds the digits into
 * an accumulator, checking the target width's range after every digit.
 */
module Parse {
  import opened Radix

  /** The kinds of ParseIntError the parse can report. */
  datatype ParseError = Empty | InvalidDigit | PosOverflow | NegOverflow

  datatype Result<T> = Ok(value: T) | Err(error: ParseError)

  function Signed(negative: bool, n: int): int {
    if negative then -n else n
  }

  predicate IsSign(c: char) {
    c == '+' || c == '-'
  }

  /**
   * The digit loop. A negative literal is accumulated downwards (acc * radix - d),
   * so the most negative value of the width is reachable. At each digit an invalid
   * character is reported first, then a step that leaves [lo, hi].
   */
  function Accumulate(digits: string, radix: nat, negative: bool, acc: int, lo: int, hi: int): (r: Result<int>)
    requires lo <= acc <= hi
    ensures r.Ok? ==> lo <= r.value <= hi
    ensures r.Err? ==> r.error != Empty
    ensures r.Err? && r.error == NegOverflow ==> negative
    ensures r.Err? && r.error == PosOverflow ==> !negative
    decreases |digits|
  {
    if digits == [] then Ok(acc)
    else match ToDigit(digits[0], radix)
      case None => Err(InvalidDigit)
      case Some(d) =>
        var next := if negative then acc * radix - d else acc * radix + d;
        if next < lo || hi < next then Err(if negative then NegOverflow else PosOverflow)
        else Accumulate(digits[1..], radix, negative, next, lo, hi)
  }

  /**
   * from_str_radix for a signed type whose values are lo..hi: empty text, a
   * lone sign, then the digit loop from zero.
   */
  function FromStrIn(s: string, radix: nat, lo: int, hi: int): (r: Result<int>)
    requires lo <= 0 <= hi
    ensures r.Ok? ==> lo <= r.value <= hi
    ensures r.Err? ==> (r.error == Empty <==> s == [])
  {
    if s == [] then Err(Empty)
    else if IsSign(s[0]) && |s| == 1 then Err(InvalidDigit)
    else
      var negative := s[0] == '-';
      var digits := if IsSign(s[0]) then s[1..] else s;
      Accumulate(digits, radix, negative, 0, lo, hi)
  }

  /** FromStrRadix::from_str at width w: i8, i16, i32 or i64. */
  function FromStr(s: string, radix: nat, w: nat): (r: Result<int>)
    requires ValidBase(radix) && ValidSize(w)
    ensures r.Ok? ==> InRange(r.value, w)
    ensures r.Err? ==> (r.error == Empty <==> s == [])
  {
    FromStrIn(s, radix, MinValue(w), MaxValue(w))
  }

  // ---------------------------------------------------------------------------
  // Reference definition of what a literal is and what it denotes.

  /** The text after an optional leading sign. */
  function Unsigned(s: string): (d: string)
    ensures |d| <= |s|
  {
    if s != [] && IsSign(s[0]) then s[1..] else s
  }

  /** One optional '+' or '-', then one or more digits valid in the radix. */
  predicate WellFormed(s: string, radix: nat) {
    Unsigned(s) != [] && AllDigits(Unsigned(s), radix)
  }

  /** The signed integer a well-formed literal denotes. */
  function LiteralValue(s: string, radix: nat): int
    requires WellFormed(s, radix)
  {
    Signed(s[0] == '-', Value(Unsigned(s), radix))
  }

  /**
   * The fold over an all-digit text, after a prefix p has been read: it ends
   * with the signed value of p + s when that value fits, and with an overflow
   * of the literal's sign otherwise, because the partial values only grow in
   * magnitude.
   */
  lemma {:induction false} AccumulateDigits(p: string, s: string, radix: nat, negative: bool, lo: int, hi: int)
    requires radix >= 1 && lo <= 0 <= hi
    requires AllDigits(p, radix) && AllDigits(p + s, radix)
    requires lo <= Signed(negative, Value(p, radix)) <= hi
    ensures Accumulate(s, radix, negative, Signed(negative, Value(p, radix)), lo, hi)
            == if lo <= Signed(negative, Value(p + s, radix)) <= hi then Ok(Signed(negative, Value(p + s, radix)))
               else Err(if negative then NegOverflow else PosOverflow)
    decreases |s|
  {
    if s == [] {
      assert p + s == p;
    } else {
      var c := s[0];
      var p' := p + [c];
      assert p + s == p' + s[1..];
      assert (p + s)[|p|] == c;
      ValueAppend(p, c, radix);
      SignedStep(negative, Value(p, radix), radix, ToDigit(c, radix).value);
      if lo <= Signed(negative, Value(p', radix)) <= hi {
        AccumulateDigits(p', s[1..], radix, negative, lo, hi);
      } else {
        ValuePrefixLe(p', s[1..], radix);
      }
    }
  }

  /** A character that is not a digit of the radix makes the fold fail. */
  lemma {:induction false} AccumulateRejects(s: string, radix: nat, negative: bool, acc: int, lo: int, hi: int)
    requires lo <= acc <= hi
    requires !AllDigits(s, radix)
    ensures Accumulate(s, radix, negative, acc, lo, hi).Err?
    decreases |s|
  {
    if ToDigit(s[0], radix).Some? {
      assert !AllDigits(s[1..], radix) by {
        var k :| 0 <= k < |s| && ToDigit(s[k], radix).None?;
        assert k > 0 && s[1..][k - 1] == s[k];
      }
      var d := ToDigit(s[0], radix).value;
      var next := if negative then acc * radix - d else acc * radix + d;
      if lo <= next <= hi {
        AccumulateRejects(s[1..], radix, negative, next, lo, hi);
      }
    }
  }

  /** One step of the downward (negative) or upward (positive) accumulation. */
  lemma SignedStep(negative: bool, m: nat, radix: nat, d: nat)
    ensures (if negative then Signed(negative, m) * radix - d else Signed(negative, m) * radix + d)
            == Signed(negative, m * radix + d)
  {
    if negative {
      assert (-(m as int)) * radix == -(m * radix);
    }
  }

  /**
   * For any range lo..hi around zero, the parse succeeds exactly on
   * well-formed literals whose value lies in the range, and then yields that
   * value; a well-formed literal outside it is an overflow of its own sign.
   */
  lemma FromStrInCorrect(s: string, radix: nat, lo: int, hi: int)
    requires radix >= 1 && lo <= 0 <= hi
    ensures FromStrIn(s, radix, lo, hi).Ok? <==> WellFormed(s, radix) && lo <= LiteralValue(s, radix) <= hi
    ensures FromStrIn(s, radix, lo, hi).Ok? ==> FromStrIn(s, radix, lo, hi).value == LiteralValue(s, radix)
    ensures WellFormed(s, radix) && !(lo <= LiteralValue(s, radix) <= hi) ==>
              FromStrIn(s, radix, lo, hi) == Err(if s[0] == '-' then NegOverflow else PosOverflow)
  {
    if s != [] && !(IsSign(s[0]) && |s| == 1) {
      var negative := s[0] == '-';
      var d := Unsigned(s);
      assert FromStrIn(s, radix, lo, hi) == Accumulate(d, radix, negative, 0, lo, hi);
      if AllDigits(d, radix) {
        assert Signed(negative, Value([], radix)) == 0;
        assert [] + d == d;
        AccumulateDigits([], d, radix, negative, lo, hi);
      } else {
        AccumulateRejects(d, radix, negative, 0, lo, hi);
      }
    }
  }

  /** FromStrInCorrect at the widths i8, i16, i32 and i64. */
  lemma FromStrCorrect(s: string, radix: nat, w: nat)
    requires ValidBase(radix) && ValidSize(w)
    ensures FromStr(s, radix, w).Ok? <==> WellFormed(s, radix) && InRange(LiteralValue(s, radix), w)
    ensures FromStr(s, radix, w).Ok? ==> FromStr(s, radix, w).value == LiteralValue(s, radix)
    ensures WellFormed(s, radix) && !InRange(LiteralValue(s, radix), w) ==>
              FromStr(s, radix, w) == Err(if s[0] == '-' then NegOverflow else PosOverflow)
  {
    FromStrInCorrect(s, radix, MinValue(w), MaxValue(w));
  }
}
