/**
 * The converter's entry point: trim the input, return "" for blank text,
 * otherwise parse it at the chosen width and either format the value in the
 * output base or return the parse error's message.
 */
module Num {
  import opened Radix
  import opened Text
  import opened Parse
  import opened Format

  /** The text ParseIntError displays for each kind of failure. */
  function Message(e: ParseError): (m: string)
    ensures |m| > 0 && ' ' in m
  {
    match e
    case Empty => "cannot parse integer from empty string"
    case InvalidDigit => "invalid digit found in string"
    case PosOverflow => "number too large to fit in target type"
    case NegOverflow => "number too small to fit in target type"
  }

  /** A formatted number: non-empty and made of digits, 'A'..'F' and '-' only. */
  predicate IsFormatted(s: string) {
    |s| > 0 && forall i :: 0 <= i < |s| ==> IsOutputChar(s[i])
  }

  /** do_process::<T>: the parsed value formatted, or the parse error's message. */
  function DoProcess(inp: string, inBase: nat, outBase: nat, w: nat): (r: string)
    requires ValidBase(inBase) && ValidBase(outBase) && ValidSize(w)
    ensures |r| > 0
    ensures IsFormatted(r) <==> FromStr(inp, inBase, w).Ok?
    ensures FromStr(inp, inBase, w).Err? ==> r == Message(FromStr(inp, inBase, w).error)
  {
    match FromStr(inp, inBase, w)
    case Err(e) =>
      assert !IsOutputChar(' ');
      Message(e)
    case Ok(x) => ToStr(x, outBase, w)
  }

  /**
   * process: the empty string for blank input, otherwise do_process on the
   * trimmed text at the width `size` (i8, i16, i32 or i64).
   */
  function Process(inp: string, inBase: nat, outBase: nat, size: nat): (r: string)
    requires ValidBase(inBase) && ValidBase(outBase) && ValidSize(size)
    ensures r == [] <==> AllWhitespace(inp)
    ensures !AllWhitespace(inp) ==> (IsFormatted(r) <==> FromStr(Trim(inp), inBase, size).Ok?)
  {
    TrimEmptyIffBlank(inp);
    var t := Trim(inp);
    if t == [] then [] else DoProcess(t, inBase, outBase, size)
  }

  /**
   * What process returns, stated with the reference definition of a literal:
   * the value formatted when the trimmed text is a well-formed literal that fits
   * the width, an overflow message of the literal's sign when it does not fit,
   * and an invalid-digit or overflow message otherwise.
   */
  lemma ProcessOutcome(inp: string, inBase: nat, outBase: nat, size: nat)
    requires ValidBase(inBase) && ValidBase(outBase) && ValidSize(size)
    ensures var t, r := Trim(inp), Process(inp, inBase, outBase, size);
            && (AllWhitespace(inp) ==> r == [])
            && (!AllWhitespace(inp) && WellFormed(t, inBase) && InRange(LiteralValue(t, inBase), size) ==>
                  r == ToStr(LiteralValue(t, inBase), outBase, size))
            && (!AllWhitespace(inp) && WellFormed(t, inBase) && !InRange(LiteralValue(t, inBase), size) ==>
                  r == Message(if t[0] == '-' then NegOverflow else PosOverflow))
            && (!AllWhitespace(inp) && !WellFormed(t, inBase) ==>
                  r in {Message(InvalidDigit), Message(PosOverflow), Message(NegOverflow)})
  {
    TrimEmptyIffBlank(inp);
    FromStrCorrect(Trim(inp), inBase, size);
  }

  /** The decimal output of x reads back as x: it is a well-formed literal denoting x. */
  lemma DecimalDenotes(x: int, w: nat)
    requires ValidSize(w) && InRange(x, w)
    ensures WellFormed(ToStr(x, 10, w), 10) && LiteralValue(ToStr(x, 10, w), 10) == x
  {
    var s := ToStr(x, 10, w);
    if x < 0 {
      assert Unsigned(s) == NatDigits(-x, 10);
    } else {
      assert Unsigned(s) == s;
    }
  }

  /**
   * Decimal round trip: when a conversion to base 10 succeeds with value x,
   * parsing that output in base 10 at the same width gives x again, and
   * converting it once more reproduces the same string.
   */
  lemma DecimalRoundTrip(inp: string, inBase: nat, size: nat)
    requires ValidBase(inBase) && ValidSize(size)
    requires FromStr(Trim(inp), inBase, size).Ok?
    ensures var s := Process(inp, inBase, 10, size);
            && FromStr(s, 10, size) == FromStr(Trim(inp), inBase, size)
            && Process(s, 10, 10, size) == s
  {
    var x := FromStr(Trim(inp), inBase, size).value;
    var s := ToStr(x, 10, size);
    ProcessParsed(inp, inBase, 10, size);
    DecimalDenotes(x, size);
    FromStrCorrect(s, 10, size);
    LiteralIsTrimmed(s, 10);
    ProcessParsed(s, 10, 10, size);
  }

  /** A well-formed literal has no surrounding whitespace, so trimming keeps it. */
  lemma LiteralIsTrimmed(s: string, radix: nat)
    requires WellFormed(s, radix)
    ensures Trim(s) == s
  {
    var d := Unsigned(s);
    assert d[|d| - 1] == s[|s| - 1];
    assert ToDigit(d[|d| - 1], radix).Some?;
    assert ToDigit(d[0], radix).Some?;
    assert !IsWhitespace(s[0]) by {
      if !IsSign(s[0]) {
        assert s[0] == d[0];
      }
    }
    TrimKeepsTrimmed(s);
  }

  /** A parse that succeeds leaves process with the formatted value. */
  lemma ProcessParsed(inp: string, inBase: nat, outBase: nat, size: nat)
    requires ValidBase(inBase) && ValidBase(outBase) && ValidSize(size)
    requires FromStr(Trim(inp), inBase, size).Ok?
    ensures Process(inp, inBase, outBase, size) == ToStr(FromStr(Trim(inp), inBase, size).value, outBase, size)
  {
    assert Trim(inp) != [];
  }

  /**
   * Same-base round trip: formatting a value and parsing the output in the same
   * base at the same width gives the value back, for every base when x >= 0
   * and for base 10 also when x < 0.
   */
  lemma SameBaseRoundTrip(x: int, base: nat, w: nat)
    requires ValidBase(base) && ValidSize(w) && InRange(x, w)
    requires x >= 0 || base == 10
    ensures FromStr(ToStr(x, base, w), base, w) == Ok(x)
  {
    var s := ToStr(x, base, w);
    if base == 10 {
      DecimalDenotes(x, w);
    } else {
      assert Unsigned(s) == s;
    }
    FromStrCorrect(s, base, w);
  }

  /**
   * The two's-complement output of a negative value in base 2, 8 or 16 does
   * not read back at the same width: its digits denote x + 2^w, which is above
   * the signed maximum, so the parse reports a positive overflow.
   */
  lemma NegativePatternOverflows(x: int, base: nat, w: nat)
    requires ValidBase(base) && base != 10 && ValidSize(w) && InRange(x, w)
    requires x < 0
    ensures FromStr(ToStr(x, base, w), base, w) == Err(PosOverflow)
  {
    var u := Bits(x, w);
    var s := NatDigits(u, base);
    assert ToStr(x, base, w) == s;
    assert Unsigned(s) == s;
    assert LiteralValue(s, base) == u;
    assert u > MaxValue(w) by {
      assert Pow2(w) == 2 * Pow2(w - 1);
    }
    FromStrCorrect(s, base, w);
  }

  /** Widening never turns a successful parse into a failure, nor changes its value. */
  lemma WiderWidthAccepts(s: string, inBase: nat, w1: nat, w2: nat)
    requires ValidBase(inBase) && ValidSize(w1) && ValidSize(w2) && w1 <= w2
    requires FromStr(s, inBase, w1).Ok?
    ensures FromStr(s, inBase, w2) == FromStr(s, inBase, w1)
  {
    FromStrCorrect(s, inBase, w1);
    FromStrCorrect(s, inBase, w2);
    RangeNested(LiteralValue(s, inBase), w1, w2);
  }

  /**
   * Each width checks the range on its own: text that fits one width and not
   * another converts at the first and is an overflow message at the second.
   */
  lemma WidthRechecked(inp: string, inBase: nat, outBase: nat, w1: nat, w2: nat)
    requires ValidBase(inBase) && ValidBase(outBase) && ValidSize(w1) && ValidSize(w2)
    requires FromStr(Trim(inp), inBase, w1).Ok?
    requires !InRange(FromStr(Trim(inp), inBase, w1).value, w2)
    ensures IsFormatted(Process(inp, inBase, outBase, w1))
    ensures Process(inp, inBase, outBase, w2) == Message(PosOverflow)
         || Process(inp, inBase, outBase, w2) == Message(NegOverflow)
  {
    var t := Trim(inp);
    FromStrCorrect(t, inBase, w1);
    FromStrCorrect(t, inBase, w2);
    assert t != [];
    TrimEmptyIffBlank(inp);
  }

  /** A text that parses at two widths has the same decimal output at both. */
  lemma DecimalSameAcrossWidths(inp: string, inBase: nat, w1: nat, w2: nat)
    requires ValidBase(inBase) && ValidSize(w1) && ValidSize(w2)
    requires FromStr(Trim(inp), inBase, w1).Ok? && FromStr(Trim(inp), inBase, w2).Ok?
    ensures Process(inp, inBase, 10, w1) == Process(inp, inBase, 10, w2)
  {
    var t := Trim(inp);
    FromStrCorrect(t, inBase, w1);
    FromStrCorrect(t, inBase, w2);
    assert t != [];
  }
}
