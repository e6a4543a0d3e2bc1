/** Worked conversions at width 8 (i8, range -128..127). */
module Examples {
  import opened Radix
  import opened Text
  import opened Parse
  import opened Format
  import opened Num

  lemma Width8Range()
    ensures MinValue(8) == -128 && MaxValue(8) == 127
  {
    assert Pow2(7) == 128;
  }

  /** "128" is one past the maximum: a positive overflow, not a wrapped value. */
  lemma DecimalAboveMaxOverflows()
    ensures FromStr("128", 10, 8) == Err(PosOverflow)
    ensures Process("128", 10, 10, 8) == Message(PosOverflow)
  {
    Width8Range();
    assert "128"[1..] == "28" && "28"[1..] == "8";
    assert Accumulate("8", 10, false, 12, -128, 127) == Err(PosOverflow);
    assert Accumulate("28", 10, false, 1, -128, 127) == Err(PosOverflow);
    assert FromStrIn("128", 10, -128, 127) == Err(PosOverflow);
    TrimKeepsTrimmed("128");
  }

  /** "127", the maximum, is accepted. */
  lemma DecimalMaximumAccepted()
    ensures FromStr("127", 10, 8) == Ok(127)
  {
    Width8Range();
    assert "127"[1..] == "27" && "27"[1..] == "7";
    assert Accumulate("7", 10, false, 12, -128, 127) == Ok(127);
    assert Accumulate("27", 10, false, 1, -128, 127) == Ok(127);
    assert FromStrIn("127", 10, -128, 127) == Ok(127);
  }

  /** "-128", the minimum, is accepted: the fold runs downwards from zero. */
  lemma DecimalMinimumAccepted()
    ensures FromStr("-128", 10, 8) == Ok(-128)
  {
    Width8Range();
    assert "-128"[1..] == "128" && "128"[1..] == "28" && "28"[1..] == "8";
    assert Accumulate("8", 10, true, -12, -128, 127) == Ok(-128);
    assert Accumulate("28", 10, true, -1, -128, 127) == Ok(-128);
    assert Accumulate("128", 10, true, 0, -128, 127) == Ok(-128);
    assert FromStrIn("-128", 10, -128, 127) == Ok(-128);
  }

  /** The bit pattern of -128 at width 8, printed in base 16. */
  lemma MinimumHexPattern()
    ensures ToStr(-128, 16, 8) == "80"
  {
    Width8Range();
    assert Pow2(8) == 256 && Bits(-128, 8) == 128;
    assert NatDigits(8, 16) == "8" && DigitChar(0) == '0';
    assert NatDigits(128, 16) == NatDigits(8, 16) + [DigitChar(0)];
  }

  /** The minimum prints as its bit pattern "80" in hex. */
  lemma DecimalMinimumInHex()
    ensures Process("-128", 10, 16, 8) == "80"
  {
    DecimalMinimumAccepted();
    MinimumHexPattern();
    TrimKeepsTrimmed("-128");
  }

  /** "-129" is one below the minimum: a negative overflow. */
  lemma DecimalBelowMinOverflows()
    ensures FromStr("-129", 10, 8) == Err(NegOverflow)
    ensures Process("-129", 10, 10, 8) == Message(NegOverflow)
  {
    Width8Range();
    assert "-129"[1..] == "129" && "129"[1..] == "29" && "29"[1..] == "9";
    assert Accumulate("9", 10, true, -12, -128, 127) == Err(NegOverflow);
    assert Accumulate("29", 10, true, -1, -128, 127) == Err(NegOverflow);
    assert Accumulate("129", 10, true, 0, -128, 127) == Err(NegOverflow);
    assert FromStrIn("-129", 10, -128, 127) == Err(NegOverflow);
    TrimKeepsTrimmed("-129");
  }

  /** "FF" in base 16 denotes 255, above the i8 maximum: an overflow, not -1. */
  lemma HexFFOverflowsAtWidth8()
    ensures FromStr("FF", 16, 8) == Err(PosOverflow)
    ensures Process("FF", 16, 10, 8) == Message(PosOverflow)
  {
    Width8Range();
    assert "FF"[1..] == "F";
    assert ToDigit('F', 16) == Some(15);
    assert Accumulate("F", 16, false, 15, -128, 127) == Err(PosOverflow);
    assert FromStrIn("FF", 16, -128, 127) == Err(PosOverflow);
    TrimKeepsTrimmed("FF");
  }

  /** The bit pattern of -1 at width 8, printed in base 16. */
  lemma MinusOneHexPattern()
    ensures ToStr(-1, 16, 8) == "FF"
  {
    Width8Range();
    assert Pow2(8) == 256;
    assert Bits(-1, 8) == 255;
    assert DigitChar(15) == 'F';
    assert NatDigits(15, 16) == "F";
    assert NatDigits(255, 16) == NatDigits(15, 16) + [DigitChar(15)];
  }

  /** -1 printed in base 16 at width 8 is its bit pattern "FF". */
  lemma MinusOneIsFFInHex()
    ensures Process("-1", 10, 16, 8) == "FF"
  {
    Width8Range();
    assert "-1"[1..] == "1";
    assert Accumulate("1", 10, true, 0, -128, 127) == Ok(-1);
    assert FromStrIn("-1", 10, -128, 127) == Ok(-1);
    TrimKeepsTrimmed("-1");
    MinusOneHexPattern();
  }

  lemma BinaryTenParses()
    ensures FromStr("10", 2, 8) == Ok(2)
  {
    Width8Range();
    assert "10"[1..] == "0";
    assert Accumulate("0", 2, false, 1, -128, 127) == Ok(2);
    assert FromStrIn("10", 2, -128, 127) == Ok(2);
  }

  /** "10" in base 2 is two. */
  lemma BinaryTenIsTwo()
    ensures Process("10", 2, 10, 8) == "2"
  {
    BinaryTenParses();
    assert NatDigits(2, 10) == "2";
    assert ToStr(2, 10, 8) == "2";
    TrimKeepsTrimmed("10");
  }

  /** 'g' is not a base-16 digit at any width. */
  lemma LetterGIsInvalidHex(w: nat)
    requires ValidSize(w)
    ensures Process("g", 16, 10, w) == Message(InvalidDigit)
  {
    var lo, hi := MinValue(w), MaxValue(w);
    assert lo <= 0 <= hi;
    assert ToDigit('g', 16) == None;
    assert Accumulate("g", 16, false, 0, lo, hi) == Err(InvalidDigit);
    assert FromStrIn("g", 16, lo, hi) == Err(InvalidDigit);
    TrimKeepsTrimmed("g");
  }
}
