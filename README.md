# numbase-rs numeric core, modelled in Dafny

numbase-rs is a small web page that converts an integer between bases. The user
types a number, picks its input base (2, 8, 10 or 16) and a signed width (8, 16,
32 or 64 bits). The page then shows the value in binary, octal, decimal and
hexadecimal. All of the arithmetic lives in `process` in `src/num.rs`:

1. It trims the input.
2. Blank input gives the empty string.
3. Otherwise it parses the text with the standard library's `from_str_radix`
   for `i8`, `i16`, `i32` or `i64`.
4. On success it formats the value with `{:b}`, `{:o}`, `{}` or `{:X}`. On failure
   it returns the parse error's message.

The model is pure, like the source: datatypes, recursive functions and lemmas.

- `radix.dfy` (module `Radix`): the bases and widths, the signed range
  `[-2^(w-1), 2^(w-1)-1]` of a width on unbounded integers, `char::to_digit`, and
  the number a digit string denotes (`Value`, Horner's rule).
- `text.dfy` (module `Text`): `str::trim` over the Unicode White_Space characters.
- `parse.dfy` (module `Parse`): `from_str_radix`, modelled as a left fold over the
  digits. The fold checks the range after every digit and reports the first
  failure as an error kind (`Empty`, `InvalidDigit`, `PosOverflow`,
  `NegOverflow`). It is proved against a reference definition: a well-formed
  literal (`WellFormed`) and the signed value it denotes (`LiteralValue`).
- `format.dfy` (module `Format`): digit expansion in the output base.
  - Decimal prints the signed value.
  - Bases 2, 8 and 16 print the two's-complement bit pattern `x mod 2^w`, with
    upper-case hex digits.
- `num.dfy` (module `Num`): `do_process`, `process` and the properties that
  connect parsing and formatting.
- `examples_w8.dfy` (module `Examples`): worked conversions at width 8.

`"FF"` read in base 16 at width 8 is not -1. The code parses it as 255, which
does not fit `i8`, so the result is the "number too large" message
(`Examples.HexFFOverflowsAtWidth8`). In general, the hex, octal or binary output
of a negative value does not read back at the same width; it is a positive
overflow (`Num.NegativePatternOverflows`).

## Model

| member | source | states |
|---|---|---|
| Radix.ToDigit | src/num.rs:19-20 | a character is accepted as a digit only if it is an ASCII digit or letter whose value is below the radix; for radix up to 10 exactly '0' up to '0'+radix-1, for radix 16 exactly '0'..'9', 'a'..'f' and 'A'..'F'; a decimal digit has its own value and a letter a value of at least 10 |
| Radix.DigitCaseInsensitive | src/num.rs:19-20 | a lower-case letter and its upper-case form are the same digit in every radix |
| Radix.ValuePrefixLe | src/num.rs:19-20 | appending digits never lowers the denoted value, so partial values of the fold only grow in magnitude |
| Radix.RangeNested | src/num.rs:63-68 | a value in the range of a narrower width is in the range of every wider width, and the ranges are nested |
| Text.TrimStart | src/num.rs:59 | the result is the suffix of the input after the longest whitespace prefix, and starts with a non-whitespace character when non-empty |
| Text.TrimEnd | src/num.rs:59 | the result is the prefix of the input before the longest whitespace suffix, and ends with a non-whitespace character when non-empty |
| Text.Trim | src/num.rs:59 | a non-empty result starts and ends with non-whitespace characters |
| Text.TrimIsSlice | src/num.rs:59 | trimming keeps a contiguous slice of the input and removes only whitespace around it |
| Text.TrimEmptyIffBlank | src/num.rs:59-62 | the trimmed text is empty exactly when every character of the input is whitespace |
| Text.TrimKeepsTrimmed | src/num.rs:59 | text that neither starts nor ends with whitespace is unchanged by trimming |
| Text.TrimIdempotent | src/num.rs:59 | trimming twice is the same as trimming once |
| Parse.Accumulate | src/num.rs:19-20 | the digit loop only succeeds with a value inside the type's range; it never reports Empty; negative overflow only for a negative literal, positive overflow only for a non-negative one |
| Parse.FromStrIn | src/num.rs:19-20 | the parse for a type with range lo..hi succeeds only inside the range and reports Empty exactly for empty text |
| Parse.FromStr | src/num.rs:16-29 | FromStrRadix::from_str at i8..i64: a success lies in the width's signed range; Empty exactly for empty text |
| Parse.AccumulateDigits | src/num.rs:19-20 | over an all-digit text the fold gives the signed value of the whole literal if it fits, and otherwise an overflow of the literal's sign; it never wraps |
| Parse.AccumulateRejects | src/num.rs:19-20 | a character that is not a digit of the radix makes the parse fail |
| Parse.FromStrInCorrect | src/num.rs:19-20 | the parse succeeds iff the text is one optional sign followed by one or more radix digits and its value lies in lo..hi; it then yields that value; out-of-range literals are overflows of their sign |
| Parse.FromStrCorrect | src/num.rs:16-29 | the same if-and-only-if at each width 8, 16, 32, 64 with range -2^(w-1)..2^(w-1)-1 |
| Format.DigitChar | src/num.rs:42-45 | a digit value is printed as '0'..'9' or upper-case 'A'..'F'; the character reads back as that digit in every larger radix |
| Format.NatDigits | src/num.rs:40-48 | the expansion is non-empty, uses only digits of the base, denotes exactly n, and starts with '0' only for n = 0, which prints as "0" |
| Format.Bits | src/num.rs:42-45 | the w-bit two's-complement pattern of x is x mod 2^w, equals x for x >= 0 and lies below 2^w; it is 0 only for x = 0 |
| Format.ToStr | src/num.rs:40-48 | output is non-empty, made of digits, 'A'..'F' and '-' only; it starts with '-' exactly for a negative decimal, with no other '-' and no '+'; decimal is the sign and the digits of abs(x); other bases are the digits of the bit pattern |
| Format.ToStrTwosComplement | src/num.rs:42-45 | in bases 2, 8 and 16 the output denotes x when x >= 0 and x + 2^w when x < 0, i.e. x mod 2^w |
| Format.ToStrNoLeadingZero | src/num.rs:41-46 | the output starts with '0' only when x = 0, which prints as "0"; a negative decimal has no zero after its '-' |
| Num.Message | src/num.rs:20 | every error message is non-empty and contains a space, so it is never a formatted number |
| Num.DoProcess | src/num.rs:51-56 | the result is a formatted number exactly when the parse succeeds; otherwise it is the parse error's message |
| Num.Process | src/num.rs:58-70 | the result is empty exactly for blank input; for other input it is a formatted number exactly when the trimmed text parses at the chosen width |
| Num.ProcessOutcome | src/num.rs:58-70 | for non-blank input, a well-formed in-range literal gives its value formatted in the output base, an out-of-range one the overflow message of its sign, and anything else an invalid-digit or overflow message |
| Num.DecimalDenotes | src/num.rs:44 | the decimal output of x is a well-formed base-10 literal denoting x, including the minimum of each width |
| Num.LiteralIsTrimmed | src/num.rs:59 | a well-formed literal has no surrounding whitespace, so trimming leaves it alone |
| Num.ProcessParsed | src/num.rs:51-56 | when the trimmed text parses, process returns that value formatted in the output base |
| Num.DecimalRoundTrip | src/num.rs:58-70 | if a conversion to base 10 succeeds, parsing its output in base 10 at the same width gives the same value, and converting it again gives the same string |
| Num.SameBaseRoundTrip | src/num.rs:40-48 | formatting x in base b and parsing the output in base b at the same width gives x back, for x >= 0 in every base and for every x in base 10 |
| Num.NegativePatternOverflows | src/num.rs:42-45 | the base-2/8/16 output of a negative value, parsed back in that base at the same width, is a positive overflow |
| Num.WiderWidthAccepts | src/num.rs:63-68 | a text that parses at a width parses to the same value at every wider width |
| Num.WidthRechecked | src/num.rs:63-68 | a value that parses at one width but lies outside another width's range is formatted at the first and an overflow message at the second |
| Num.DecimalSameAcrossWidths | src/num.rs:63-68 | text that parses at two widths has the same decimal output at both |
| Examples.Width8Range | src/num.rs:64 | the i8 range is -128..127 |
| Examples.DecimalAboveMaxOverflows | src/num.rs:64 | "128" in base 10 at width 8 is a positive overflow |
| Examples.DecimalMaximumAccepted | src/num.rs:64 | "127" in base 10 at width 8 parses to 127 |
| Examples.DecimalMinimumAccepted | src/num.rs:64 | "-128" in base 10 at width 8 parses to -128 |
| Examples.MinimumHexPattern | src/num.rs:45 | -128 at width 8 prints as "80" in base 16 |
| Examples.DecimalMinimumInHex | src/num.rs:58-70 | converting "-128" from base 10 to base 16 at width 8 gives "80" |
| Examples.DecimalBelowMinOverflows | src/num.rs:64 | "-129" in base 10 at width 8 is a negative overflow |
| Examples.HexFFOverflowsAtWidth8 | src/num.rs:64 | "FF" in base 16 at width 8 is a positive overflow, not -1 |
| Examples.MinusOneHexPattern | src/num.rs:45 | -1 at width 8 prints as "FF" in base 16 |
| Examples.MinusOneIsFFInHex | src/num.rs:58-70 | converting "-1" from base 10 to base 16 at width 8 gives "FF" |
| Examples.BinaryTenParses | src/num.rs:64 | "10" in base 2 at width 8 parses to 2 |
| Examples.BinaryTenIsTwo | src/num.rs:58-70 | converting "10" from base 2 to base 10 at width 8 gives "2" |
| Examples.LetterGIsInvalidHex | src/num.rs:58-70 | "g" in base 16 is an invalid-digit error at every width |

## Left out

- `src/main.rs` is not part of this model. It is the user interface: the
  component, its update and view functions, reading the selected options from
  the page, and `main`. It only calls `process` once per output base.
- Num.Message: the texts are those that `ParseIntError` displays in the current
  standard library. The wording belongs to the library and can change between
  versions. The model relies only on each message being non-empty and containing
  a space.
- Parse.FromStrIn: a text that is only a sign (`"+"` or `"-"`) is reported as an
  invalid digit, as in the current standard library. Older versions reported it
  as empty. Either way the result is an error message.
- Parse.FromStr: the library's assertion that the radix lies in 2..=36 is not
  modelled; the input base is a precondition limited to 2, 8, 10 and 16.
- Num.Process: the source panics on a width other than 8, 16, 32 or 64 only
  when the input is not blank, because blank input returns `""` before the
  width is matched (src/num.rs:59-68). It panics on an output base other than
  2, 8, 10 or 16 only after a successful parse, because a failed parse returns
  its message without formatting (src/num.rs:51-56). The model states both as
  preconditions, so its promise that blank input gives `""` is made only for
  these widths and bases. Every call in `src/main.rs` passes only these values.
- Machine integers are not modelled as bit patterns. Values are unbounded
  integers. The library's checked multiply and add become a range check after
  each digit, which gives the same success, value and error kind.
- The library reads the text as UTF-8 bytes; the model reads characters. A
  non-ASCII character is rejected as an invalid digit in both.
- Text.IsWhitespace lists the characters that have the Unicode White_Space
  property. Changes to that property in later Unicode versions are not
  modelled.
- Purity and thread safety need no statement: every member is a mathematical
  function.
