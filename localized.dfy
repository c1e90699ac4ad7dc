/** The locale-dependent symbols the number format works with, and the
    character classes its regular expressions build from them. */
module Localized {

  /** `LocalizedNumberFormatValues`: what `localizeValues` reads off
      `Intl.NumberFormat(...).formatToParts(-1234567890.1)`. `digits` lists the
      locale's digits in numeric order, so `digits[d]` is the digit `d`. */
  datatype LocalizedValues = LocalizedValues(
    group: string,
    minusSign: char,
    signBackwards: bool,
    decimal: char,
    digits: string)

  function IsAsciiDigit(c: char): bool { '0' <= c <= '9' }

  /** What a locale's symbols look like: ten distinct digits, and a minus sign
      and a decimal separator that are neither digits nor one another, nor
      any of the ASCII symbols the engine treats specially. */
  predicate WellFormed(l: LocalizedValues) {
    && |l.digits| == 10
    && (forall i, j :: 0 <= i < j < 10 ==> l.digits[i] != l.digits[j])
    && l.minusSign !in l.digits && l.decimal !in l.digits
    && '-' !in l.digits && '.' !in l.digits && ',' !in l.digits
    && !IsAsciiDigit(l.minusSign) && !IsAsciiDigit(l.decimal)
    && l.minusSign != '.' && l.minusSign != ',' && l.minusSign != l.decimal
    && l.decimal != '-'
  }

  /** The class `[\d${digits}]`: an ASCII digit or one of the locale's. */
  predicate IsDigitLike(l: LocalizedValues, c: char) { IsAsciiDigit(c) || c in l.digits }

  /** The class `[\-\${minusSign}]`. */
  predicate IsMinusLike(l: LocalizedValues, c: char) { c == '-' || c == l.minusSign }

  /** The class `[.,${decimal}]`. */
  predicate IsDecimalLike(l: LocalizedValues, c: char) { c == '.' || c == ',' || c == l.decimal }

  /** Everything the number input accepts at all: the negation of the first
      alternative of the filter pattern. */
  predicate IsAllowed(l: LocalizedValues, c: char) {
    IsMinusLike(l, c) || IsDecimalLike(l, c) || IsDigitLike(l, c)
  }

  /** The class `[${digits.slice(1)}]`: a non-zero digit of the locale. */
  predicate IsNonZeroDigit(l: LocalizedValues, c: char) {
    |l.digits| > 0 && c in l.digits[1..]
  }

  /** The locale digit's numeric value, as `digits.indexOf(c)`. */
  function DigitValue(l: LocalizedValues, c: char): (d: nat)
    requires WellFormed(l) && c in l.digits
    ensures d < 10 && l.digits[d] == c
  {
    DigitIndex(l.digits, c)
  }

  function DigitIndex(digits: string, c: char): (d: nat)
    requires c in digits
    ensures d < |digits| && digits[d] == c
  {
    if digits[0] == c then 0 else DigitIndex(digits[1..], c) + 1
  }

  /** `d.toString()` for a single digit. */
  function AsciiDigit(d: nat): (c: char)
    requires d < 10
    ensures IsAsciiDigit(c)
  {
    ['0', '1', '2', '3', '4', '5', '6', '7', '8', '9'][d]
  }
}
