/**
 * Text-to-value conversion as `store_at_impl` does it: write the token into a
 * `std::stringstream`, read it back with `operator>>`, and fail when the stream's
 * failbit is set. Only the two parameter types of this model are covered:
 * `std::string` (one whitespace-delimited word) and `int` (32 bits, decimal).
 */
module Conversion {
  import opened Wrappers

  /** `isspace` in the "C" locale. */
  predicate IsSpace(c: char)
  {
    c == ' ' || c == '\t' || c == '\n' || c == '\U{000B}' || c == '\U{000C}' || c == '\r'
  }

  predicate IsWordChar(c: char)
  {
    !IsSpace(c)
  }

  predicate IsDigit(c: char)
  {
    '0' <= c <= '9'
  }

  const MinInt32: int := -0x8000_0000
  const MaxInt32: int := 0x7FFF_FFFF

  /** The length of the longest prefix of `s` whose characters all satisfy `p`. */
  function Span(s: string, p: char -> bool): (n: nat)
    ensures n <= |s|
    ensures forall j :: 0 <= j < n ==> p(s[j])
    ensures n < |s| ==> !p(s[n])
  {
    if |s| > 0 && p(s[0]) then 1 + Span(s[1..], p) else 0
  }

  function DigitValue(c: char): nat
    requires IsDigit(c)
  {
    c as int - '0' as int
  }

  /** The number a string of decimal digits denotes. */
  function DecimalValue(digits: string): nat
    requires forall j :: 0 <= j < |digits| ==> IsDigit(digits[j])
  {
    if |digits| == 0 then 0
    else 10 * DecimalValue(digits[..|digits| - 1]) + DigitValue(digits[|digits| - 1])
  }

  /** `stream >> std::string`: skip leading whitespace, then take characters up to the
      next whitespace; the read fails when nothing but whitespace is left. */
  function ExtractWord(text: string): (r: Option<string>)
    ensures r.None? <==> forall j :: 0 <= j < |text| ==> IsSpace(text[j])
    ensures r.Some? ==> |r.value| > 0 && forall j :: 0 <= j < |r.value| ==> !IsSpace(r.value[j])
  {
    var start := Span(text, IsSpace);
    var rest := text[start..];
    var n := Span(rest, IsWordChar);
    if n == 0 then None else Some(rest[..n])
  }

  /** `stream >> int`: skip leading whitespace, read an optional sign and the longest run
      of decimal digits after it; the read fails when there is no digit, or when the
      number does not fit in 32 bits. What follows the digits is left unread. */
  function ExtractInt(text: string): (r: Option<int>)
    ensures r.Some? ==> MinInt32 <= r.value <= MaxInt32
    ensures r.Some? ==> exists j :: 0 <= j < |text| && IsDigit(text[j])
  {
    var start := Span(text, IsSpace);
    var r := ReadSigned(text[start..]);
    if r.Some? then
      assert text[start..][0] == text[start];
      assert |text[start..]| > 1 ==> text[start..][1] == text[start + 1];
      r
    else None
  }

  /** The part of `stream >> int` after the whitespace: an optional sign, then the
      longest run of digits, read when it fits in 32 bits. */
  function ReadSigned(rest: string): (r: Option<int>)
    ensures r.Some? ==> MinInt32 <= r.value <= MaxInt32
    ensures r.Some? ==> |rest| > 0 && (IsDigit(rest[0]) || (|rest| > 1 && IsDigit(rest[1])))
  {
    var signed := |rest| > 0 && (rest[0] == '-' || rest[0] == '+');
    var negative := |rest| > 0 && rest[0] == '-';
    var unsigned := if signed then rest[1..] else rest;
    match LeadingDigits(unsigned)
    case None => None
    case Some(magnitude) =>
      var v := if negative then -(magnitude as int) else magnitude as int;
      if MinInt32 <= v <= MaxInt32 then Some(v) else None
  }

  /** The number the longest run of decimal digits at the start of `s` denotes, or
      nothing when `s` does not start with a digit. */
  function LeadingDigits(s: string): (r: Option<nat>)
    ensures r.Some? <==> |s| > 0 && IsDigit(s[0])
  {
    var n := Span(s, IsDigit);
    if n == 0 then None else Some(DecimalValue(s[..n]))
  }

  // A reference rendering of integers, the partner for the round trips below.

  /** The decimal digits of `n`, without leading zeros. */
  function Decimal(n: nat): (digits: string)
    ensures |digits| > 0 && forall j :: 0 <= j < |digits| ==> IsDigit(digits[j])
  {
    var last := ['0' + (n % 10) as char];
    if n < 10 then last else Decimal(n / 10) + last
  }

  /** How `operator<<` writes an `int`: a minus sign for negatives, then the digits. */
  function IntText(v: int): string
  {
    if v < 0 then "-" + Decimal(-v) else Decimal(v)
  }

  lemma {:induction false} DecimalValueOfDecimal(n: nat)
    ensures DecimalValue(Decimal(n)) == n
  {
    var d := Decimal(n);
    if n >= 10 {
      DecimalValueOfDecimal(n / 10);
      assert d[..|d| - 1] == Decimal(n / 10);
    }
  }

  lemma {:induction false} SpanOfPrefix(s: string, rest: string, p: char -> bool)
    requires forall j :: 0 <= j < |s| ==> p(s[j])
    requires rest == [] || !p(rest[0])
    ensures Span(s + rest, p) == |s|
  {
    if |s| > 0 {
      assert (s + rest)[1..] == s[1..] + rest;
      SpanOfPrefix(s[1..], rest, p);
    }
  }

  /** Digits followed by a non-digit: the run read is exactly those digits. */
  lemma LeadingDigitsOfDigits(digits: string, junk: string)
    requires |digits| > 0 && forall j :: 0 <= j < |digits| ==> IsDigit(digits[j])
    requires junk == [] || !IsDigit(junk[0])
    ensures LeadingDigits(digits + junk) == Some(DecimalValue(digits))
  {
    SpanOfPrefix(digits, junk, IsDigit);
    assert (digits + junk)[..|digits|] == digits;
  }

  /** Digits followed by non-digits read back as the number they denote. */
  lemma ExtractIntOfDigits(digits: string, junk: string)
    requires |digits| > 0 && forall j :: 0 <= j < |digits| ==> IsDigit(digits[j])
    requires junk == [] || !IsDigit(junk[0])
    requires DecimalValue(digits) <= MaxInt32
    ensures ExtractInt(digits + junk) == Some(DecimalValue(digits) as int)
  {
    var text := digits + junk;
    assert text[0] == digits[0] && IsDigit(text[0]);
    assert Span(text, IsSpace) == 0;
    assert text[0..] == text;
    LeadingDigitsOfDigits(digits, junk);
  }

  /** What `ExtractInt` makes of a text whose first character is a minus sign. */
  lemma ExtractIntAfterMinus(text: string, m: nat)
    requires |text| > 0 && text[0] == '-'
    requires LeadingDigits(text[1..]) == Some(m)
    requires MinInt32 <= -(m as int)
    ensures ExtractInt(text) == Some(-(m as int))
  {
    assert Span(text, IsSpace) == 0;
    assert text[0..] == text;
  }

  /** The digits `operator<<` writes for `n`, followed by a non-digit, read back as `n`. */
  lemma LeadingDigitsOfDecimal(n: nat, junk: string)
    requires junk == [] || !IsDigit(junk[0])
    ensures LeadingDigits(Decimal(n) + junk) == Some(n)
  {
    DecimalValueOfDecimal(n);
    LeadingDigitsOfDigits(Decimal(n), junk);
  }

  /** A negative number is written as a minus sign followed by the digits of its
      magnitude. */
  lemma NegativeIntText(v: int, junk: string)
    requires v < 0
    ensures var text := IntText(v) + junk;
            |text| > 0 && text[0] == '-' && text[1..] == Decimal(-v) + junk
  {
    assert IntText(v) + junk == "-" + (Decimal(-v) + junk);
  }

  /** Reading back what `operator<<` wrote for an `int` gives the same `int`, whatever
      non-digit text follows it (`"43abc"` reads as 43). */
  lemma ExtractIntOfIntText(v: int, junk: string)
    requires MinInt32 <= v <= MaxInt32
    requires junk == [] || !IsDigit(junk[0])
    ensures ExtractInt(IntText(v) + junk) == Some(v)
  {
    if v < 0 {
      NegativeIntText(v, junk);
      LeadingDigitsOfDecimal(-v, junk);
      ExtractIntAfterMinus(IntText(v) + junk, -v);
    } else {
      DecimalValueOfDecimal(v);
      ExtractIntOfDigits(Decimal(v), junk);
    }
  }

  /** Leading whitespace is skipped: when the first `n` characters of `text` are all its
      leading whitespace, what is read is what the sign-and-digits reader makes of the
      rest. */
  lemma ExtractIntSkipsSpaces(text: string, n: nat)
    requires n <= |text| && forall j :: 0 <= j < n ==> IsSpace(text[j])
    requires n == |text| || !IsSpace(text[n])
    ensures ExtractInt(text) == ReadSigned(text[n..])
  {
    assert Span(text, IsSpace) == n;
  }

  /** A sign-or-digit text: the digit run after the optional sign, negated after a
      minus, when it fits in 32 bits. */
  lemma ReadSignedDigits(text: string, m: nat)
    requires |text| > 0
    requires LeadingDigits(if text[0] == '-' || text[0] == '+' then text[1..] else text) == Some(m)
    ensures var v := if text[0] == '-' then -(m as int) else m as int;
            ReadSigned(text) == if MinInt32 <= v <= MaxInt32 then Some(v) else None
  {
  }

  /** No digit right after the optional sign: nothing is read. */
  lemma ReadSignedWithoutLeadingDigit(text: string)
    requires text != [] && (text[0] == '-' || text[0] == '+') ==> |text| == 1 || !IsDigit(text[1])
    requires text != [] && text[0] != '-' && text[0] != '+' ==> !IsDigit(text[0])
    ensures ReadSigned(text).None?
  {
  }

  /** What `stream >> int` makes of whitespace, an optional sign, a run of digits and
      then anything that does not start with a digit: the signed value when it fits in
      32 bits, and a failure when it does not (`" +43x"` reads 43, `"2147483648"` fails,
      `"-2147483648"` reads the least `int`). */
  lemma ExtractIntOfSigned(spaces: string, sign: string, digits: string, junk: string)
    requires forall j :: 0 <= j < |spaces| ==> IsSpace(spaces[j])
    requires sign == "" || sign == "+" || sign == "-"
    requires |digits| > 0 && forall j :: 0 <= j < |digits| ==> IsDigit(digits[j])
    requires junk == [] || !IsDigit(junk[0])
    ensures sign != "-" ==>
              ExtractInt(spaces + (sign + (digits + junk))) ==
                if DecimalValue(digits) <= MaxInt32 then Some(DecimalValue(digits) as int) else None
    ensures sign == "-" ==>
              ExtractInt(spaces + (sign + (digits + junk))) ==
                if DecimalValue(digits) <= -MinInt32 then Some(-(DecimalValue(digits) as int)) else None
  {
    var tail := digits + junk;
    var text := sign + tail;
    var m := DecimalValue(digits);
    var v := if sign == "-" then -(m as int) else m as int;
    assert ReadSigned(text) == if MinInt32 <= v <= MaxInt32 then Some(v) else None by {
      LeadingDigitsOfDigits(digits, junk);
      if sign == "" {
        assert text == tail && IsDigit(text[0]);
      } else {
        assert text[0] == sign[0] && text[1..] == tail;
      }
      ReadSignedDigits(text, m);
    }
    assert ExtractInt(spaces + text) == ReadSigned(text) by {
      assert (spaces + text)[|spaces|..] == text;
      ExtractIntSkipsSpaces(spaces + text, |spaces|);
    }
  }

  /** A number above the 32-bit range sets the failbit instead of being read
      (`"2147483648"` fails). */
  lemma ExtractIntOverflowFails(n: nat, junk: string)
    requires n > MaxInt32
    requires junk == [] || !IsDigit(junk[0])
    ensures ExtractInt(Decimal(n) + junk).None?
  {
    var digits := Decimal(n);
    DecimalValueOfDecimal(n);
    ExtractIntOfSigned("", "", digits, junk);
    assert "" + ("" + (digits + junk)) == digits + junk;
  }

  /** So does a number below it (`"-2147483649"` fails). */
  lemma ExtractIntUnderflowFails(n: nat, junk: string)
    requires n > -MinInt32
    requires junk == [] || !IsDigit(junk[0])
    ensures ExtractInt("-" + (Decimal(n) + junk)).None?
  {
    var digits := Decimal(n);
    DecimalValueOfDecimal(n);
    ExtractIntOfSigned("", "-", digits, junk);
    assert "" + ("-" + (digits + junk)) == "-" + (digits + junk);
  }

  /** When the first character after the whitespace and the optional sign is not a
      digit, nothing is read, even if a digit comes later (`"x5"`, `"-x5"`, `"+ 5"`). */
  lemma ExtractIntNeedsLeadingDigit(spaces: string, sign: string, rest: string)
    requires forall j :: 0 <= j < |spaces| ==> IsSpace(spaces[j])
    requires sign == "" || sign == "+" || sign == "-"
    requires rest == [] || !IsDigit(rest[0])
    requires sign == "" && rest != [] ==> !IsSpace(rest[0]) && rest[0] != '+' && rest[0] != '-'
    ensures ExtractInt(spaces + (sign + rest)).None?
  {
    var text := sign + rest;
    var all := spaces + text;
    assert all[|spaces|..] == text;
    ExtractIntSkipsSpaces(all, |spaces|);
    if sign != "" {
      assert text[0] == sign[0] && text[1..] == rest;
    } else {
      assert text == rest;
    }
    ReadSignedWithoutLeadingDigit(text);
  }

  /** Reading back a single word gives that word, whatever whitespace surrounds it. */
  lemma ExtractWordOfWord(spaces: string, word: string, rest: string)
    requires forall j :: 0 <= j < |spaces| ==> IsSpace(spaces[j])
    requires |word| > 0 && forall j :: 0 <= j < |word| ==> !IsSpace(word[j])
    requires rest == [] || IsSpace(rest[0])
    ensures ExtractWord(spaces + word + rest) == Some(word)
  {
    var text := spaces + word + rest;
    assert text == spaces + (word + rest);
    SpanOfPrefix(spaces, word + rest, IsSpace);
    assert text[|spaces|..] == word + rest;
    SpanOfPrefix(word, rest, IsWordChar);
    assert (word + rest)[..|word|] == word;
  }

  /** A token that has no digit at all, such as `"abc"` or a lone `"-"`, never reads
      as an integer. */
  lemma ExtractIntNeedsDigit(text: string)
    requires forall j :: 0 <= j < |text| ==> !IsDigit(text[j])
    ensures ExtractInt(text).None?
  {
  }
}
