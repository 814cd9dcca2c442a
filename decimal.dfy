/** Decimal text of unsigned integers: the `{}` formatting of `u16`/`u32` and
    `str::parse::<u32>`, both over ASCII bytes. */
module Decimal {
  import opened Bytes

  const DIGIT_ZERO: Byte := 0x30
  const PLUS_SIGN: Byte := 0x2B
  const U32_MAX: nat := 0xFFFF_FFFF

  predicate IsDigit(b: Byte)
  {
    0x30 <= b <= 0x39
  }

  predicate AllDigits(s: seq<Byte>)
  {
    forall i :: 0 <= i < |s| ==> IsDigit(s[i])
  }

  /** The number a string of decimal digits denotes (leading zeros allowed). */
  function Value(s: seq<Byte>): nat
    requires AllDigits(s)
    decreases |s|
  {
    if s == [] then 0 else Value(s[..|s| - 1]) * 10 + (s[|s| - 1] - DIGIT_ZERO)
  }

  /** `format!("{}", n)`: shortest decimal text, no sign, no leading zero. */
  function Format(n: nat): (s: seq<Byte>)
    ensures |s| >= 1 && AllDigits(s)
    ensures s[0] == DIGIT_ZERO ==> n == 0 && s == [DIGIT_ZERO]
    ensures Value(s) == n
    decreases n
  {
    if n < 10 then [DIGIT_ZERO + n]
    else
      var s := Format(n / 10) + [DIGIT_ZERO + n % 10];
      assert s[..|s| - 1] == Format(n / 10);
      s
  }

  /** The text `str::parse::<u32>` reads digits from: everything after an
      optional leading `+`. */
  function Unsigned(s: seq<Byte>): seq<Byte>
  {
    if |s| > 0 && s[0] == PLUS_SIGN then s[1..] else s
  }

  /** `str::parse::<u32>`: an optional leading `+`, then one or more decimal
      digits whose value fits 32 bits; anything else is an error (`None`). */
  function ParseU32(s: seq<Byte>): (r: Option<nat>)
    ensures r.Some? <==> Unsigned(s) != [] && AllDigits(Unsigned(s)) && Value(Unsigned(s)) <= U32_MAX
    ensures r.Some? ==> r.value == Value(Unsigned(s)) <= U32_MAX
  {
    var digits := Unsigned(s);
    if digits == [] || !AllDigits(digits) then None
    else if Value(digits) > U32_MAX then None
    else Some(Value(digits))
  }

  /** `parse::<u32>` rejects the empty text and a lone `+`. */
  lemma ParseU32RejectsEmpty()
    ensures ParseU32([]) == None && ParseU32([PLUS_SIGN]) == None
  {
  }

  /** `parse::<u32>` rejects any text with a byte other than a digit after the
      optional `+`. */
  lemma ParseU32Rejects(s: seq<Byte>)
    ensures (exists i :: 0 <= i < |Unsigned(s)| && !IsDigit(Unsigned(s)[i])) ==> ParseU32(s) == None
  {
  }

  /** Formatting and parsing agree: the text of every 32-bit value parses back to it. */
  lemma ParseFormatRoundTrip(n: nat)
    requires n <= U32_MAX
    ensures ParseU32(Format(n)) == Some(n)
  {
  }

  /** Distinct numbers have distinct decimal texts. */
  lemma FormatInjective(a: nat, b: nat)
    requires Format(a) == Format(b)
    ensures a == b
  {
  }

  /** A string of digits starting with a non-zero digit denotes at least 1. */
  lemma {:induction false} LeadingDigitPositive(t: seq<Byte>)
    requires |t| >= 1 && AllDigits(t) && t[0] != DIGIT_ZERO
    ensures Value(t) >= 1
    decreases |t|
  {
    if |t| > 1 {
      LeadingDigitPositive(t[..|t| - 1]);
    }
  }

  /** A string of digits without a leading zero (other than "0" itself) is the
      `{}` text of its value. */
  lemma {:induction false} CanonicalIsFormat(t: seq<Byte>)
    requires |t| >= 1 && AllDigits(t) && (t[0] == DIGIT_ZERO ==> |t| == 1)
    ensures Format(Value(t)) == t
    decreases |t|
  {
    if |t| > 1 {
      var front := t[..|t| - 1];
      var digit := t[|t| - 1] - DIGIT_ZERO;
      CanonicalIsFormat(front);
      LeadingDigitPositive(front);
      var n := Value(t);
      assert n == Value(front) * 10 + digit;
      assert n / 10 == Value(front) && n % 10 == digit;
      assert t == front + [t[|t| - 1]];
    }
  }

  /** Conversely to `ParseFormatRoundTrip`: a text `parse::<u32>` accepts,
      written without `+` and without a leading zero, is the `{}` text of the
      value it parses to. */
  lemma ParsedCanonicalIsFormat(s: seq<Byte>)
    requires ParseU32(s).Some? && s[0] != PLUS_SIGN && (s[0] == DIGIT_ZERO ==> |s| == 1)
    ensures s == Format(ParseU32(s).value)
  {
    CanonicalIsFormat(s);
  }
}
