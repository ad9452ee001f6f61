/** The external string form of an identifier: an optional prefix followed by the
    decimal value, left-padded with a padding character up to a minimum length.
    The formatting routine lives in the unseen base class `ObjectIdGenerator`; its
    behaviour here is the one the tests pin down. */
module IdFormat {
  import opened Wrappers

  /** Prefix (null for none), padding length (no padding when <= 0) and padding character. */
  datatype Format = Format(prefix: Option<string>, length: int, padChar: char)

  predicate IsDigit(c: char) {
    '0' <= c <= '9'
  }

  predicate AllDigits(s: string) {
    forall i :: 0 <= i < |s| ==> IsDigit(s[i])
  }

  function DigitChar(d: nat): (c: char)
    requires d < 10
    ensures IsDigit(c) && c as int - '0' as int == d
  {
    ('0' as int + d) as char
  }

  /** The decimal digits of a non-negative value, most significant first. */
  function NatDigits(n: nat): (r: string)
    ensures |r| >= 1 && AllDigits(r)
    ensures r[0] == '0' ==> n == 0 && |r| == 1
    decreases n
  {
    if n < 10 then [DigitChar(n)] else NatDigits(n / 10) + [DigitChar(n % 10)]
  }

  /** The value of a string of decimal digits (the empty string reads as 0). */
  function DigitsValue(s: string): nat
    requires AllDigits(s)
  {
    if |s| == 0 then 0 else DigitsValue(s[..|s| - 1]) * 10 + (s[|s| - 1] as int - '0' as int)
  }

  /** Reading the digits back gives the value they were written from. */
  lemma {:induction false} DigitsRoundTrip(n: nat)
    ensures DigitsValue(NatDigits(n)) == n
  {
    if n >= 10 {
      var s := NatDigits(n);
      assert s[..|s| - 1] == NatDigits(n / 10);
      DigitsRoundTrip(n / 10);
    }
  }

  /** `Long.toString`: a minus sign for negative values, then the digits. */
  function DecimalString(n: int): (r: string)
    ensures n >= 0 ==> r == NatDigits(n)
    ensures n < 0 ==> |r| >= 2 && r[0] == '-' && r[1..] == NatDigits(-n)
  {
    if n < 0 then "-" + NatDigits(-n) else NatDigits(n)
  }

  /** `Long.toString` is injective: the text determines the value. */
  lemma DecimalStringInjective(m: int, n: int)
    ensures DecimalString(m) == DecimalString(n) ==> m == n
  {
    if DecimalString(m) == DecimalString(n) {
      if m < 0 && n < 0 {
        DigitsRoundTrip(-m);
        DigitsRoundTrip(-n);
      } else if m >= 0 && n >= 0 {
        DigitsRoundTrip(m);
        DigitsRoundTrip(n);
      }
    }
  }

  /** No decimal string contains a comma. */
  lemma DecimalHasNoComma(n: int)
    ensures forall i :: 0 <= i < |DecimalString(n)| ==> DecimalString(n)[i] != ','
  {
    var d := DecimalString(n);
    if n < 0 {
      forall i | 0 < i < |d| ensures d[i] != ',' {
        assert d[i] == d[1..][i - 1];
      }
    }
  }

  function Repeat(c: char, k: nat): (r: string)
    ensures |r| == k && forall i :: 0 <= i < k ==> r[i] == c
  {
    seq(k, _ => c)
  }

  function Max(a: int, b: int): int {
    if a < b then b else a
  }

  /** Left padding without truncation: `s` is kept whole at the end, and the
      characters in front of it are all `ch`, as many as make the length up to `len`. */
  function LeftPad(s: string, len: int, ch: char): (r: string)
    ensures |r| == Max(|s|, len)
    ensures r[|r| - |s|..] == s
    ensures forall i :: 0 <= i < |r| - |s| ==> r[i] == ch
  {
    if len <= |s| then s else Repeat(ch, len - |s|) + s
  }

  /** The prefix text; a null prefix contributes nothing. */
  function PrefixText(fmt: Format): string {
    if fmt.prefix.Some? then fmt.prefix.value else ""
  }

  /** The formatted identifier: prefix, then padding characters, then the whole decimal
      string. There is padding only when `length > 0` and the decimal string is shorter. */
  function FormatId(fmt: Format, n: int): (r: string)
    ensures var p, d := PrefixText(fmt), DecimalString(n);
      && |r| == |p| + Max(|d|, fmt.length)
      && r[..|p|] == p
      && r[|r| - |d|..] == d
      && (forall i :: |p| <= i < |r| - |d| ==> r[i] == fmt.padChar)
    ensures fmt.length <= 0 ==> r == PrefixText(fmt) + DecimalString(n)
  {
    var d := DecimalString(n);
    if fmt.length <= 0 then PrefixText(fmt) + d
    else PrefixText(fmt) + LeftPad(d, fmt.length, fmt.padChar)
  }

  /** Drops leading padding characters, always keeping at least one character. */
  function StripPad(s: string, pad: char): (r: string)
    ensures |r| <= |s| && r == s[|s| - |r|..]
    ensures |s| > 0 ==> |r| > 0
  {
    if |s| > 1 && s[0] == pad then StripPad(s[1..], pad) else s
  }

  /** Reads an identifier back: checks the prefix, drops the padding and parses the digits. */
  function ParseId(fmt: Format, s: string): Option<int> {
    var p := PrefixText(fmt);
    if |s| < |p| || s[..|p|] != p then None
    else
      var body := StripPad(s[|p|..], fmt.padChar);
      if |body| > 0 && AllDigits(body) then Some(DigitsValue(body)) else None
  }

  /** Stripping a run of padding in front of digits that do not themselves start with
      the padding character (or are a single digit) yields exactly the digits. */
  lemma {:induction false} StripPadOfPadded(k: nat, pad: char, d: string)
    requires |d| >= 1 && (|d| == 1 || d[0] != pad)
    ensures StripPad(Repeat(pad, k) + d, pad) == d
    decreases k
  {
    if k > 0 {
      var s := Repeat(pad, k) + d;
      assert s[0] == pad;
      assert s[1..] == Repeat(pad, k - 1) + d;
      StripPadOfPadded(k - 1, pad, d);
    } else {
      assert Repeat(pad, 0) + d == d;
    }
  }

  /** Round trip: with '0' or a non-digit as padding character, a formatted
      non-negative identifier parses back to its value. */
  lemma FormatRoundTrip(fmt: Format, n: nat)
    requires fmt.padChar == '0' || !IsDigit(fmt.padChar)
    ensures ParseId(fmt, FormatId(fmt, n)) == Some(n)
  {
    var p, d := PrefixText(fmt), NatDigits(n);
    var r := FormatId(fmt, n);
    var k := |r| - |p| - |d|;
    assert r[|p|..] == Repeat(fmt.padChar, k) + d;
    StripPadOfPadded(k, fmt.padChar, d);
    DigitsRoundTrip(n);
  }

  /** Distinct non-negative values give distinct identifiers under one format. */
  lemma FormatInjective(fmt: Format, m: nat, n: nat)
    requires fmt.padChar == '0' || !IsDigit(fmt.padChar)
    ensures FormatId(fmt, m) == FormatId(fmt, n) ==> m == n
  {
    FormatRoundTrip(fmt, m);
    FormatRoundTrip(fmt, n);
  }

  /** The identifiers the tests expect: zero padding to three places. */
  lemma PadsToLength()
    ensures FormatId(Format(None, 3, '0'), 1) == "001"
  {
    assert DecimalString(1) == "1";
    assert Repeat('0', 2) == "00";
  }

  /** A prefix in front of a value padded to ten places. */
  lemma PrefixThenPadding()
    ensures FormatId(Format(Some("A:"), 10, '0'), 500) == "A:0000000500"
  {
    assert NatDigits(50) == "50" by { assert NatDigits(5) == "5"; }
    assert DecimalString(500) == "500";
    assert Repeat('0', 7) == "0000000";
  }

  /** A value wider than the length is not truncated. */
  lemma WideValueNotTruncated()
    ensures FormatId(Format(None, 2, '0'), 200) == "200"
  {
    assert NatDigits(20) == "20" by { assert NatDigits(2) == "2"; }
    assert DecimalString(200) == "200";
  }

  /** A negative length means no padding at all. */
  lemma NoPaddingForNegativeLength()
    ensures FormatId(Format(None, -1, '0'), 98) == "98"
  {
    assert NatDigits(9) == "9";
    assert DecimalString(98) == "98";
  }
}
