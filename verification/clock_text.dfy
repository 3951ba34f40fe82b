/** The "MM:SS" text of the clock (the `time` key of a clock message in
    src/message_parser.py) and its round trip with the digit bytes it was
    decoded from. */
module ClockText {
  import opened Bytes
  import opened Parser

  /** The character of a decimal digit value. */
  function DigitChar(d: int): (c: char)
    requires 0 <= d <= 9
    ensures '0' <= c <= '9' && c as int - '0' as int == d
  {
    ('0' as int + d) as char
  }

  /** Python's `f"{n:02d}"` for 0..99: two decimal digits. */
  function Pad2(n: int): (s: string)
    requires 0 <= n <= 99
    ensures |s| == 2 && '0' <= s[0] <= '9' && '0' <= s[1] <= '9'
    ensures 10 * (s[0] as int - '0' as int) + (s[1] as int - '0' as int) == n
  {
    [DigitChar(n / 10), DigitChar(n % 10)]
  }

  /** The "MM:SS" text published for a clock whose fields are in 0..99. */
  function FormatTime(t: ClockTime): (s: string)
    requires 0 <= t.minutes <= 99 && 0 <= t.seconds <= 99
    ensures |s| == 5 && s[2] == ':'
    ensures s[..2] == Pad2(t.minutes) && s[3..] == Pad2(t.seconds)
  {
    Pad2(t.minutes) + ":" + Pad2(t.seconds)
  }

  /** When bytes 5..8 of a clock payload are digits, the published time
      repeats those four digits around a colon. */
  lemma ClockDigitsRoundTrip(data: seq<byte>)
    requires |data| >= 9 && data[1] == 0x37
    requires IsDigit(data[5]) && IsDigit(data[6]) && IsDigit(data[7]) && IsDigit(data[8])
    ensures ParseData(data).Some? && ParseData(data).value.fields.time.Some?
    ensures var t := ParseData(data).value.fields.time.value;
      0 <= t.minutes <= 99 && 0 <= t.seconds <= 99 &&
      FormatTime(t) == [ToChar(data[5]), ToChar(data[6]), ':', ToChar(data[7]), ToChar(data[8])]
  {
    ClockTimeOfDigits(data);
    FormatDigits(data[5], data[6], data[7], data[8]);
  }

  /** Four digit bytes at offsets 5..8 are read as two two-digit numbers. */
  lemma ClockTimeOfDigits(data: seq<byte>)
    requires |data| >= 9
    requires IsDigit(data[5]) && IsDigit(data[6]) && IsDigit(data[7]) && IsDigit(data[8])
    ensures ParseClock(data).time ==
      Some(ClockTime(10 * DigitValue(data[5]) + DigitValue(data[6]), 10 * DigitValue(data[7]) + DigitValue(data[8])))
  {
  }

  /** The time text of two two-digit numbers repeats their digits. */
  lemma FormatDigits(x: byte, y: byte, z: byte, w: byte)
    requires IsDigit(x) && IsDigit(y) && IsDigit(z) && IsDigit(w)
    ensures FormatTime(ClockTime(10 * DigitValue(x) + DigitValue(y), 10 * DigitValue(z) + DigitValue(w)))
         == [ToChar(x), ToChar(y), ':', ToChar(z), ToChar(w)]
  {
    ToCharOfDigit(x);
    ToCharOfDigit(y);
    ToCharOfDigit(z);
    ToCharOfDigit(w);
    FormatValues(DigitValue(x), DigitValue(y), DigitValue(z), DigitValue(w));
  }

  /** A digit byte prints as the character of its value. */
  lemma ToCharOfDigit(x: byte)
    requires IsDigit(x)
    ensures 0 <= DigitValue(x) <= 9 && ToChar(x) == DigitChar(DigitValue(x))
  {
  }

  /** Two two-digit numbers print as their four digits around a colon. */
  lemma FormatValues(a: int, b: int, c: int, d: int)
    requires 0 <= a <= 9 && 0 <= b <= 9 && 0 <= c <= 9 && 0 <= d <= 9
    ensures FormatTime(ClockTime(10 * a + b, 10 * c + d)) == [DigitChar(a), DigitChar(b), ':', DigitChar(c), DigitChar(d)]
  {
    assert Pad2(10 * a + b) == [DigitChar(a), DigitChar(b)] by {
      assert (10 * a + b) / 10 == a && (10 * a + b) % 10 == b;
    }
    assert Pad2(10 * c + d) == [DigitChar(c), DigitChar(d)] by {
      assert (10 * c + d) / 10 == c && (10 * c + d) % 10 == d;
    }
  }
}
