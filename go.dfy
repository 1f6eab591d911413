/**
 * The integer semantics of the Go language and standard-library operations
 * the program relies on: nil-able pointers, time.Duration arithmetic and
 * rounding, fmt's integer verbs and strings.TrimSpace.
 *
 * A Go string is a sequence of bytes; it is modelled as a `string` whose every
 * character stands for one byte (its code is below 256 wherever it came from
 * bytes). Byte-wise comparison of Go strings is then equality of these
 * sequences.
 */
module Go {

  /** A Go pointer that may be nil. */
  datatype Option<+T> = None | Some(value: T)

  // ---------------------------------------------------------------------------
  // time

  /** time.Duration: a signed 64-bit count of nanoseconds. */
  type Duration = x: int | -0x8000_0000_0000_0000 <= x < 0x8000_0000_0000_0000

  const MinDuration: Duration := -0x8000_0000_0000_0000
  const MaxDuration: Duration := 0x7fff_ffff_ffff_ffff
  const Second: int := 1_000_000_000
  const Minute: int := 60_000_000_000
  const Hour: int := 3_600_000_000_000

  /** Go's integer `/`, which truncates toward zero. */
  function Quot(a: int, b: int): int
    requires b > 0
  {
    if a >= 0 then a / b else -((-a) / b)
  }

  /** Go's integer `%`, whose result has the sign of the dividend. */
  function Rem(a: int, b: int): int
    requires b > 0
  {
    if a >= 0 then a % b else -((-a) % b)
  }

  /** t.Sub(u) for instants given in nanoseconds since the epoch: saturates at the Duration range. */
  function Sub(t: int, u: int): (d: Duration)
    ensures MinDuration <= t - u <= MaxDuration ==> d == t - u
    ensures d > 0 <==> t - u > 0
    ensures (d > 600 * Second) <==> (t - u > 600 * Second)
  {
    if t - u > MaxDuration then MaxDuration
    else if t - u < MinDuration then MinDuration
    else t - u
  }

  /** d.Round(time.Minute): halves are rounded away from zero, and the result saturates. */
  function RoundMinute(d: Duration): Duration
  {
    var r := Rem(d, Minute);
    if d < 0 then
      if -r + -r < Minute then d - r
      else if d - Minute - r >= MinDuration then d - Minute - r
      else MinDuration
    else
      if r + r < Minute then d - r
      else if d + Minute - r <= MaxDuration then d + Minute - r
      else MaxDuration
  }

  /**
   * For a non-negative duration RoundMinute is the nearest whole minute, halves
   * up. It never saturates there: MaxDuration % Minute is below half a minute,
   * so rounding up never passes MaxDuration.
   */
  lemma {:induction false} RoundMinuteNonNegative(d: Duration)
    requires 0 <= d
    ensures RoundMinute(d) == (d + Minute / 2) / Minute * Minute
  {
    var q, r := d / Minute, d % Minute;
    assert d == q * Minute + r;
    if r + r < Minute {
      assert (d + Minute / 2) / Minute == q;
    } else {
      assert d + Minute / 2 == (q + 1) * Minute + (r - Minute / 2);
      assert q * Minute + Minute <= MaxDuration;
      assert (d + Minute / 2) / Minute == q + 1;
    }
  }

  // ---------------------------------------------------------------------------
  // fmt

  predicate IsDigit(c: char) {
    '0' <= c <= '9'
  }

  function DigitChar(n: int): (c: char)
    requires 0 <= n < 10
    ensures IsDigit(c)
  {
    ('0' as int + n) as char
  }

  function DigitValue(c: char): int
    requires IsDigit(c)
  {
    c as int - '0' as int
  }

  /** Decimal digits of n, without leading zeros ("0" for zero). */
  function Digits(n: nat): (s: string)
    ensures |s| >= 1 && forall i :: 0 <= i < |s| ==> IsDigit(s[i])
    ensures n > 0 <==> s[0] != '0'
    decreases n
  {
    if n < 10 then [DigitChar(n)] else Digits(n / 10) + [DigitChar(n % 10)]
  }

  /** The number a string of decimal digits denotes. */
  function DigitsValue(s: string): nat
    requires forall i :: 0 <= i < |s| ==> IsDigit(s[i])
    decreases |s|
  {
    if |s| == 0 then 0 else 10 * DigitsValue(s[..|s| - 1]) + DigitValue(s[|s| - 1])
  }

  /** Reading back the digits Digits prints gives the number. */
  lemma {:induction false} DigitsRoundTrip(n: nat)
    ensures DigitsValue(Digits(n)) == n
    decreases n
  {
    if n >= 10 {
      DigitsRoundTrip(n / 10);
      var s := Digits(n);
      assert s[..|s| - 1] == Digits(n / 10);
    }
  }

  /** fmt's "%d". */
  function FormatInt(n: int): string
  {
    if n < 0 then "-" + Digits(-n) else Digits(n)
  }

  /** fmt's "%02d": zero-padded to width 2; a negative number is never padded. */
  function Pad2(n: int): string
  {
    if 0 <= n < 10 then "0" + Digits(n) else FormatInt(n)
  }

  /**
   * fmt's "%1.2f" applied to float64(x) / 100.0 for a 32-bit x: the decimal
   * rendering of x hundredths. For every such x the float quotient lies within
   * far less than 0.005 of x/100, which has two decimals, so rounding it to two
   * decimals prints x/100 exactly.
   */
  function FormatCents(x: int): string
  {
    if x < 0 then "-" + UnsignedCents(-x) else UnsignedCents(x)
  }

  /** a hundredths as whole part, '.', and two decimals. */
  function UnsignedCents(a: nat): string
  {
    Digits(a / 100) + "." + [DigitChar(a % 100 / 10), DigitChar(a % 10)]
  }

  /** A reader for FormatCents's output: optional '-', digits, '.', two digits. */
  function ParseCents(s: string): Option<int>
  {
    if |s| > 0 && s[0] == '-' then
      match ParseUnsignedCents(s[1..])
      case Some(v) => Some(-(v as int))
      case None => None
    else match ParseUnsignedCents(s)
      case Some(v) => Some(v as int)
      case None => None
  }

  function ParseUnsignedCents(t: string): Option<nat>
  {
    if |t| < 4 || t[|t| - 3] != '.' || !IsDigit(t[|t| - 2]) || !IsDigit(t[|t| - 1])
       || !(forall i :: 0 <= i < |t| - 3 ==> IsDigit(t[i]))
    then None
    else Some(100 * DigitsValue(t[..|t| - 3]) + 10 * DigitValue(t[|t| - 2]) + DigitValue(t[|t| - 1]))
  }

  lemma {:induction false} UnsignedCentsRoundTrip(a: nat)
    ensures ParseUnsignedCents(UnsignedCents(a)) == Some(a)
  {
    var d := Digits(a / 100);
    DigitsRoundTrip(a / 100);
    var t := UnsignedCents(a);
    assert t[..|t| - 3] == d;
    assert forall i :: 0 <= i < |t| - 3 ==> IsDigit(t[i]);
    assert DigitValue(t[|t| - 2]) == a % 100 / 10 && DigitValue(t[|t| - 1]) == a % 10;
    assert 100 * (a / 100) + 10 * (a % 100 / 10) + a % 10 == a;
  }

  /** FormatCents loses nothing: its text reads back as the same number of hundredths. */
  lemma {:induction false} CentsRoundTrip(x: int)
    ensures ParseCents(FormatCents(x)) == Some(x)
  {
    var a := if x < 0 then -x else x;
    UnsignedCentsRoundTrip(a);
    var s := FormatCents(x);
    if x < 0 {
      assert s[0] == '-' && s[1..] == UnsignedCents(a);
    } else {
      assert s[0] == Digits(a / 100)[0] && IsDigit(s[0]);
    }
  }

  // ---------------------------------------------------------------------------
  // strings.TrimSpace

  /**
   * Byte length of the Unicode white-space character (unicode.IsSpace) whose
   * UTF-8 encoding starts s, or 0 when s does not start with one.
   */
  function LeadingSpaceWidth(s: string): (w: nat)
    ensures w <= |s| && w <= 3
  {
    if |s| == 0 then 0
    else if s[0] as int in {9, 10, 11, 12, 13, 32} then 1
    else if |s| >= 2 && s[0] as int == 0xC2 && s[1] as int in {0x85, 0xA0} then 2
    else if |s| >= 3 && s[0] as int == 0xE1 && s[1] as int == 0x9A && s[2] as int == 0x80 then 3
    else if |s| >= 3 && s[0] as int == 0xE2 && s[1] as int == 0x80
            && (0x80 <= s[2] as int <= 0x8A || s[2] as int in {0xA8, 0xA9, 0xAF}) then 3
    else if |s| >= 3 && s[0] as int == 0xE2 && s[1] as int == 0x81 && s[2] as int == 0x9F then 3
    else if |s| >= 3 && s[0] as int == 0xE3 && s[1] as int == 0x80 && s[2] as int == 0x80 then 3
    else 0
  }

  /** Byte length of the Unicode white-space character whose UTF-8 encoding ends s, or 0. */
  function TrailingSpaceWidth(s: string): (w: nat)
    ensures w <= |s| && w <= 3
  {
    var n := |s|;
    if n == 0 then 0
    else if s[n - 1] as int in {9, 10, 11, 12, 13, 32} then 1
    else if n >= 2 && s[n - 2] as int == 0xC2 && s[n - 1] as int in {0x85, 0xA0} then 2
    else if n >= 3 && s[n - 3] as int == 0xE1 && s[n - 2] as int == 0x9A && s[n - 1] as int == 0x80 then 3
    else if n >= 3 && s[n - 3] as int == 0xE2 && s[n - 2] as int == 0x80
            && (0x80 <= s[n - 1] as int <= 0x8A || s[n - 1] as int in {0xA8, 0xA9, 0xAF}) then 3
    else if n >= 3 && s[n - 3] as int == 0xE2 && s[n - 2] as int == 0x81 && s[n - 1] as int == 0x9F then 3
    else if n >= 3 && s[n - 3] as int == 0xE3 && s[n - 2] as int == 0x80 && s[n - 1] as int == 0x80 then 3
    else 0
  }

  /** Number of bytes of leading white space. */
  function LeadingSpace(s: string): (n: nat)
    ensures n <= |s|
    decreases |s|
  {
    var w := LeadingSpaceWidth(s);
    if w == 0 then 0 else w + LeadingSpace(s[w..])
  }

  /** Number of bytes of trailing white space. */
  function TrailingSpace(s: string): (n: nat)
    ensures n <= |s|
    decreases |s|
  {
    var w := TrailingSpaceWidth(s);
    if w == 0 then 0 else w + TrailingSpace(s[..|s| - w])
  }

  function TrimLeftSpace(s: string): string
  {
    s[LeadingSpace(s)..]
  }

  function TrimRightSpace(s: string): string
  {
    s[..|s| - TrailingSpace(s)]
  }

  /** strings.TrimSpace: leading, then trailing, white space removed. */
  function TrimSpace(s: string): string
  {
    TrimRightSpace(TrimLeftSpace(s))
  }

  /**
   * Leading white space never reaches past an '@' (no white-space encoding
   * contains that byte), so what follows the '@' does not affect it.
   */
  lemma {:induction false} LeadingSpaceStopsAtAt(s: string, t: string, k: nat)
    requires k < |s| && s[k] == '@'
    ensures LeadingSpace(s) <= k
    ensures LeadingSpace(s + t) == LeadingSpace(s)
    decreases |s|
  {
    var w := LeadingSpaceWidth(s);
    var st := s + t;
    assert forall i :: 0 <= i < |s| ==> st[i] == s[i];
    assert LeadingSpaceWidth(st) == w;
    if w > 0 {
      assert w <= k;
      assert st[w..] == s[w..] + t;
      LeadingSpaceStopsAtAt(s[w..], t, k - w);
    }
  }

  /** A text ending in ')' followed by one space loses exactly that space to TrimRightSpace. */
  lemma TrimRightOneSpace(x: string)
    requires |x| > 0 && x[|x| - 1] == ')'
    ensures TrimRightSpace(x + " ") == x
  {
    var y := x + " ";
    assert TrailingSpaceWidth(y) == 1;
    assert y[..|y| - 1] == x;
    assert TrailingSpaceWidth(x) == 0;
    assert TrailingSpace(y) == 1;
  }

  /**
   * TrimSpace of a text that contains an '@', ends in ')' and is followed by
   * one space: what TrimLeftSpace leaves of the text itself.
   */
  lemma {:induction false} TrimSpaceOfSpaced(s: string, k: nat)
    requires k < |s| && s[k] == '@' && s[|s| - 1] == ')'
    ensures TrimSpace(s + " ") == TrimLeftSpace(s)
    ensures TrimLeftSpace(s) != "" && TrimLeftSpace(s)[|TrimLeftSpace(s)| - 1] == ')'
  {
    LeadingSpaceStopsAtAt(s, " ", k);
    var n := LeadingSpace(s);
    var x := s[n..];
    assert (s + " ")[n..] == x + " ";
    assert TrimLeftSpace(s + " ") == x + " ";
    assert x[|x| - 1] == ')';
    TrimRightOneSpace(x);
  }
}
