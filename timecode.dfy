/** Caption timecodes `HH:MM:SS,mmm` (Editor.format_time) and the decimal
    rendering of Python's `{n:02d}` / `{n:03d}` format specifiers. */
module Timecode {

  // ---------------------------------------------------------------- numbers

  /** Python's `%` on floats with a positive modulus: the result has the
      sign of the modulus, `x - m * floor(x / m)`. */
  function PyMod(x: real, m: real): (r: real)
    requires m > 0.0
    ensures 0.0 <= r < m
    ensures r == x - m * (x / m).Floor as real
  {
    FloorBounds(x, m);
    x - m * (x / m).Floor as real
  }

  lemma FloorBounds(x: real, m: real)
    requires m > 0.0
    ensures m * (x / m).Floor as real <= x < m * (x / m).Floor as real + m
  {
    var f := (x / m).Floor as real;
    var q := x / m;
    assert f <= q < f + 1.0;
    assert m * q == x;
    MulMonotone(m, f, q);
    MulMonotoneStrict(m, q, f + 1.0);
    assert m * (f + 1.0) == m * f + m;
    assert x < m * f + m;
  }

  lemma MulMonotone(m: real, a: real, b: real)
    requires m > 0.0 && a <= b
    ensures m * a <= m * b
  {
  }

  lemma MulMonotoneStrict(m: real, a: real, b: real)
    requires m > 0.0 && a < b
    ensures m * a < m * b
  {
  }

  /** Python's `round` on a float: to the nearest integer, ties to the even one. */
  function RoundHalfEven(x: real): (r: int)
    ensures -0.5 <= r as real - x <= 0.5
    ensures (r as real - x == 0.5 || x - r as real == 0.5) ==> r % 2 == 0
  {
    var f := x.Floor;
    var d := x - f as real;
    if d < 0.5 then f
    else if d > 0.5 then f + 1
    else if f % 2 == 0 then f
    else f + 1
  }

  // ---------------------------------------------------------------- fields

  /** The four fields of a timecode. */
  datatype Fields = Fields(hours: int, minutes: int, seconds: int, millis: int)

  /** The seconds a timecode's hour, minute and second fields stand for. */
  function WholeSeconds(f: Fields): int {
    f.hours * 3600 + f.minutes * 60 + f.seconds
  }

  /** The fields as Editor.format_time computes them: floor and modulo for
      hours, minutes and seconds, then the fractional second rounded to
      milliseconds after the seconds were floored, with no carry. */
  function SplitTime(s: real): Fields {
    var hours := (s / 3600.0).Floor;
    var inHour := PyMod(s, 3600.0);
    var minutes := (inHour / 60.0).Floor;
    var inMinute := PyMod(inHour, 60.0);
    var millis := RoundHalfEven((inMinute - inMinute.Floor as real) * 1000.0);
    Fields(hours, minutes, inMinute.Floor, millis)
  }

  /** What Editor.format_time promises of its fields, for every input: minutes
      and seconds in [0, 60), hours, minutes and seconds adding up to the whole
      seconds of `s`, and the millisecond field the rounded fraction, which
      lies in [0, 1000] (1000 included: see MillisReach1000). */
  lemma SplitTimeFields(s: real)
    ensures var f := SplitTime(s);
      f.hours == (s / 3600.0).Floor &&
      (s >= 0.0 ==> f.hours >= 0) &&
      0 <= f.minutes < 60 && 0 <= f.seconds < 60 && 0 <= f.millis <= 1000 &&
      WholeSeconds(f) == s.Floor &&
      -0.5 <= f.millis as real - (s - s.Floor as real) * 1000.0 <= 0.5
  {
    var f := SplitTime(s);
    var h := (s / 3600.0).Floor;
    var inHour := PyMod(s, 3600.0);
    var inMinute := PyMod(inHour, 60.0);
    assert inHour == s - 3600.0 * h as real;
    assert inMinute == inHour - 60.0 * f.minutes as real;
    assert s == (h * 3600 + f.minutes * 60) as real + inMinute;
    WholePlusFraction(h * 3600 + f.minutes * 60, inMinute);
  }

  lemma WholePlusFraction(w: int, x: real)
    ensures (w as real + x).Floor == w + x.Floor
  {
    var f := x.Floor;
    assert f as real <= x < f as real + 1.0;
    assert (w + f) as real <= w as real + x < (w + f) as real + 1.0;
  }

  /** The millisecond field of Editor.format_time reaches 1000: 59.9996 s
      has 59 whole seconds and a fraction that rounds up to 1000 ms. */
  lemma MillisReach1000()
    ensures SplitTime(59.9996) == Fields(0, 0, 59, 1000)
  {
    var s := 59.9996;
    assert (s / 3600.0).Floor == 0;
    assert PyMod(s, 3600.0) == s;
    assert (s / 60.0).Floor == 0;
    assert PyMod(s, 60.0) == s;
    assert s.Floor == 59;
    assert (s - 59.0) * 1000.0 == 999.6;
    assert 999.6.Floor == 999;
  }

  /** The fields with the rounding done first, on the whole time in
      milliseconds, so that a fraction that rounds up carries into the seconds. */
  function SplitTimeCarry(s: real): Fields {
    var total := RoundHalfEven(s * 1000.0);
    Fields(total / 3600000, total % 3600000 / 60000, total % 60000 / 1000, total % 1000)
  }

  /** The corrected fields stay in range, the millisecond field included, and
      together they give back the rounded time in milliseconds exactly. */
  lemma SplitTimeCarryFields(s: real)
    ensures var f := SplitTimeCarry(s);
      0 <= f.minutes < 60 && 0 <= f.seconds < 60 && 0 <= f.millis < 1000 &&
      (s >= 0.0 ==> f.hours >= 0) &&
      WholeSeconds(f) * 1000 + f.millis == RoundHalfEven(s * 1000.0) &&
      -0.5 <= (WholeSeconds(f) * 1000 + f.millis) as real - s * 1000.0 <= 0.5
  {
    var total := RoundHalfEven(s * 1000.0);
    MillisSplit(total);
  }

  /** Splitting a count of milliseconds with Euclidean division and remainder. */
  lemma MillisSplit(total: int)
    ensures var f := Fields(total / 3600000, total % 3600000 / 60000, total % 60000 / 1000, total % 1000);
      0 <= f.minutes < 60 && 0 <= f.seconds < 60 && 0 <= f.millis < 1000 &&
      (total >= 0 ==> f.hours >= 0) &&
      f.hours * 3600000 + f.minutes * 60000 + f.seconds * 1000 + f.millis == total
  {
    var h, r := total / 3600000, total % 3600000;
    ModShift(total, -h * 60, 60000);
    assert r == total + (-h * 60) * 60000;
    var r2 := r % 60000;
    assert r2 == total % 60000;
    ModShift(total, -(total / 60000) * 60, 1000);
    assert r2 == total + (-(total / 60000) * 60) * 1000;
    assert r2 % 1000 == total % 1000;
  }

  /** Adding a multiple of the modulus does not change the remainder. */
  lemma ModShift(x: int, k: int, d: int)
    requires d > 0
    ensures (x + k * d) % d == x % d
  {
    var q, rr := x / d, x % d;
    assert x + k * d == (q + k) * d + rr;
    UniqueDivMod(x + k * d, d, q + k, rr);
  }

  lemma MulAtLeast(a: int, d: int)
    requires a >= 1 && d > 0
    ensures a * d >= d
  {
  }

  lemma UniqueDivMod(x: int, d: int, q: int, rr: int)
    requires d > 0 && x == q * d + rr && 0 <= rr < d
    ensures x / d == q && x % d == rr
  {
    var q', r' := x / d, x % d;
    assert x == q' * d + r';
    assert (q - q') * d == r' - rr;
    if q > q' {
      MulAtLeast(q - q', d);
    } else if q < q' {
      MulAtLeast(q' - q, d);
    }
  }

  /** With the carry, 59.9996 s becomes one minute exactly. */
  lemma CarryAt59_9996()
    ensures SplitTimeCarry(59.9996) == Fields(0, 1, 0, 0)
  {
    assert 59.9996 * 1000.0 == 59999.6;
    assert 59999.6.Floor == 59999;
  }

  // ---------------------------------------------------------------- text

  datatype Option<T> = None | Some(value: T)

  predicate IsDigit(c: char) { '0' <= c <= '9' }

  predicate AllDigits(s: string) {
    forall i :: 0 <= i < |s| ==> IsDigit(s[i])
  }

  function DigitValue(c: char): int {
    c as int - '0' as int
  }

  function DigitChar(d: int): char
    requires 0 <= d < 10
  {
    ('0' as int + d) as char
  }

  /** `str(n)` for a natural number. */
  function Digits(n: nat): (s: string)
    decreases n
  {
    if n < 10 then [DigitChar(n)] else Digits(n / 10) + [DigitChar(n % 10)]
  }

  /** The value of a string of decimal digits. */
  function Value(s: string): int {
    if s == [] then 0 else 10 * Value(s[..|s| - 1]) + DigitValue(s[|s| - 1])
  }

  /** `str(n)` is all digits, has no superfluous leading zero, and reads back as `n`. */
  lemma {:induction false} DigitsValue(n: nat)
    ensures var s := Digits(n);
      s != [] && AllDigits(s) &&
      (|s| > 1 ==> s[0] != '0') && Value(s) == n
    decreases n
  {
    var s := Digits(n);
    if n >= 10 {
      DigitsValue(n / 10);
      assert s[..|s| - 1] == Digits(n / 10);
    }
  }

  function Zeros(k: nat): (s: string)
    ensures |s| == k && forall i :: 0 <= i < k ==> s[i] == '0'
  {
    if k == 0 then "" else Zeros(k - 1) + "0"
  }

  /** Left-pad with zeros to at least `width` characters. */
  function ZeroFill(s: string, width: nat): string {
    if |s| >= width then s else Zeros(width - |s|) + s
  }

  /** Python's `f"{n:0<width>d}"`: sign first, then the digits zero-filled so
      that sign and digits together take at least `width` characters. */
  function Pad(n: int, width: nat): string {
    if n < 0 then "-" + ZeroFill(Digits(-n), if width == 0 then 0 else width - 1)
    else ZeroFill(Digits(n), width)
  }

  lemma DigitsTwo(n: int)
    requires 10 <= n < 100
    ensures Digits(n) == [DigitChar(n / 10), DigitChar(n % 10)]
  {
    assert Digits(n / 10) == [DigitChar(n / 10)];
  }

  lemma DivDiv(n: nat)
    ensures n / 10 / 10 == n / 100
  {
    var q, r := n / 100, n % 100;
    assert n == q * 100 + r;
    assert n == (q * 10 + r / 10) * 10 + r % 10;
    UniqueDivMod(n, 10, q * 10 + r / 10, r % 10);
    UniqueDivMod(q * 10 + r / 10, 10, q, r / 10);
  }

  /** `f"{n:02d}"` for 0 <= n < 100: exactly the two digits of n. */
  lemma PadTwo(n: int)
    requires 0 <= n < 100
    ensures Pad(n, 2) == [DigitChar(n / 10), DigitChar(n % 10)]
  {
    if n >= 10 {
      DigitsTwo(n);
    } else {
      assert Digits(n) == [DigitChar(n)];
      assert Pad(n, 2) == Zeros(1) + [DigitChar(n)];
    }
  }

  /** `f"{n:03d}"` for 0 <= n < 1000: exactly the three digits of n. */
  lemma PadThree(n: int)
    requires 0 <= n < 1000
    ensures Pad(n, 3) == [DigitChar(n / 100), DigitChar(n / 10 % 10), DigitChar(n % 10)]
  {
    DivDiv(n);
    if n >= 100 {
      DigitsTwo(n / 10);
      assert Digits(n) == Digits(n / 10) + [DigitChar(n % 10)];
    } else if n >= 10 {
      DigitsTwo(n);
      assert Pad(n, 3) == Zeros(1) + Digits(n);
    } else {
      assert Digits(n) == [DigitChar(n)];
      assert Pad(n, 3) == Zeros(2) + [DigitChar(n)];
    }
  }

  /** `HH:MM:SS,mmm` from the four fields. */
  function Render(f: Fields): string {
    Pad(f.hours, 2) + (":" + (Pad(f.minutes, 2) + (":" + (Pad(f.seconds, 2) + ("," + Pad(f.millis, 3))))))
  }

  /** The number written by the digits `r[lo..hi]`. */
  function NumberAt(r: string, lo: nat, hi: nat): int
    requires lo <= hi <= |r|
    decreases hi - lo
  {
    if hi == lo then 0 else 10 * NumberAt(r, lo, hi - 1) + DigitValue(r[hi - 1])
  }

  /** Reads a timecode `HH:MM:SS,mmm` back as a number of milliseconds;
      None when the text does not have exactly that shape. */
  function ParseTimecode(r: string): Option<int> {
    if |r| == 12 && r[2] == ':' && r[5] == ':' && r[8] == ','
       && forall i :: 0 <= i < 12 && i != 2 && i != 5 && i != 8 ==> IsDigit(r[i])
    then Some(NumberAt(r, 0, 2) * 3600000 + NumberAt(r, 3, 5) * 60000 + NumberAt(r, 6, 8) * 1000 + NumberAt(r, 9, 12))
    else None
  }

  /** Fields in range render character by character as their digits and the separators. */
  lemma RenderAt(f: Fields)
    requires 0 <= f.hours < 100 && 0 <= f.minutes < 60 && 0 <= f.seconds < 60 && 0 <= f.millis < 1000
    ensures var r := Render(f);
      |r| == 12 && r[2] == ':' && r[5] == ':' && r[8] == ',' &&
      r[0] == DigitChar(f.hours / 10) && r[1] == DigitChar(f.hours % 10) &&
      r[3] == DigitChar(f.minutes / 10) && r[4] == DigitChar(f.minutes % 10) &&
      r[6] == DigitChar(f.seconds / 10) && r[7] == DigitChar(f.seconds % 10) &&
      r[9] == DigitChar(f.millis / 100) && r[10] == DigitChar(f.millis / 10 % 10) &&
      r[11] == DigitChar(f.millis % 10)
  {
    PadTwo(f.hours);
    PadTwo(f.minutes);
    PadTwo(f.seconds);
    PadThree(f.millis);
  }

  /** Two digit characters at `lo` read back as the number they write. */
  lemma NumberTwo(r: string, lo: nat, v: int)
    requires lo + 2 <= |r| && 0 <= v < 100
    requires r[lo] == DigitChar(v / 10) && r[lo + 1] == DigitChar(v % 10)
    ensures IsDigit(r[lo]) && IsDigit(r[lo + 1]) && NumberAt(r, lo, lo + 2) == v
  {
    assert NumberAt(r, lo, lo + 1) == v / 10;
  }

  /** Three digit characters at `lo` read back as the number they write. */
  lemma NumberThree(r: string, lo: nat, v: int)
    requires lo + 3 <= |r| && 0 <= v < 1000
    requires r[lo] == DigitChar(v / 100) && r[lo + 1] == DigitChar(v / 10 % 10)
    requires r[lo + 2] == DigitChar(v % 10)
    ensures IsDigit(r[lo]) && IsDigit(r[lo + 1]) && IsDigit(r[lo + 2])
    ensures NumberAt(r, lo, lo + 3) == v
  {
    DivDiv(v);
    NumberTwo(r, lo, v / 10);
    assert NumberAt(r, lo, lo + 2) == v / 10;
  }

  /** A twelve-character text with the digits of the four fields and the
      separators in place parses back as the time the fields stand for. */
  lemma ParseAt(r: string, f: Fields)
    requires 0 <= f.hours < 100 && 0 <= f.minutes < 60 && 0 <= f.seconds < 60 && 0 <= f.millis < 1000
    requires |r| == 12 && r[2] == ':' && r[5] == ':' && r[8] == ','
    requires r[0] == DigitChar(f.hours / 10) && r[1] == DigitChar(f.hours % 10)
    requires r[3] == DigitChar(f.minutes / 10) && r[4] == DigitChar(f.minutes % 10)
    requires r[6] == DigitChar(f.seconds / 10) && r[7] == DigitChar(f.seconds % 10)
    requires r[9] == DigitChar(f.millis / 100) && r[10] == DigitChar(f.millis / 10 % 10)
    requires r[11] == DigitChar(f.millis % 10)
    ensures ParseTimecode(r) == Some(WholeSeconds(f) * 1000 + f.millis)
  {
    NumberTwo(r, 0, f.hours);
    NumberTwo(r, 3, f.minutes);
    NumberTwo(r, 6, f.seconds);
    NumberThree(r, 9, f.millis);
  }

  /** Fields in range (hours below 100) render as a well-formed timecode that
      reads back as the time they stand for. */
  lemma RenderRoundTrip(f: Fields)
    requires 0 <= f.hours < 100 && 0 <= f.minutes < 60 && 0 <= f.seconds < 60 && 0 <= f.millis < 1000
    ensures ParseTimecode(Render(f)) == Some(WholeSeconds(f) * 1000 + f.millis)
  {
    RenderAt(f);
    ParseAt(Render(f), f);
  }

  /** Editor.format_time as written. */
  function FormatTime(s: real): string {
    Render(SplitTime(s))
  }

  /** The corrected format_time: the milliseconds are rounded first and
      carried into the seconds, minutes and hours. */
  function FormatTimeCarry(s: real): string {
    Render(SplitTimeCarry(s))
  }

  /** As written, 59.9996 s renders with a four-digit millisecond field,
      which is not a well-formed timecode. */
  lemma FormatTimeAt59_9996()
    ensures FormatTime(59.9996) == "00:00:59,1000"
    ensures ParseTimecode(FormatTime(59.9996)) == None
  {
    MillisReach1000();
    assert Digits(59) == "59";
    assert Digits(1000) == "1000";
  }

  /** With the carry, every time from 0 up to 359999.9995 s (the times that
      round to less than 100 hours) renders as a well-formed timecode that
      reads back as the time rounded to the millisecond. */
  lemma FormatTimeCarryRoundTrip(s: real)
    requires 0.0 <= s < 359999.9995
    ensures ParseTimecode(FormatTimeCarry(s)) == Some(RoundHalfEven(s * 1000.0))
  {
    SplitTimeCarryFields(s);
    RenderRoundTrip(SplitTimeCarry(s));
  }
}
