/**
 The race clock's text: whole seconds since the start, shown as minutes and
 seconds, each left-padded with '0' to two characters. The clock reading
 is a parameter.
 */
module Timer {
  import opened GameTypes
  import Text

  /** The digit character for 0..9. */
  function DigitChar(d: nat): char
    requires d < 10
  {
    "0123456789"[d]
  }

  predicate IsDigit(c: char) {
    '0' <= c <= '9'
  }

  predicate AllDigits(s: string) {
    forall i :: 0 <= i < |s| ==> IsDigit(s[i])
  }

  /** `n.toString()` for a non-negative integer: decimal digits, no leading zero. */
  function Digits(n: nat): (r: string)
    ensures r != [] && AllDigits(r)
    ensures (r[0] == '0') <==> n == 0
    ensures n < 10 <==> |r| == 1
  {
    if n < 10 then [DigitChar(n)] else Digits(n / 10) + [DigitChar(n % 10)]
  }

  /** The number a string of decimal digits denotes. */
  function DigitsValue(s: string): int
    requires AllDigits(s)
  {
    if s == [] then 0 else DigitsValue(s[..|s| - 1]) * 10 + (s[|s| - 1] as int - '0' as int)
  }

  /** Reading the decimal text of `n` gives `n` back. */
  lemma {:induction false} DigitsRoundTrip(n: nat)
    ensures DigitsValue(Digits(n)) == n
    decreases n
  {
    if n >= 10 {
      var p := Digits(n / 10);
      var s := p + [DigitChar(n % 10)];
      assert s[..|s| - 1] == p;
      DigitsRoundTrip(n / 10);
    }
  }

  /** A leading zero does not change a digit string's value. */
  lemma {:induction false} LeadingZeroValue(s: string)
    requires AllDigits(s)
    ensures DigitsValue("0" + s) == DigitsValue(s)
    decreases |s|
  {
    if s != [] {
      var t := "0" + s;
      assert t[..|t| - 1] == "0" + s[..|s| - 1];
      LeadingZeroValue(s[..|s| - 1]);
    }
  }

  /**
   `n.toString()` for any integer: the text starts with '-' exactly when the
   number is negative, and the digits after the sign read back as its
   magnitude.
   */
  function NumberToString(n: int): (r: string)
    ensures r != []
    ensures r[0] == '-' <==> n < 0
    ensures n < 0 ==> AllDigits(r[1..]) && DigitsValue(r[1..]) == -n
    ensures n >= 0 ==> AllDigits(r) && DigitsValue(r) == n
  {
    if n < 0 then
      DigitsRoundTrip(-n);
      assert ("-" + Digits(-n))[1..] == Digits(-n);
      "-" + Digits(-n)
    else
      DigitsRoundTrip(n);
      Digits(n)
  }

  /** `s.padStart(2, '0')`: '0's in front up to two characters; longer text is left as it is. */
  function PadStart2(s: string): (r: string)
    ensures |r| == if |s| < 2 then 2 else |s|
    ensures r[|r| - |s|..] == s
    ensures forall i :: 0 <= i < |r| - |s| ==> r[i] == '0'
    decreases 2 - |s|
  {
    if |s| >= 2 then s else PadStart2("0" + s)
  }

  /** JavaScript's `%` on a positive divisor: the remainder takes the sign of the dividend. */
  function JsRem(a: int, b: int): (r: int)
    requires b > 0
    ensures a >= 0 ==> 0 <= r < b
    ensures a < 0 ==> -b < r <= 0
  {
    if a >= 0 then a % b else -((-a) % b)
  }

  /**
   Whole seconds since the start: `Math.floor((t - start) / 1000)` where
   `t` is the end time when it is set and the current time otherwise.
   Dafny's division by a positive number already rounds down.
   */
  function ElapsedSeconds(startTime: Option<int>, endTime: Option<int>, currentTime: int): (e: int)
    requires IsSet(startTime)
    ensures var t := (if IsSet(endTime) then endTime.value else currentTime) - startTime.value;
      e * 1000 <= t < e * 1000 + 1000
  {
    ((if IsSet(endTime) then endTime.value else currentTime) - startTime.value) / 1000
  }

  /** A minutes/seconds pair. */
  datatype Clock = Clock(minutes: int, seconds: int)

  /**
   `Math.floor(elapsed / 60)` and `elapsed % 60`. For a non-negative count
   the pair recombines to it with seconds below sixty; for a negative count
   (a clock that ran backwards) the minutes round down while the seconds
   keep the sign of the count, so a non-zero remainder loses a minute.
   */
  function Split(elapsed: int): (c: Clock)
    ensures c.minutes * 60 <= elapsed < c.minutes * 60 + 60
    ensures elapsed >= 0 ==> c.minutes * 60 + c.seconds == elapsed && 0 <= c.seconds < 60
    ensures elapsed < 0 ==> -60 < c.seconds <= 0
    ensures elapsed < 0 ==> c.minutes * 60 + c.seconds == (if c.seconds == 0 then elapsed else elapsed - 60)
  {
    Clock(elapsed / 60, JsRem(elapsed, 60))
  }

  /** `formatTime(mins, secs)`: both fields padded to two characters, joined by ':'. */
  function FormatTime(c: Clock): string {
    PadStart2(NumberToString(c.minutes)) + ":" + PadStart2(NumberToString(c.seconds))
  }

  /** What the timer shows: "00:00" before the clock starts, otherwise the formatted elapsed time. */
  function TimerText(startTime: Option<int>, endTime: Option<int>, currentTime: int): (r: string)
    ensures !IsSet(startTime) ==> r == "00:00"
  {
    if !IsSet(startTime) then "00:00"
    else FormatTime(Split(ElapsedSeconds(startTime, endTime, currentTime)))
  }

  /** Reading "m:ss" text back: the digits before the final ':' and two digits as minutes and seconds. */
  function ParseTime(t: string): Option<int> {
    if |t| >= 4 && t[|t| - 3] == ':' && AllDigits(t[..|t| - 3]) && AllDigits(t[|t| - 2..])
    then Some(DigitsValue(t[..|t| - 3]) * 60 + DigitsValue(t[|t| - 2..]))
    else None
  }

  /** Padding a non-negative number's text keeps only digits and keeps its value. */
  lemma PaddedValue(n: nat)
    ensures var p := PadStart2(Digits(n));
      AllDigits(p) && DigitsValue(p) == n && ':' !in p
  {
    DigitsRoundTrip(n);
    if |Digits(n)| < 2 {
      assert PadStart2(Digits(n)) == "0" + Digits(n);
      LeadingZeroValue(Digits(n));
    }
  }

  /** At least one digit, a ':', two digits: read as minutes and seconds. */
  lemma ParseJoined(a: string, b: string, total: int)
    requires AllDigits(a) && AllDigits(b) && |a| >= 1 && |b| == 2
    requires total == DigitsValue(a) * 60 + DigitsValue(b)
    ensures ParseTime(a + ":" + b) == Some(total)
  {
    var t := a + ":" + b;
    assert |t| == |a| + 3;
    assert t[..|a|] == a;
    assert t[|a|] == ':';
    assert t[|a| + 1..] == b;
  }

  /** A number below one hundred has at most two digits. */
  lemma TwoDigitsAtMost(n: nat)
    requires n < 100
    ensures |Digits(n)| <= 2
  {
  }

  /** A clock with non-negative minutes and seconds below sixty is formatted as text that reads back as its total seconds. */
  lemma FormatReadsBack(c: Clock, total: int)
    requires c.minutes >= 0 && 0 <= c.seconds < 60 && total == c.minutes * 60 + c.seconds
    ensures ParseTime(FormatTime(c)) == Some(total)
  {
    var m := PadStart2(Digits(c.minutes));
    var s := PadStart2(Digits(c.seconds));
    assert AllDigits(m) && DigitsValue(m) == c.minutes by {
      PaddedValue(c.minutes);
    }
    assert AllDigits(s) && DigitsValue(s) == c.seconds && |s| == 2 by {
      PaddedValue(c.seconds);
      TwoDigitsAtMost(c.seconds);
    }
    assert FormatTime(c) == m + ":" + s;
    ParseJoined(m, s, total);
  }

  /**
   The text a running or finished timer shows reads back as the whole
   seconds elapsed, as long as the clock did not run backwards (the
   reading requires a ':' followed by exactly two digits).
   */
  lemma TimerTextReadsBack(startTime: Option<int>, endTime: Option<int>, currentTime: int)
    requires IsSet(startTime)
    requires (if IsSet(endTime) then endTime.value else currentTime) >= startTime.value
    ensures ParseTime(TimerText(startTime, endTime, currentTime)) == Some(ElapsedSeconds(startTime, endTime, currentTime))
  {
    var e := ElapsedSeconds(startTime, endTime, currentTime);
    assert e >= 0;
    var c := Split(e);
    assert c.minutes * 60 + c.seconds == e;
    assert TimerText(startTime, endTime, currentTime) == FormatTime(c);
    FormatReadsBack(c, e);
  }

  /** An hour is sixty minutes and no seconds, shown as "60:00": the minutes are not capped. */
  lemma HourText()
    ensures FormatTime(Split(3600)) == "60:00"
  {
    assert Split(3600) == Clock(60, 0);
  }

  /** One second before the start is minus one minute and minus one second, shown as "-1:-1". */
  lemma MinusOneSecondText()
    ensures FormatTime(Split(-1)) == "-1:-1"
  {
  }

  /** The clock runs past an hour without wrapping: an hour shows as "60:00". */
  lemma HourShowsSixtyMinutes(t0: int)
    requires t0 != 0
    ensures TimerText(Some(t0), Some(t0 + 3600000), 0) == "60:00"
  {
    assert ElapsedSeconds(Some(t0), Some(t0 + 3600000), 0) == 3600;
    HourText();
  }

  /** A clock that ran one second backwards shows the negative remainder: "-1:-1". */
  lemma BackwardsClockShowsNegative(t0: int)
    requires t0 != 0
    ensures TimerText(Some(t0), Some(t0 - 1000), 0) == "-1:-1"
  {
    assert ElapsedSeconds(Some(t0), Some(t0 - 1000), 0) == -1;
    MinusOneSecondText();
  }
}
