/** The countdown to the daily draw at 17:00. Time is a whole number of
    milliseconds on the local clock, with every local day starting at a
    multiple of MsPerDay. */
module Countdown {

  const MsPerSecond: int := 1000
  const MsPerMinute: int := 60 * MsPerSecond
  const MsPerHour: int := 60 * MsPerMinute
  const MsPerDay: int := 24 * MsPerHour
  /** The draw is at 17:00:00.000 every day. */
  const DrawHour: int := 17
  const DrawTimeOfDay: int := DrawHour * MsPerHour

  const ConfirmedMessage: string := "Ticket confirmed!"
  const CloserMessage: string := "You're entered! The draw is getting closer!"
  const AwaitsMessage: string := "Almost there! Your microwave awaits!"
  const LongerMessage: string := "Just a little longer! Good luck!"
  const SoonMessage: string := "Get ready! The draw is happening soon!"

  /** A remaining time split into whole hours, minutes and seconds. */
  datatype Remaining = Remaining(hours: int, minutes: int, seconds: int)

  /** The hour shown by the local clock at time t (`Date.getHours`). */
  function HourOfDay(t: int): (h: int)
    ensures 0 <= h < 24
  {
    (t % MsPerDay) / MsPerHour
  }

  /** The next draw: 17:00 today while the clock shows an hour before 17,
      otherwise 17:00 tomorrow. */
  function NextDrawTime(now: int): (r: int)
    ensures now < r <= now + MsPerDay
    ensures r % MsPerDay == DrawTimeOfDay
    ensures r / MsPerDay == if HourOfDay(now) < DrawHour then now / MsPerDay else now / MsPerDay + 1
  {
    var midnight := now - now % MsPerDay;
    var today := midnight + DrawTimeOfDay;
    if HourOfDay(now) >= DrawHour then today + MsPerDay else today
  }

  /** No 17:00 lies strictly between `now` and the next draw: the next draw
      is the earliest 17:00 after `now`. */
  lemma NextDrawIsEarliest(now: int, t: int)
    requires now < t < NextDrawTime(now)
    ensures t % MsPerDay != DrawTimeOfDay
  {
  }

  function Millis(d: Remaining): int {
    d.hours * MsPerHour + d.minutes * MsPerMinute + d.seconds * MsPerSecond
  }

  /** A well-formed split: minutes and seconds below sixty, and the whole
      seconds of `diff` accounted for. */
  predicate IsSplitOf(d: Remaining, diff: int) {
    && 0 <= d.hours && 0 <= d.minutes < 60 && 0 <= d.seconds < 60
    && Millis(d) <= diff < Millis(d) + MsPerSecond
  }

  /** The countdown's hours, minutes and seconds of a positive difference. */
  function Split(diff: int): (d: Remaining)
    requires diff > 0
    ensures IsSplitOf(d, diff)
  {
    var hours := diff / MsPerHour;
    var minutes := (diff % MsPerHour) / MsPerMinute;
    var seconds := (diff % MsPerMinute) / MsPerSecond;
    SplitBounds(diff);
    Remaining(hours, minutes, seconds)
  }

  /** The three divisions of Split account for every whole second of `diff`:
      the minutes are read from the remainder modulo an hour, and that
      remainder modulo a minute is the remainder of `diff` itself. */
  lemma SplitBounds(diff: int)
    requires diff >= 0
    ensures IsSplitOf(Remaining(diff / MsPerHour, (diff % MsPerHour) / MsPerMinute,
                                (diff % MsPerMinute) / MsPerSecond), diff)
  {
    var h, a := diff / MsPerHour, diff % MsPerHour;
    var m, b := a / MsPerMinute, a % MsPerMinute;
    assert a == m * MsPerMinute + b;
    assert m < 60;
    DivModUnique(diff, MsPerMinute, h * 60 + m, b);
    var s := b / MsPerSecond;
    assert b == s * MsPerSecond + b % MsPerSecond;
    assert s < 60;
  }

  lemma DivModUnique(n: int, d: int, q: int, r: int)
    requires d > 0 && 0 <= r < d && n == q * d + r
    ensures n / d == q && n % d == r
  {
    var k := q - n / d;
    assert k * d == n % d - r;
  }

  /** A split is unique, so Split gives the only one. */
  lemma SplitUnique(diff: int, d: Remaining)
    requires diff > 0 && IsSplitOf(d, diff)
    ensures d == Split(diff)
  {
    var rest := diff - d.hours * MsPerHour;
    DivModUnique(diff, MsPerHour, d.hours, rest);
    var sub := rest - d.minutes * MsPerMinute;
    DivModUnique(rest, MsPerMinute, d.minutes, sub);
    DivModUnique(diff, MsPerMinute, d.hours * 60 + d.minutes, sub);
    DivModUnique(sub, MsPerSecond, d.seconds, sub - d.seconds * MsPerSecond);
  }

  /** While the deadline is the next draw computed at t0 and has not been
      reached, the hours field stays below 24. */
  lemma HoursBelowDay(t0: int, now: int)
    requires t0 < now < NextDrawTime(t0)
    ensures Split(NextDrawTime(t0) - now).hours < 24
  {
  }

  // ---------------------------------------------------------------------
  // Formatting

  predicate IsDigit(c: char) {
    '0' <= c <= '9'
  }

  predicate AllDigits(s: string) {
    forall k :: 0 <= k < |s| ==> IsDigit(s[k])
  }

  function DigitChar(d: int): (c: char)
    requires 0 <= d < 10
    ensures IsDigit(c) && c as int - '0' as int == d
  {
    ('0' as int + d) as char
  }

  /** Decimal value of a digit string. */
  function DigitsValue(s: string): nat
    requires AllDigits(s)
  {
    if s == [] then 0
    else 10 * DigitsValue(s[..|s| - 1]) + (s[|s| - 1] as int - '0' as int)
  }

  /** `n.toString()` for a whole number. */
  function NatToString(n: nat): (s: string)
    ensures AllDigits(s) && 1 <= |s|
    ensures n < 10 <==> |s| == 1
    ensures n < 100 ==> |s| <= 2
    ensures |s| > 1 ==> s[0] != '0'
  {
    if n < 10 then [DigitChar(n)] else NatToString(n / 10) + [DigitChar(n % 10)]
  }

  lemma {:induction false} NatToStringRoundTrip(n: nat)
    ensures DigitsValue(NatToString(n)) == n
  {
    if n >= 10 {
      NatToStringRoundTrip(n / 10);
      var s := NatToString(n);
      assert s[..|s| - 1] == NatToString(n / 10);
    }
  }

  /** `s.padStart(width, fill)` for a one-character fill. */
  function PadStart(s: string, width: nat, fill: char): (r: string)
    ensures |r| == if |s| < width then width else |s|
    ensures r[|r| - |s|..] == s
    ensures forall k :: 0 <= k < |r| - |s| ==> r[k] == fill
  {
    if |s| >= width then s else seq(width - |s|, _ => fill) + s
  }

  function Zeros(z: nat): (r: string)
    ensures |r| == z && AllDigits(r)
  {
    seq(z, _ => '0')
  }

  /** Leading zeros do not change a decimal value. */
  lemma {:induction false} LeadingZeros(z: nat, s: string)
    requires AllDigits(s)
    ensures AllDigits(Zeros(z) + s)
    ensures DigitsValue(Zeros(z) + s) == DigitsValue(s)
    decreases |s|, z
  {
    var t := Zeros(z) + s;
    if s == [] {
      assert t == Zeros(z);
      if z > 0 {
        assert t[..|t| - 1] == Zeros(z - 1) + [];
        LeadingZeros(z - 1, []);
      }
    } else {
      assert t[..|t| - 1] == Zeros(z) + s[..|s| - 1];
      LeadingZeros(z, s[..|s| - 1]);
    }
  }

  /** A countdown field: the number padded to two digits with '0'. */
  function TwoDigits(n: nat): string {
    PadStart(NatToString(n), 2, '0')
  }

  /** A field is at least two characters, all digits, reading back as the
      number; below 100 it is exactly two. */
  lemma TwoDigitsRoundTrip(n: nat)
    ensures AllDigits(TwoDigits(n))
    ensures |TwoDigits(n)| == if n < 100 then 2 else |NatToString(n)|
    ensures DigitsValue(TwoDigits(n)) == n
  {
    var s := NatToString(n);
    NatToStringRoundTrip(n);
    if |s| < 2 {
      assert TwoDigits(n) == Zeros(2 - |s|) + s;
      LeadingZeros(2 - |s|, s);
    }
  }

  /** The countdown text `HHh MMm SSs`. */
  function FormatTimeLeft(d: Remaining): (s: string)
    requires 0 <= d.hours && 0 <= d.minutes && 0 <= d.seconds
    ensures 11 <= |s| && s[|s| - 1] == 's'
  {
    TwoDigits(d.hours) + "h " + TwoDigits(d.minutes) + "m " + TwoDigits(d.seconds) + "s"
  }

  /** The countdown text has its three two-digit fields at fixed places,
      and each reads back as the field it shows. */
  lemma FormatTimeLeftLayout(d: Remaining)
    requires 0 <= d.hours < 100 && 0 <= d.minutes < 60 && 0 <= d.seconds < 60
    ensures var s := FormatTimeLeft(d);
      && |s| == 11
      && s[2..4] == "h " && s[6..8] == "m " && s[10] == 's'
      && AllDigits(s[0..2]) && DigitsValue(s[0..2]) == d.hours
      && AllDigits(s[4..6]) && DigitsValue(s[4..6]) == d.minutes
      && AllDigits(s[8..10]) && DigitsValue(s[8..10]) == d.seconds
  {
    TwoDigitsRoundTrip(d.hours);
    TwoDigitsRoundTrip(d.minutes);
    TwoDigitsRoundTrip(d.seconds);
    FieldLayout(TwoDigits(d.hours), TwoDigits(d.minutes), TwoDigits(d.seconds));
  }

  lemma FieldLayout(hh: string, mm: string, ss: string)
    requires |hh| == 2 && |mm| == 2 && |ss| == 2
    ensures var s := hh + "h " + mm + "m " + ss + "s";
      |s| == 11 && s[0..2] == hh && s[2..4] == "h " && s[4..6] == mm
      && s[6..8] == "m " && s[8..10] == ss && s[10] == 's'
  {
  }

  // ---------------------------------------------------------------------
  // Encouragement at purchase time

  /** The message chosen from the whole hours left until the draw
      (`Math.floor(diff / 3600000)`; Dafny's `/` floors for a positive
      divisor, negative differences included). */
  function Encouragement(diff: int): (msg: string)
    ensures msg == ConfirmedMessage <==> diff >= 13 * MsPerHour
    ensures msg == CloserMessage <==> 7 * MsPerHour <= diff < 13 * MsPerHour
    ensures msg == AwaitsMessage <==> 4 * MsPerHour <= diff < 7 * MsPerHour
    ensures msg == LongerMessage <==> 2 * MsPerHour <= diff < 4 * MsPerHour
    ensures msg == SoonMessage <==> diff < 2 * MsPerHour
  {
    var hoursUntilDraw := diff / MsPerHour;
    if hoursUntilDraw > 12 then ConfirmedMessage
    else if hoursUntilDraw > 6 then CloserMessage
    else if hoursUntilDraw > 3 then AwaitsMessage
    else if hoursUntilDraw > 1 then LongerMessage
    else SoonMessage
  }

}
