/** Times of day as the Day class handles them: strings that must match
    dd:dd (two digits, a colon, two digits) and are then compared lexically.
    The minutes are not range-checked, so "09:75" is a time. */
module Times {
  import opened Lexical

  predicate IsDigit(c: char) {
    '0' <= c <= '9'
  }

  /** The string matches the pattern dd:dd. */
  predicate IsTime(s: string) {
    |s| == 5 && IsDigit(s[0]) && IsDigit(s[1]) && s[2] == ':' && IsDigit(s[3]) && IsDigit(s[4])
  }

  function DigitValue(c: char): (r: int) {
    c as int - '0' as int
  }

  /** The four digits of a time read as one decimal number: "09:30" is 930. */
  function TimeValue(s: string): (r: int)
    requires IsTime(s)
  {
    1000 * DigitValue(s[0]) + 100 * DigitValue(s[1]) + 10 * DigitValue(s[3]) + DigitValue(s[4])
  }

  /** On strings of the form dd:dd, lexical order is the integer order of
      their four digits. */
  lemma TimeOrder(a: string, b: string)
    requires IsTime(a) && IsTime(b)
    ensures Compare(a, b) < 0 <==> TimeValue(a) < TimeValue(b)
    ensures Compare(a, b) == 0 <==> TimeValue(a) == TimeValue(b)
    ensures Compare(a, b) > 0 <==> TimeValue(a) > TimeValue(b)
  {
    var a1, b1 := a[1..], b[1..];
    var a2, b2 := a1[1..], b1[1..];
    var a3, b3 := a2[1..], b2[1..];
    var a4, b4 := a3[1..], b3[1..];
    assert a2[0] == ':' == b2[0];
    if a[0] != b[0] {
      assert Compare(a, b) == a[0] as int - b[0] as int;
    } else if a[1] != b[1] {
      assert Compare(a, b) == Compare(a1, b1) == a[1] as int - b[1] as int;
    } else if a[3] != b[3] {
      assert Compare(a, b) == Compare(a1, b1) == Compare(a2, b2) == Compare(a3, b3);
      assert Compare(a3, b3) == a[3] as int - b[3] as int;
    } else if a[4] != b[4] {
      assert Compare(a, b) == Compare(a1, b1) == Compare(a2, b2) == Compare(a3, b3) == Compare(a4, b4);
      assert Compare(a4, b4) == a[4] as int - b[4] as int;
    } else {
      assert Compare(a, b) == Compare(a1, b1) == Compare(a2, b2) == Compare(a3, b3) == Compare(a4, b4);
      assert Compare(a4, b4) == Compare(a4[1..], b4[1..]) == 0;
    }
  }

  /** validateTimeFormat, read positively: both times match dd:dd. */
  predicate TimeFormatOk(startTime: string, endTime: string) {
    IsTime(startTime) && IsTime(endTime)
  }

  const MinStartTime := "00:01"
  const MaxEndTime := "23:59"

  /** checkValidTimes, read positively: start and end are not before 00:01,
      the end is not after 23:59 and the start is before the end, all by
      lexical comparison. */
  predicate TimesValid(startTime: string, endTime: string) {
    && Compare(startTime, MinStartTime) >= 0
    && Compare(endTime, MinStartTime) >= 0
    && Compare(endTime, MaxEndTime) <= 0
    && Compare(startTime, endTime) < 0
  }

  /** On well-formed times the bounds check accepts exactly the windows with
      1 <= start < end <= 2359 (as four-digit numbers), so midnight is never
      a start or an end. */
  lemma TimesValidIff(startTime: string, endTime: string)
    requires TimeFormatOk(startTime, endTime)
    ensures TimesValid(startTime, endTime) <==>
      1 <= TimeValue(startTime) < TimeValue(endTime) <= 2359
  {
    assert IsTime(MinStartTime) && TimeValue(MinStartTime) == 1;
    assert IsTime(MaxEndTime) && TimeValue(MaxEndTime) == 2359;
    TimeOrder(startTime, MinStartTime);
    TimeOrder(endTime, MinStartTime);
    TimeOrder(endTime, MaxEndTime);
    TimeOrder(startTime, endTime);
  }

  /** The overlap test of checkAgainstOtherShifts for a new window
      [newStart, newEnd] against an existing [otherStart, otherEnd]: the new
      start or the new end lies in the closed existing interval. */
  predicate Clash(newStart: string, newEnd: string, otherStart: string, otherEnd: string) {
    || (Compare(newStart, otherEnd) <= 0 && Compare(newStart, otherStart) >= 0)
    || (Compare(newEnd, otherStart) >= 0 && Compare(newEnd, otherEnd) <= 0)
  }

  /** On well-formed times the clash test is closed-interval containment of
      either endpoint of the new window. */
  lemma ClashIff(newStart: string, newEnd: string, otherStart: string, otherEnd: string)
    requires TimeFormatOk(newStart, newEnd) && TimeFormatOk(otherStart, otherEnd)
    ensures Clash(newStart, newEnd, otherStart, otherEnd) <==>
      || TimeValue(otherStart) <= TimeValue(newStart) <= TimeValue(otherEnd)
      || TimeValue(otherStart) <= TimeValue(newEnd) <= TimeValue(otherEnd)
  {
    TimeOrder(newStart, otherEnd);
    TimeOrder(newStart, otherStart);
    TimeOrder(newEnd, otherStart);
    TimeOrder(newEnd, otherEnd);
  }

  /** A new window that starts where an existing one ends clashes with it:
      the test uses closed intervals. */
  lemma TouchingWindowsClash()
    ensures Clash("12:00", "13:00", "09:00", "12:00")
  {
    ClashIff("12:00", "13:00", "09:00", "12:00");
  }

  /** An existing window lying strictly inside the new one is not detected. */
  lemma ContainedWindowMissed()
    ensures !Clash("09:00", "12:00", "10:00", "11:00")
  {
    ClashIff("09:00", "12:00", "10:00", "11:00");
  }

  /** A new window whose start equals an existing valid window's start always
      clashes with it, so accepted shifts have pairwise distinct starts. */
  lemma SameStartClashes(newStart: string, newEnd: string, otherStart: string, otherEnd: string)
    requires newStart == otherStart && TimesValid(otherStart, otherEnd)
    ensures Clash(newStart, newEnd, otherStart, otherEnd)
  {
  }
}
