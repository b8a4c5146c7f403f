/** The program's `timeLayout`, "20060102T150405Z": an ISO 8601 basic-format
    UTC timestamp with second resolution, written and read over calendar
    fields. */
module Timestamp {
  import opened Common

  datatype DateTime = DateTime(year: int, month: int, day: int, hour: int, minute: int, second: int)

  predicate IsLeapYear(y: int)
  {
    y % 4 == 0 && (y % 100 != 0 || y % 400 == 0)
  }

  function DaysIn(month: int, year: int): (n: int)
    requires 1 <= month <= 12
    ensures 28 <= n <= 31
    ensures month == 2 ==> (n == 29 <==> IsLeapYear(year))
  {
    if month == 2 then (if IsLeapYear(year) then 29 else 28)
    else if month == 4 || month == 6 || month == 9 || month == 11 then 30
    else 31
  }

  /** A calendar instant the layout can write: a four-digit year and fields
      in their calendar ranges (Go's `time.Parse` checks the same ranges,
      including the day against the length of the month). */
  predicate Valid(d: DateTime)
  {
    && 0 <= d.year <= 9999
    && 1 <= d.month <= 12
    && 1 <= d.day <= DaysIn(d.month, d.year)
    && 0 <= d.hour < 24
    && 0 <= d.minute < 60
    && 0 <= d.second < 60
  }

  predicate IsDigit(c: char)
  {
    '0' <= c <= '9'
  }

  function Digit(n: int): (c: char)
    requires 0 <= n < 10
    ensures IsDigit(c)
  {
    ('0' as int + n) as char
  }

  function DigitValue(c: char): int
    requires IsDigit(c)
  {
    c as int - '0' as int
  }

  /** A number below 100 as two zero-padded digits ("01" in the layout). */
  function Pad2(n: int): string
    requires 0 <= n < 100
  {
    [Digit(n / 10), Digit(n % 10)]
  }

  /** A number below 10000 as four zero-padded digits ("2006" in the layout). */
  function Pad4(n: int): string
    requires 0 <= n < 10000
  {
    Pad2(n / 100) + Pad2(n % 100)
  }

  /** `t.Format(timeLayout)` (main.go:24, main.go:35). */
  function Format(d: DateTime): (s: string)
    requires Valid(d)
    ensures |s| == 16 && s[8] == 'T' && s[15] == 'Z'
    ensures forall i :: 0 <= i < 16 && i != 8 && i != 15 ==> IsDigit(s[i])
  {
    Pad4(d.year) + Pad2(d.month) + Pad2(d.day) + "T"
      + Pad2(d.hour) + Pad2(d.minute) + Pad2(d.second) + "Z"
  }

  predicate DigitsAt(s: string, lo: nat, hi: nat)
    requires lo <= hi <= |s|
  {
    forall i :: lo <= i < hi ==> IsDigit(s[i])
  }

  /** The number written by the two digits of `s` at `at`. */
  function Num2(s: string, at: nat): int
    requires at + 2 <= |s| && IsDigit(s[at]) && IsDigit(s[at + 1])
  {
    DigitValue(s[at]) * 10 + DigitValue(s[at + 1])
  }

  /** `time.Parse(timeLayout, s)` (main.go:72): `None` is a parse error. */
  function Parse(s: string): (r: Option<DateTime>)
    ensures r.Some? ==> Valid(r.value) && Format(r.value) == s
  {
    if |s| != 16 || !DigitsAt(s, 0, 8) || s[8] != 'T' || !DigitsAt(s, 9, 15) || s[15] != 'Z' then None
    else
      var d := DateTime(Num2(s, 0) * 100 + Num2(s, 2), Num2(s, 4), Num2(s, 6),
                        Num2(s, 9), Num2(s, 11), Num2(s, 13));
      if Valid(d) then
        FormatOfParsed(s, d);
        Some(d)
      else None
  }

  lemma Pad2OfNum2(s: string, at: nat)
    requires at + 2 <= |s| && IsDigit(s[at]) && IsDigit(s[at + 1])
    ensures 0 <= Num2(s, at) < 100 && Pad2(Num2(s, at)) == s[at..at + 2]
  {
    var n := Num2(s, at);
    assert n / 10 == DigitValue(s[at]) && n % 10 == DigitValue(s[at + 1]);
  }

  lemma {:induction false} FormatOfParsed(s: string, d: DateTime)
    requires |s| == 16 && DigitsAt(s, 0, 8) && s[8] == 'T' && DigitsAt(s, 9, 15) && s[15] == 'Z'
    requires d == DateTime(Num2(s, 0) * 100 + Num2(s, 2), Num2(s, 4), Num2(s, 6),
                           Num2(s, 9), Num2(s, 11), Num2(s, 13))
    requires Valid(d)
    ensures Format(d) == s
  {
    Pad2OfNum2(s, 0);
    Pad2OfNum2(s, 2);
    Pad2OfNum2(s, 4);
    Pad2OfNum2(s, 6);
    Pad2OfNum2(s, 9);
    Pad2OfNum2(s, 11);
    Pad2OfNum2(s, 13);
    assert Num2(s, 0) * 100 + Num2(s, 2) == d.year;
    assert d.year / 100 == Num2(s, 0) && d.year % 100 == Num2(s, 2);
    assert Pad4(d.year) == s[0..2] + s[2..4];
    SixteenPieces(s);
  }

  /** A string of the layout's length is the concatenation of its fields. */
  lemma SixteenPieces(s: string)
    requires |s| == 16 && s[8] == 'T' && s[15] == 'Z'
    ensures s == s[0..2] + s[2..4] + s[4..6] + s[6..8] + "T" + s[9..11] + s[11..13] + s[13..15] + "Z"
  {
    assert s == s[0..8] + s[8..16];
    assert s[0..8] == s[0..2] + s[2..4] + s[4..6] + s[6..8];
    assert s[8..16] == "T" + s[9..11] + s[11..13] + s[13..15] + "Z";
  }

  /** Where each field sits in what `Format` writes. */
  lemma FormatFields(d: DateTime)
    requires Valid(d)
    ensures var s := Format(d);
      && s[0..2] == Pad2(d.year / 100) && s[2..4] == Pad2(d.year % 100)
      && s[4..6] == Pad2(d.month) && s[6..8] == Pad2(d.day)
      && s[9..11] == Pad2(d.hour) && s[11..13] == Pad2(d.minute) && s[13..15] == Pad2(d.second)
  {
  }

  /** Two digits written by `Pad2` read back as the number. */
  lemma Num2At(s: string, at: nat, n: int)
    requires 0 <= n < 100 && at + 2 <= |s| && s[at..at + 2] == Pad2(n)
    ensures IsDigit(s[at]) && IsDigit(s[at + 1]) && Num2(s, at) == n
  {
    assert s[at] == s[at..at + 2][0] && s[at + 1] == s[at..at + 2][1];
  }

  /** Parsing what `Format` writes gives the instant back. */
  lemma {:induction false} ParseFormat(d: DateTime)
    requires Valid(d)
    ensures Parse(Format(d)) == Some(d)
  {
    var s := Format(d);
    FormatFields(d);
    Num2At(s, 0, d.year / 100);
    Num2At(s, 2, d.year % 100);
    Num2At(s, 4, d.month);
    Num2At(s, 6, d.day);
    Num2At(s, 9, d.hour);
    Num2At(s, 11, d.minute);
    Num2At(s, 13, d.second);
    assert DigitsAt(s, 0, 8) && DigitsAt(s, 9, 15);
    assert DateTime(Num2(s, 0) * 100 + Num2(s, 2), Num2(s, 4), Num2(s, 6),
                    Num2(s, 9), Num2(s, 11), Num2(s, 13)) == d;
  }

  /** The layout writes distinct instants as distinct strings. */
  lemma FormatInjective(d1: DateTime, d2: DateTime)
    requires Valid(d1) && Valid(d2) && Format(d1) == Format(d2)
    ensures d1 == d2
  {
    ParseFormat(d1);
    ParseFormat(d2);
  }
}
