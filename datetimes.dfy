/**
 * Python `datetime` values as the source uses them: the timestamp pattern it
 * searches for in an article's publication string, `datetime.strptime` for
 * the formats "%d %b %Y %H:%M:%S" and "%Y-%m-%d", `strftime("%Y-%m-%d")`,
 * and chronological comparison.
 */
module DateTimes {
  import opened Basics
  import opened Text

  datatype DateTime = DateTime(year: int, month: int, day: int, hour: int, minute: int, second: int)

  predicate IsLeapYear(y: int)
  {
    y % 4 == 0 && (y % 100 != 0 || y % 400 == 0)
  }

  function DaysInMonth(year: int, month: int): int
    requires 1 <= month <= 12
  {
    if month == 2 then (if IsLeapYear(year) then 29 else 28)
    else if month == 4 || month == 6 || month == 9 || month == 11 then 30
    else 31
  }

  /** The field values the `datetime` constructor accepts (MINYEAR is 1, MAXYEAR is 9999). */
  predicate Valid(d: DateTime)
    ensures Valid(d) ==> 1 <= d.day <= 31
    ensures Valid(d) && d.month == 2 && d.day == 29 ==> IsLeapYear(d.year)
  {
    1 <= d.year <= 9999 && 1 <= d.month <= 12 && 1 <= d.day <= DaysInMonth(d.year, d.month) &&
    0 <= d.hour < 24 && 0 <= d.minute < 60 && 0 <= d.second < 60
  }

  predicate IsMidnight(d: DateTime)
  {
    d.hour == 0 && d.minute == 0 && d.second == 0
  }

  /** `a <= b` on datetimes: chronological order, lexicographic on the fields. */
  predicate NotAfter(a: DateTime, b: DateTime)
    ensures a == b ==> NotAfter(a, b)
    ensures a.year < b.year ==> NotAfter(a, b)
    ensures a.year > b.year ==> !NotAfter(a, b)
  {
    if a.year != b.year then a.year < b.year
    else if a.month != b.month then a.month < b.month
    else if a.day != b.day then a.day < b.day
    else if a.hour != b.hour then a.hour < b.hour
    else if a.minute != b.minute then a.minute < b.minute
    else a.second <= b.second
  }

  lemma NotAfterIsTotalOrder(a: DateTime, b: DateTime, c: DateTime)
    ensures NotAfter(a, a)
    ensures NotAfter(a, b) && NotAfter(b, a) ==> a == b
    ensures NotAfter(a, b) && NotAfter(b, c) ==> NotAfter(a, c)
    ensures NotAfter(a, b) || NotAfter(b, a)
  {
  }

  /**
   * The date-range test of both filters: `start_date is None or d >= start_date`
   * and `end_date is None or d <= end_date`; both bounds inclusive.
   */
  function WithinBounds(d: DateTime, start: Option<DateTime>, end: Option<DateTime>): (r: bool)
    ensures start.None? && end.None? ==> r
    ensures start.Some? && end.Some? && !NotAfter(start.value, end.value) ==> !r
  {
    NotAfterIsTotalOrder(if start.Some? then start.value else d, d, if end.Some? then end.value else d);
    (start.None? || NotAfter(start.value, d)) && (end.None? || NotAfter(d, end.value))
  }

  /**
   * The date-range test as both filters evaluate it on a date that may be
   * absent: with no bound nothing is compared; with a bound set, an absent
   * date is compared with a datetime and raises (an unbound `entry_date`, or
   * a `date_added` that is None or empty).
   */
  function DateTest(date: Option<DateTime>, start: Option<DateTime>, end: Option<DateTime>): (r: Eval<bool>)
    ensures r.Raised? <==> (start.Some? || end.Some?) && date.None?
    ensures date.Some? ==> r == Done(WithinBounds(date.value, start, end))
  {
    if start.None? && end.None? then Done(true)
    else if date.None? then Raised
    else Done(WithinBounds(date.value, start, end))
  }

  /** A date equal to both bounds passes the range test. */
  lemma BoundsAreInclusive(d: DateTime)
    ensures WithinBounds(d, Some(d), Some(d))
  {
  }

  /**
   * The bounds given on the command line are dates at midnight, so an end
   * bound lets through nothing after the first second of its own day.
   */
  lemma EndDateStopsAtMidnight(d: DateTime, e: DateTime)
    requires Valid(d) && IsMidnight(e) && d.year == e.year && d.month == e.month && d.day == e.day
    ensures WithinBounds(d, None, Some(e)) <==> IsMidnight(d)
  {
  }

  // ---------------------------------------------------------------- digits

  predicate IsDigit(c: char)
  {
    '0' <= c <= '9'
  }

  function DigitValue(c: char): int
    requires IsDigit(c)
  {
    c as int - '0' as int
  }

  function DigitChar(n: int): (c: char)
    requires 0 <= n <= 9
    ensures IsDigit(c) && DigitValue(c) == n
  {
    ('0' as int + n) as char
  }

  lemma DigitCharOfValue(c: char)
    requires IsDigit(c)
    ensures DigitChar(DigitValue(c)) == c
  {
  }

  /** Case folding leaves every character but a capital letter alone, so only `e` folds to `e`. */
  lemma LowerCharNonLetter(c: char, e: char)
    requires !('a' <= e <= 'z') && !('A' <= e <= 'Z')
    ensures LowerChar(c) == e <==> c == e
  {
  }

  lemma SplitDigits2(a: int, b: int)
    requires 0 <= a <= 9 && 0 <= b <= 9
    ensures (10 * a + b) / 10 == a && (10 * a + b) % 10 == b
  {
  }

  lemma SplitDigits4(a: int, b: int, c: int, e: int)
    requires 0 <= a <= 9 && 0 <= b <= 9 && 0 <= c <= 9 && 0 <= e <= 9
    ensures var v := 1000 * a + 100 * b + 10 * c + e;
      v / 1000 == a && v / 100 % 10 == b && v / 10 % 10 == c && v % 10 == e
  {
    var v := 1000 * a + 100 * b + 10 * c + e;
    assert v / 10 == 100 * a + 10 * b + c;
    assert v / 100 == 10 * a + b;
  }

  lemma JoinDigits2(n: int)
    requires 0 <= n <= 99
    ensures 0 <= n / 10 <= 9 && 10 * (n / 10) + n % 10 == n
  {
  }

  lemma JoinDigits4(n: int)
    requires 0 <= n <= 9999
    ensures 0 <= n / 1000 <= 9
    ensures 1000 * (n / 1000) + 100 * (n / 100 % 10) + 10 * (n / 10 % 10) + n % 10 == n
  {
    assert n == 10 * (n / 10) + n % 10;
    assert n / 10 == 10 * (n / 100) + n / 10 % 10;
    assert n / 100 == 10 * (n / 1000) + n / 100 % 10;
  }

  /** The decimal value of the two digits at `i`. */
  function Value2(s: string, i: int): int
    requires 0 <= i && i + 2 <= |s| && IsDigit(s[i]) && IsDigit(s[i + 1])
  {
    10 * DigitValue(s[i]) + DigitValue(s[i + 1])
  }

  /** The decimal value of the four digits at `i`. */
  function Value4(s: string, i: int): int
    requires 0 <= i && i + 4 <= |s|
    requires IsDigit(s[i]) && IsDigit(s[i + 1]) && IsDigit(s[i + 2]) && IsDigit(s[i + 3])
  {
    1000 * DigitValue(s[i]) + 100 * DigitValue(s[i + 1]) + 10 * DigitValue(s[i + 2]) + DigitValue(s[i + 3])
  }

  // ------------------------------------------------- the publication stamp

  /** `\w` on ASCII text: letters, digits and the underscore. */
  predicate IsWordChar(c: char)
  {
    IsDigit(c) || 'a' <= c <= 'z' || 'A' <= c <= 'Z' || c == '_'
  }

  const StampLength: nat := 20

  /** The pattern `\d{2} \w{3} \d{4} \d{2}:\d{2}:\d{2}` matches `s` at position `i`. */
  predicate StampAt(s: string, i: int)
    ensures StampAt(s, i) ==> 0 <= i && i + StampLength <= |s|
  {
    0 <= i && i + StampLength <= |s| &&
    IsDigit(s[i]) && IsDigit(s[i + 1]) && s[i + 2] == ' ' &&
    IsWordChar(s[i + 3]) && IsWordChar(s[i + 4]) && IsWordChar(s[i + 5]) && s[i + 6] == ' ' &&
    IsDigit(s[i + 7]) && IsDigit(s[i + 8]) && IsDigit(s[i + 9]) && IsDigit(s[i + 10]) && s[i + 11] == ' ' &&
    IsDigit(s[i + 12]) && IsDigit(s[i + 13]) && s[i + 14] == ':' &&
    IsDigit(s[i + 15]) && IsDigit(s[i + 16]) && s[i + 17] == ':' &&
    IsDigit(s[i + 18]) && IsDigit(s[i + 19])
  }

  /**
   * `re.search` of the stamp pattern in `s`, starting at `from`: the
   * leftmost position where the pattern matches, if there is one.
   */
  function FindStamp(s: string, from: nat): (r: Option<nat>)
    ensures r.Some? ==> from <= r.value && StampAt(s, r.value)
    ensures forall j :: from <= j && (r.None? || j < r.value) ==> !StampAt(s, j)
    decreases |s| - from
  {
    if from + StampLength > |s| then None
    else if StampAt(s, from) then Some(from)
    else FindStamp(s, from + 1)
  }

  /** The stamp that matched at `i`, as `match.group(0)` returns it. */
  lemma StampWindow(s: string, i: nat)
    requires StampAt(s, i)
    ensures |s[i..i + StampLength]| == StampLength && StampAt(s[i..i + StampLength], 0)
  {
  }

  /** The month abbreviation `strftime("%b")` writes under the C locale. */
  function MonthAbbreviation(month: int): (name: string)
    requires 1 <= month <= 12
    ensures |name| == 3 && IsWordChar(name[0]) && IsWordChar(name[1]) && IsWordChar(name[2])
  {
    if month == 1 then "Jan" else if month == 2 then "Feb" else if month == 3 then "Mar"
    else if month == 4 then "Apr" else if month == 5 then "May" else if month == 6 then "Jun"
    else if month == 7 then "Jul" else if month == 8 then "Aug" else if month == 9 then "Sep"
    else if month == 10 then "Oct" else if month == 11 then "Nov" else "Dec"
  }

  /** The lower-cased month names `strptime` looks the `%b` field up in. */
  const MonthNames: seq<string> :=
    ["jan", "feb", "mar", "apr", "may", "jun", "jul", "aug", "sep", "oct", "nov", "dec"]

  /** `%b` in `strptime`: the month whose name equals the field, ignoring case. */
  function MonthNumber(name: string): (r: Option<int>)
    ensures r.Some? ==> 1 <= r.value <= 12 && Lower(name) == MonthNames[r.value - 1]
    ensures r.None? ==> Lower(name) !in MonthNames
  {
    MonthFrom(Lower(name), 0)
  }

  function MonthFrom(folded: string, k: nat): (r: Option<int>)
    requires k <= |MonthNames|
    ensures r.Some? ==> k < r.value <= 12 && folded == MonthNames[r.value - 1]
    ensures r.None? ==> forall j :: k <= j < |MonthNames| ==> folded != MonthNames[j]
    decreases |MonthNames| - k
  {
    if k == |MonthNames| then None
    else if folded == MonthNames[k] then Some(k + 1)
    else MonthFrom(folded, k + 1)
  }

  lemma LowerMonthAbbreviation(month: int)
    requires 1 <= month <= 12
    ensures Lower(MonthAbbreviation(month)) == MonthNames[month - 1]
  {
    var name := MonthAbbreviation(month);
    var folded := Lower(name);
    assert folded[0] == LowerChar(name[0]) && folded[1] == LowerChar(name[1]) && folded[2] == LowerChar(name[2]);
    assert folded == [folded[0], folded[1], folded[2]];
  }

  lemma MonthNamesDistinct(i: int, j: int)
    requires 0 <= i < 12 && 0 <= j < 12 && MonthNames[i] == MonthNames[j]
    ensures i == j
  {
    if i == 0 {} else if i == 1 {} else {}
  }

  /** A name that folds to the `k`-th month name is month `k + 1`. */
  lemma MonthNumberOfName(name: string, k: int)
    requires 0 <= k < 12 && Lower(name) == MonthNames[k]
    ensures MonthNumber(name) == Some(k + 1)
  {
    assert Lower(name) in MonthNames;
    var r := MonthNumber(name);
    MonthNamesDistinct(r.value - 1, k);
  }

  lemma MonthNumberOfAbbreviation(month: int)
    requires 1 <= month <= 12
    ensures MonthNumber(MonthAbbreviation(month)) == Some(month)
  {
    LowerMonthAbbreviation(month);
    MonthNumberOfName(MonthAbbreviation(month), month - 1);
  }

  /** A datetime written in the stamp format ("%d %b %Y %H:%M:%S"). */
  function FormatStamp(d: DateTime): (s: string)
    requires Valid(d)
    ensures |s| == StampLength && StampAt(s, 0)
  {
    var name := MonthAbbreviation(d.month);
    [DigitChar(d.day / 10), DigitChar(d.day % 10), ' ',
     name[0], name[1], name[2], ' ',
     DigitChar(d.year / 1000), DigitChar(d.year / 100 % 10), DigitChar(d.year / 10 % 10), DigitChar(d.year % 10), ' ',
     DigitChar(d.hour / 10), DigitChar(d.hour % 10), ':',
     DigitChar(d.minute / 10), DigitChar(d.minute % 10), ':',
     DigitChar(d.second / 10), DigitChar(d.second % 10)]
  }

  /**
   * `datetime.strptime(w, "%d %b %Y %H:%M:%S")` on a window that matched the
   * stamp pattern; None where it raises. On such a window the directive
   * regexes accept day 01-31, hour 00-23, minute 00-59 and second 00-61, and
   * the `datetime` constructor then rejects year 0000, a day past the end of
   * the month and seconds 60 and 61: together, exactly `Valid`.
   */
  function ParseStamp(w: string): (r: Option<DateTime>)
    requires |w| == StampLength && StampAt(w, 0)
    ensures r.Some? ==> Valid(r.value)
  {
    var fields := StampFields(w);
    if fields.Some? && Valid(fields.value) then Some(fields.value) else None
  }

  /** The fields the directives read from a stamp, before the `datetime` constructor checks them. */
  function StampFields(w: string): (r: Option<DateTime>)
    requires |w| == StampLength && StampAt(w, 0)
    ensures r.Some? ==> 1 <= r.value.month <= 12 && Lower(w[3..6]) == MonthNames[r.value.month - 1]
    ensures r.Some? ==> r.value == DateTime(Value4(w, 7), r.value.month, Value2(w, 0), Value2(w, 12), Value2(w, 15), Value2(w, 18))
  {
    var month := MonthNumber(w[3..6]);
    if month.None? then None
    else Some(DateTime(Value4(w, 7), month.value, Value2(w, 0), Value2(w, 12), Value2(w, 15), Value2(w, 18)))
  }

  lemma TwoDigits(s: string, i: int)
    requires 0 <= i && i + 2 <= |s| && IsDigit(s[i]) && IsDigit(s[i + 1])
    ensures DigitChar(Value2(s, i) / 10) == s[i] && DigitChar(Value2(s, i) % 10) == s[i + 1]
  {
    DigitCharOfValue(s[i]);
    DigitCharOfValue(s[i + 1]);
    SplitDigits2(DigitValue(s[i]), DigitValue(s[i + 1]));
  }

  lemma FourDigits(s: string, i: int)
    requires 0 <= i && i + 4 <= |s|
    requires IsDigit(s[i]) && IsDigit(s[i + 1]) && IsDigit(s[i + 2]) && IsDigit(s[i + 3])
    ensures var v := Value4(s, i);
      DigitChar(v / 1000) == s[i] && DigitChar(v / 100 % 10) == s[i + 1] &&
      DigitChar(v / 10 % 10) == s[i + 2] && DigitChar(v % 10) == s[i + 3]
  {
    DigitCharOfValue(s[i]);
    DigitCharOfValue(s[i + 1]);
    DigitCharOfValue(s[i + 2]);
    DigitCharOfValue(s[i + 3]);
    SplitDigits4(DigitValue(s[i]), DigitValue(s[i + 1]), DigitValue(s[i + 2]), DigitValue(s[i + 3]));
  }

  lemma FormatStampOfFields(w: string, d: DateTime)
    requires |w| == StampLength && StampAt(w, 0) && Valid(d)
    requires Lower(w[3..6]) == MonthNames[d.month - 1]
    requires d == DateTime(Value4(w, 7), d.month, Value2(w, 0), Value2(w, 12), Value2(w, 15), Value2(w, 18))
    ensures Lower(FormatStamp(d)) == Lower(w)
  {
    var f := FormatStamp(d);
    TwoDigits(w, 0);
    FourDigits(w, 7);
    TwoDigits(w, 12);
    TwoDigits(w, 15);
    TwoDigits(w, 18);
    assert forall k :: 0 <= k < StampLength && (k < 3 || 6 <= k) ==> f[k] == w[k];
    LowerMonthAbbreviation(d.month);
    forall k | 3 <= k < 6
      ensures Lower(f)[k] == Lower(w)[k]
    {
      assert Lower(w[3..6])[k - 3] == LowerChar(w[k]);
      assert Lower(MonthAbbreviation(d.month))[k - 3] == LowerChar(f[k]);
    }
  }

  /** Writing a datetime in the stamp format and parsing it back gives it back. */
  lemma ParseFormatStamp(d: DateTime)
    requires Valid(d)
    ensures ParseStamp(FormatStamp(d)) == Some(d)
  {
    var f := FormatStamp(d);
    var name := MonthAbbreviation(d.month);
    assert f[3..6] == [name[0], name[1], name[2]] == name;
    MonthNumberOfAbbreviation(d.month);
    JoinDigits2(d.day);
    JoinDigits4(d.year);
    JoinDigits2(d.hour);
    JoinDigits2(d.minute);
    JoinDigits2(d.second);
    assert Value2(f, 0) == d.day;
    assert Value4(f, 7) == d.year;
    assert Value2(f, 12) == d.hour;
    assert Value2(f, 15) == d.minute;
    assert Value2(f, 18) == d.second;
  }

  /** Two strings equal up to case hold the same digits. */
  lemma SameDigits(w: string, v: string)
    requires |w| == |v| && Lower(w) == Lower(v)
    ensures forall k :: 0 <= k < |v| && IsDigit(v[k]) ==> w[k] == v[k]
  {
    forall k | 0 <= k < |v| && IsDigit(v[k])
      ensures w[k] == v[k]
    {
      assert Lower(w)[k] == Lower(v)[k];
      LowerCharNonLetter(w[k], v[k]);
    }
  }

  /** Two stamps equal up to case name the same month. */
  lemma SameMonthName(w: string, v: string)
    requires |w| == StampLength && |v| == StampLength && Lower(w) == Lower(v)
    ensures MonthNumber(w[3..6]) == MonthNumber(v[3..6])
  {
    assert Lower(w[3..6]) == Lower(v[3..6]) by {
      forall k | 0 <= k < 3 ensures Lower(w[3..6])[k] == Lower(v[3..6])[k] {
        assert Lower(w)[k + 3] == Lower(v)[k + 3];
      }
    }
  }

  /** Two stamps equal up to case have the same digits in every numeric field. */
  lemma SameStampDigits(w: string, v: string)
    requires |w| == StampLength && StampAt(w, 0) && |v| == StampLength && StampAt(v, 0)
    requires Lower(w) == Lower(v)
    ensures w[0] == v[0] && w[1] == v[1]
    ensures w[7] == v[7] && w[8] == v[8] && w[9] == v[9] && w[10] == v[10]
    ensures w[12] == v[12] && w[13] == v[13] && w[15] == v[15] && w[16] == v[16]
    ensures w[18] == v[18] && w[19] == v[19]
  {
    SameDigits(w, v);
  }

  /** `strptime` reads the month name ignoring case, and nothing else in a stamp has case. */
  lemma ParseStampIgnoresCase(w: string, v: string)
    requires |w| == StampLength && StampAt(w, 0) && |v| == StampLength && StampAt(v, 0)
    requires Lower(w) == Lower(v)
    ensures ParseStamp(w) == ParseStamp(v)
  {
    SameStampDigits(w, v);
    SameMonthName(w, v);
    assert StampFields(w) == StampFields(v);
  }

  /**
   * `strptime` accepts a stamp exactly when it is the stamp rendering of a
   * valid datetime up to letter case, and then returns that datetime.
   */
  lemma ParseStampExactly(w: string, d: DateTime)
    requires |w| == StampLength && StampAt(w, 0)
    ensures ParseStamp(w) == Some(d) <==> Valid(d) && Lower(FormatStamp(d)) == Lower(w)
  {
    if Valid(d) && Lower(FormatStamp(d)) == Lower(w) {
      ParseStampIgnoresCase(w, FormatStamp(d));
      ParseFormatStamp(d);
    }
    if ParseStamp(w) == Some(d) {
      FormatStampOfFields(w, d);
    }
  }

  // ------------------------------------------------- the `dateAdded` field

  /**
   * `%m` in `strptime`: the regex `1[0-2]|0[1-9]|[1-9]` at position `i`,
   * first alternative that matches; returns the value and the width read.
   * A two-digit match is never followed by the '-' a one-digit match would
   * need, so the regex engine cannot backtrack into the other alternative.
   */
  function MonthField(s: string, i: nat): Option<(int, nat)>
  {
    if i + 2 <= |s| && ((s[i] == '1' && '0' <= s[i + 1] <= '2') || (s[i] == '0' && '1' <= s[i + 1] <= '9')) then
      Some((Value2(s, i), 2))
    else if i < |s| && '1' <= s[i] <= '9' then
      Some((DigitValue(s[i]), 1))
    else
      None
  }

  /**
   * `%d` as the last directive: the regex `3[01]|[12]\d|0[1-9]|[1-9]| [1-9]`
   * must use up the rest of the string ("unconverted data remains" otherwise).
   */
  function DayField(rest: string): Option<int>
  {
    if |rest| == 2 && ((rest[0] == '3' && (rest[1] == '0' || rest[1] == '1')) ||
                       ((rest[0] == '1' || rest[0] == '2') && IsDigit(rest[1])) ||
                       (rest[0] == '0' && '1' <= rest[1] <= '9')) then
      Some(Value2(rest, 0))
    else if |rest| == 2 && rest[0] == ' ' && '1' <= rest[1] <= '9' then
      Some(DigitValue(rest[1]))
    else if |rest| == 1 && '1' <= rest[0] <= '9' then
      Some(DigitValue(rest[0]))
    else
      None
  }

  /**
   * `datetime.strptime(s, "%Y-%m-%d")`; None where it raises. The year is
   * exactly four digits; month and day may be written with one digit.
   */
  function ParseDate(s: string): (r: Option<DateTime>)
    ensures r.Some? ==> Valid(r.value) && IsMidnight(r.value)
  {
    if |s| < 5 || !(IsDigit(s[0]) && IsDigit(s[1]) && IsDigit(s[2]) && IsDigit(s[3])) || s[4] != '-' then None
    else match MonthField(s, 5)
      case None => None
      case Some((month, width)) =>
        if 5 + width < |s| && s[5 + width] == '-' then
          match DayField(s[6 + width..])
          case None => None
          case Some(day) =>
            var d := DateTime(Value4(s, 0), month, day, 0, 0, 0);
            if Valid(d) then Some(d) else None
        else None
  }

  /** `d.strftime("%Y-%m-%d")`, the year written with four digits. */
  function FormatDate(d: DateTime): (s: string)
    requires Valid(d)
    ensures |s| == 10
  {
    [DigitChar(d.year / 1000), DigitChar(d.year / 100 % 10), DigitChar(d.year / 10 % 10), DigitChar(d.year % 10), '-',
     DigitChar(d.month / 10), DigitChar(d.month % 10), '-',
     DigitChar(d.day / 10), DigitChar(d.day % 10)]
  }

  /** Rendering a date added and parsing it back gives it back. */
  lemma ParseFormatDate(d: DateTime)
    requires Valid(d) && IsMidnight(d)
    ensures ParseDate(FormatDate(d)) == Some(d)
  {
    var s := FormatDate(d);
    JoinDigits4(d.year);
    JoinDigits2(d.month);
    JoinDigits2(d.day);
    assert Value4(s, 0) == d.year;
    assert SpellsMonth(s[5..7], d.month) by {
      assert s[5..7] == [s[5], s[6]];
    }
    assert SpellsDay(s[8..], d.day) by {
      assert s[8..] == [s[8], s[9]];
    }
    assert MonthThenDay(s, 2, d);
    ParseDateExactly(s, d);
  }

  /** A date added already written as YYYY-MM-DD is displayed exactly as it was given. */
  lemma CanonicalDateDisplaysUnchanged(s: string)
    requires |s| == 10 && IsDigit(s[8]) && ParseDate(s).Some?
    ensures FormatDate(ParseDate(s).value) == s
  {
    var f := FormatDate(ParseDate(s).value);
    FourDigits(s, 0);
    TwoDigits(s, 5);
    TwoDigits(s, 8);
    forall k | 0 <= k < 10 ensures f[k] == s[k] {
      if k == 8 || k == 9 {
        assert s[8..][k - 8] == s[k];
      }
    }
  }

  /** `strptime` also takes one-digit months and days. */
  lemma ShortDateParses()
    ensures ParseDate("2024-3-1") == Some(DateTime(2024, 3, 1, 0, 0, 0))
    ensures ParseDate("2024-03-01") == Some(DateTime(2024, 3, 1, 0, 0, 0))
  {
    assert "2024-3-1"[7..] == "1";
    assert "2024-03-01"[8..] == "01";
  }

  /** `w` writes month `m`: two digits worth 1 to 12, or one digit 1 to 9. */
  predicate SpellsMonth(w: string, m: int)
  {
    (|w| == 2 && IsDigit(w[0]) && IsDigit(w[1]) && Value2(w, 0) == m && 1 <= m <= 12) ||
    (|w| == 1 && '1' <= w[0] <= '9' && DigitValue(w[0]) == m)
  }

  /** `w` writes day `day`: two digits worth 1 to 31, or one digit 1 to 9, possibly after a space. */
  predicate SpellsDay(w: string, day: int)
  {
    (|w| == 2 && IsDigit(w[0]) && IsDigit(w[1]) && Value2(w, 0) == day && 1 <= day <= 31) ||
    (|w| == 2 && w[0] == ' ' && '1' <= w[1] <= '9' && DigitValue(w[1]) == day) ||
    (|w| == 1 && '1' <= w[0] <= '9' && DigitValue(w[0]) == day)
  }

  /** From index 5, `s` is a `w`-character month of `d`, a dash, and the day of `d` up to its end. */
  predicate MonthThenDay(s: string, w: nat, d: DateTime)
  {
    6 + w <= |s| && SpellsMonth(s[5..5 + w], d.month) && s[5 + w] == '-' && SpellsDay(s[6 + w..], d.day)
  }

  /** `s` writes the date of `d` as four-digit year, month and day joined by dashes. */
  predicate SpellsDate(s: string, d: DateTime)
  {
    |s| >= 5 && IsDigit(s[0]) && IsDigit(s[1]) && IsDigit(s[2]) && IsDigit(s[3]) &&
    Value4(s, 0) == d.year && s[4] == '-' && (MonthThenDay(s, 1, d) || MonthThenDay(s, 2, d))
  }

  lemma MonthFieldSpelling(s: string, w: nat, m: int)
    requires (w == 1 || w == 2) && 5 + w < |s| && s[5 + w] == '-'
    ensures MonthField(s, 5) == Some((m, w)) <==> SpellsMonth(s[5..5 + w], m)
  {
    var x := s[5..5 + w];
    assert x[0] == s[5];
    if w == 2 {
      assert x[1] == s[6];
    }
  }

  lemma DayFieldSpelling(rest: string, day: int)
    ensures DayField(rest) == Some(day) <==> SpellsDay(rest, day)
  {
  }

  /**
   * What `strptime(s, "%Y-%m-%d")` accepts, exactly: `s` parses to `d`
   * precisely when `d` is a valid date at midnight and `s` writes it as
   * four year digits, a dash, the month in one or two digits, a dash, and
   * the day in one or two digits or as a space and one digit, with nothing
   * after it.
   */
  lemma ParseDateExactly(s: string, d: DateTime)
    ensures ParseDate(s) == Some(d) <==> Valid(d) && IsMidnight(d) && SpellsDate(s, d)
  {
    if |s| >= 5 && IsDigit(s[0]) && IsDigit(s[1]) && IsDigit(s[2]) && IsDigit(s[3]) && s[4] == '-' {
      if 6 < |s| && s[6] == '-' {
        MonthFieldSpelling(s, 1, d.month);
        DayFieldSpelling(s[7..], d.day);
      }
      if 7 < |s| && s[7] == '-' {
        MonthFieldSpelling(s, 2, d.month);
        DayFieldSpelling(s[8..], d.day);
      }
    }
  }
}
