/**
 * Date and time format substitution of js/modules/dateTimeFormat.js. The
 * stored formats arrive as optional strings (the browser's local storage is
 * not modelled); the date and time parts arrive as numbers, standing in for
 * what `Intl` and `toLocaleTimeString` extract.
 */
module DateTimeFormat {
  import opened Common
  import opened Text

  const DefaultDateFormat: string := "YYYY-MM-DD"
  const DefaultTimeFormat: string := "HH:mm"
  const TwelveHourFormat: string := "hh:mm a"

  /** `localStorage.getItem(key) || fallback`: a missing or empty stored value gives the default. */
  function StoredFormat(stored: Option<string>, default: string): (r: string)
    ensures default != [] ==> r != []
    ensures r == default || (stored == Some(r) && r != [])
  {
    if stored.Some? && stored.value != [] then stored.value else default
  }

  /** `getDateFormat`. */
  function GetDateFormat(stored: Option<string>): (r: string)
    ensures r != []
    ensures stored.None? || stored == Some([]) ==> r == DefaultDateFormat
  {
    StoredFormat(stored, DefaultDateFormat)
  }

  /** `getTimeFormat`. */
  function GetTimeFormat(stored: Option<string>): (r: string)
    ensures r != []
    ensures stored.None? || stored == Some([]) ==> r == DefaultTimeFormat
  {
    StoredFormat(stored, DefaultTimeFormat)
  }

  /** `is24HourFormat`: the format has no AM/PM marker. */
  predicate Is24HourFormat(format: string)
  {
    !Contains(format, "a")
  }

  /** The format is 24-hour exactly when no character of it is 'a'. */
  lemma Is24HourIff(format: string)
    ensures Is24HourFormat(format) <==> forall i :: 0 <= i < |format| ==> format[i] != 'a'
  {
    if forall i :: 0 <= i < |format| ==> format[i] != 'a' {
      ReplaceMissing(format, "a", "");
    } else {
      var i :| 0 <= i < |format| && format[i] == 'a';
      assert OccursAt(format, "a", i) by { assert format[i..i + 1] == "a"; }
      ContainsAt(format, "a", i);
    }
  }

  predicate Digits(s: string)
  {
    forall i :: 0 <= i < |s| ==> '0' <= s[i] <= '9'
  }

  /** The Chinese month name `formatDate` inserts for 'MMM'. */
  function MonthNameZh(month: nat): (r: string)
    requires 1 <= month <= 12
    ensures |r| >= 2 && r[|r| - 1] == '月'
    ensures NoDateLetters(r)
  {
    [ "一月", "二月", "三月", "四月", "五月", "六月",
      "七月", "八月", "九月", "十月", "十一月", "十二月" ][month - 1]
  }

  /** The year, month and day tokens of `formatDate`, replaced once each in the order YYYY, MM, DD. */
  function FillDate(format: string, year: string, mm: string, dd: string): string
  {
    ReplaceFirst(ReplaceFirst(ReplaceFirst(format, "YYYY", year), "MM", mm), "DD", dd)
  }

  /**
   * `formatDate`: month and day padded to two digits, then the first
   * occurrence of each token replaced in turn: 'MMM' (only if present),
   * 'YYYY', 'MM', 'DD'.
   */
  function FormatDate(format: string, year: string, month: nat, day: nat): string
    requires 1 <= month <= 12 && 1 <= day <= 31
  {
    var named := if Contains(format, "MMM") then ReplaceFirst(format, "MMM", MonthNameZh(month)) else format;
    FillDate(named, year, Pad2(month), Pad2(day))
  }

  /** No 'MMM' in a format whose 'M's never come three in a row. */
  lemma NoMonthName(f: string)
    requires forall j :: 0 <= j < |f| - 2 ==> f[j] != 'M' || f[j + 2] != 'M'
    ensures !Contains(f, "MMM")
  {
    forall j: nat ensures !OccursAt(f, "MMM", j) {
      if j + 3 <= |f| {
        assert f[j..j + 3][0] == f[j] && f[j..j + 3][2] == f[j + 2];
      }
    }
    ReplaceFirstAbsent(f, "MMM", "");
  }

  /** The first occurrence of `p` in `a + p + b` is replaced when `a` holds no character starting `p`. */
  lemma Step(s: string, a: string, p: string, b: string, v: string)
    requires s == a + p + b && |p| > 0 && forall j :: 0 <= j < |a| ==> a[j] != p[0]
    ensures ReplaceFirst(s, p, v) == a + v + b
  {
    ReplaceAfter(a, p, b, v);
  }

  // The first replacement in each offered format, one lemma each so that the
  // literal format stays out of the larger proofs.

  lemma YearOfYearMonthDay(format: string, year: string)
    requires format == "YYYY-MM-DD"
    ensures !Contains(format, "MMM")
    ensures ReplaceFirst(format, "YYYY", year) == year + "-MM-DD"
  {
    NoMonthName(format);
    Step(format, [], "YYYY", "-MM-DD", year);
  }

  lemma YearOfMonthDayYear(format: string, year: string)
    requires format == "MM/DD/YYYY"
    ensures !Contains(format, "MMM")
    ensures ReplaceFirst(format, "YYYY", year) == "MM/DD/" + year
  {
    NoMonthName(format);
    Step(format, "MM/DD/", "YYYY", [], year);
  }

  lemma YearOfDayMonthYear(format: string, year: string)
    requires format == "DD/MM/YYYY"
    ensures !Contains(format, "MMM")
    ensures ReplaceFirst(format, "YYYY", year) == "DD/MM/" + year
  {
    NoMonthName(format);
    Step(format, "DD/MM/", "YYYY", [], year);
  }

  lemma YearOfChinese(format: string, year: string)
    requires format == "YYYY年MM月DD日"
    ensures !Contains(format, "MMM")
    ensures ReplaceFirst(format, "YYYY", year) == year + "年MM月DD日"
  {
    NoMonthName(format);
    Step(format, [], "YYYY", "年MM月DD日", year);
  }

  // The later replacements, one lemma per step for the same reason.

  lemma MonthAfterYear(year: string, mm: string)
    requires Digits(year)
    ensures ReplaceFirst(year + "-MM-DD", "MM", mm) == year + "-" + mm + "-DD"
  {
    Step(year + "-MM-DD", year + "-", "MM", "-DD", mm);
  }

  lemma DayAfterMonth(year: string, mm: string, dd: string)
    requires Digits(year) && Digits(mm)
    ensures ReplaceFirst(year + "-" + mm + "-DD", "DD", dd) == year + "-" + mm + "-" + dd
  {
    Step(year + "-" + mm + "-DD", year + "-" + mm + "-", "DD", [], dd);
  }

  lemma MonthFirst(year: string, mm: string)
    ensures ReplaceFirst("MM/DD/" + year, "MM", mm) == mm + "/DD/" + year
  {
    Step("MM/DD/" + year, [], "MM", "/DD/" + year, mm);
  }

  lemma DayAfterFirstMonth(year: string, mm: string, dd: string)
    requires Digits(mm)
    ensures ReplaceFirst(mm + "/DD/" + year, "DD", dd) == mm + "/" + dd + "/" + year
  {
    Step(mm + "/DD/" + year, mm + "/", "DD", "/" + year, dd);
  }

  lemma MonthAfterDay(year: string, mm: string)
    ensures ReplaceFirst("DD/MM/" + year, "MM", mm) == "DD/" + mm + "/" + year
  {
    Step("DD/MM/" + year, "DD/", "MM", "/" + year, mm);
  }

  lemma DayFirst(year: string, mm: string, dd: string)
    ensures ReplaceFirst("DD/" + mm + "/" + year, "DD", dd) == dd + "/" + mm + "/" + year
  {
    Step("DD/" + mm + "/" + year, [], "DD", "/" + mm + "/" + year, dd);
  }

  lemma MonthAfterChineseYear(year: string, mm: string)
    requires Digits(year)
    ensures ReplaceFirst(year + "年MM月DD日", "MM", mm) == year + "年" + mm + "月DD日"
  {
    Step(year + "年MM月DD日", year + "年", "MM", "月DD日", mm);
  }

  lemma DayAfterChineseMonth(year: string, mm: string, dd: string)
    requires Digits(year) && Digits(mm)
    ensures ReplaceFirst(year + "年" + mm + "月DD日", "DD", dd) == year + "年" + mm + "月" + dd + "日"
  {
    Step(year + "年" + mm + "月DD日", year + "年" + mm + "月", "DD", "日", dd);
  }

  /** 'YYYY-MM-DD', the default: year-month-day with two-digit month and day. */
  lemma FillYearMonthDay(format: string, year: string, mm: string, dd: string)
    requires format == "YYYY-MM-DD" && Digits(year) && Digits(mm)
    ensures !Contains(format, "MMM")
    ensures FillDate(format, year, mm, dd) == year + "-" + mm + "-" + dd
  {
    YearOfYearMonthDay(format, year);
    MonthAfterYear(year, mm);
    DayAfterMonth(year, mm, dd);
  }

  /** 'MM/DD/YYYY': month/day/year. */
  lemma FillMonthDayYear(format: string, year: string, mm: string, dd: string)
    requires format == "MM/DD/YYYY" && Digits(mm)
    ensures !Contains(format, "MMM")
    ensures FillDate(format, year, mm, dd) == mm + "/" + dd + "/" + year
  {
    YearOfMonthDayYear(format, year);
    MonthFirst(year, mm);
    DayAfterFirstMonth(year, mm, dd);
  }

  /** 'DD/MM/YYYY': day/month/year. */
  lemma FillDayMonthYear(format: string, year: string, mm: string, dd: string)
    requires format == "DD/MM/YYYY"
    ensures !Contains(format, "MMM")
    ensures FillDate(format, year, mm, dd) == dd + "/" + mm + "/" + year
  {
    YearOfDayMonthYear(format, year);
    MonthAfterDay(year, mm);
    DayFirst(year, mm, dd);
  }

  /** 'YYYY年MM月DD日': the Chinese order with its unit characters. */
  lemma FillChinese(format: string, year: string, mm: string, dd: string)
    requires format == "YYYY年MM月DD日" && Digits(year) && Digits(mm)
    ensures !Contains(format, "MMM")
    ensures FillDate(format, year, mm, dd) == year + "年" + mm + "月" + dd + "日"
  {
    YearOfChinese(format, year);
    MonthAfterChineseYear(year, mm);
    DayAfterChineseMonth(year, mm, dd);
  }

  /** Without 'MMM' the date is the format with its year, month and day tokens filled. */
  lemma FormatDateUnnamed(format: string, year: string, month: nat, day: nat)
    requires 1 <= month <= 12 && 1 <= day <= 31 && !Contains(format, "MMM")
    ensures FormatDate(format, year, month, day) == FillDate(format, year, Pad2(month), Pad2(day))
  {
  }

  lemma Pad2Digits(n: nat)
    requires n < 100
    ensures Digits(Pad2(n))
  {
  }

  /** Without 'MMM', a filled format that reads `expected` is the date `formatDate` returns. */
  lemma FormatDateFilled(format: string, year: string, month: nat, day: nat, expected: string)
    requires 1 <= month <= 12 && 1 <= day <= 31 && !Contains(format, "MMM")
    requires FillDate(format, year, Pad2(month), Pad2(day)) == expected
    ensures FormatDate(format, year, month, day) == expected
  {
    FormatDateUnnamed(format, year, month, day);
  }

  /** The default 'YYYY-MM-DD' gives year-month-day with two-digit month and day. */
  lemma FormatDateYearMonthDay(format: string, year: string, month: nat, day: nat)
    requires 1 <= month <= 12 && 1 <= day <= 31 && Digits(year)
    requires format == "YYYY-MM-DD"
    ensures FormatDate(format, year, month, day) == year + "-" + Pad2(month) + "-" + Pad2(day)
  {
    var mm, dd := Pad2(month), Pad2(day);
    Pad2Digits(month);
    FillYearMonthDay(format, year, mm, dd);
    FormatDateFilled(format, year, month, day, year + "-" + mm + "-" + dd);
  }

  /** 'MM/DD/YYYY' gives month/day/year. */
  lemma FormatDateMonthDayYear(format: string, year: string, month: nat, day: nat)
    requires 1 <= month <= 12 && 1 <= day <= 31
    requires format == "MM/DD/YYYY"
    ensures FormatDate(format, year, month, day) == Pad2(month) + "/" + Pad2(day) + "/" + year
  {
    var mm, dd := Pad2(month), Pad2(day);
    Pad2Digits(month);
    FillMonthDayYear(format, year, mm, dd);
    FormatDateFilled(format, year, month, day, mm + "/" + dd + "/" + year);
  }

  /** 'DD/MM/YYYY' gives day/month/year. */
  lemma FormatDateDayMonthYear(format: string, year: string, month: nat, day: nat)
    requires 1 <= month <= 12 && 1 <= day <= 31
    requires format == "DD/MM/YYYY"
    ensures FormatDate(format, year, month, day) == Pad2(day) + "/" + Pad2(month) + "/" + year
  {
    var mm, dd := Pad2(month), Pad2(day);
    Pad2Digits(month);
    FillDayMonthYear(format, year, mm, dd);
    FormatDateFilled(format, year, month, day, dd + "/" + mm + "/" + year);
  }

  /** 'YYYY年MM月DD日' gives the Chinese form. */
  lemma FormatDateChinese(format: string, year: string, month: nat, day: nat)
    requires 1 <= month <= 12 && 1 <= day <= 31 && Digits(year)
    requires format == "YYYY年MM月DD日"
    ensures FormatDate(format, year, month, day) == year + "年" + Pad2(month) + "月" + Pad2(day) + "日"
  {
    var mm, dd := Pad2(month), Pad2(day);
    Pad2Digits(month);
    FillChinese(format, year, mm, dd);
    FormatDateFilled(format, year, month, day, year + "年" + mm + "月" + dd + "日");
  }

  /** With 'MMM' present the month name goes in first, then the other tokens are filled. */
  lemma FormatDateNamed(format: string, year: string, month: nat, day: nat)
    requires 1 <= month <= 12 && 1 <= day <= 31 && Contains(format, "MMM")
    ensures FormatDate(format, year, month, day)
      == FillDate(ReplaceFirst(format, "MMM", MonthNameZh(month)), year, Pad2(month), Pad2(day))
  {
  }

  predicate NoDateLetters(m: string)
  {
    forall i :: 0 <= i < |m| ==> m[i] != 'Y' && m[i] != 'M' && m[i] != 'D'
  }

  lemma NamedMonthFirstFound(format: string)
    requires format == "MMM DD, YYYY"
    ensures Contains(format, "MMM")
  {
    assert OccursAt(format, "MMM", 0) by { assert format[0..3] == "MMM"; }
    ContainsAt(format, "MMM", 0);
  }

  lemma NamedMonthFirst(format: string, m: string)
    requires format == "MMM DD, YYYY"
    ensures ReplaceFirst(format, "MMM", m) == m + " DD, YYYY"
  {
    Step(format, [], "MMM", " DD, YYYY", m);
  }

  lemma YearAfterNamedMonth(m: string, year: string)
    requires NoDateLetters(m)
    ensures ReplaceFirst(m + " DD, YYYY", "YYYY", year) == m + " DD, " + year
  {
    Step(m + " DD, YYYY", m + " DD, ", "YYYY", [], year);
  }

  lemma NoMonthAfterNamedMonth(m: string, year: string, mm: string)
    requires NoDateLetters(m) && Digits(year)
    ensures ReplaceFirst(m + " DD, " + year, "MM", mm) == m + " DD, " + year
  {
    ReplaceMissing(m + " DD, " + year, "MM", mm);
  }

  lemma DayAfterNamedMonth(m: string, year: string, dd: string)
    requires NoDateLetters(m)
    ensures ReplaceFirst(m + " DD, " + year, "DD", dd) == m + " " + dd + ", " + year
  {
    Step(m + " DD, " + year, m + " ", "DD", ", " + year, dd);
  }

  lemma NamedMonthMiddle(format: string, m: string)
    requires format == "DD MMM YYYY"
    ensures Contains(format, "MMM") && ReplaceFirst(format, "MMM", m) == "DD " + m + " YYYY"
  {
    assert OccursAt(format, "MMM", 3) by { assert format[3..6] == "MMM"; }
    ContainsAt(format, "MMM", 3);
    Step(format, "DD ", "MMM", " YYYY", m);
  }

  lemma YearAfterMiddleMonth(m: string, year: string)
    requires NoDateLetters(m)
    ensures ReplaceFirst("DD " + m + " YYYY", "YYYY", year) == "DD " + m + " " + year
  {
    Step("DD " + m + " YYYY", "DD " + m + " ", "YYYY", [], year);
  }

  lemma NoMonthAfterMiddleMonth(m: string, year: string, mm: string)
    requires NoDateLetters(m) && Digits(year)
    ensures ReplaceFirst("DD " + m + " " + year, "MM", mm) == "DD " + m + " " + year
  {
    ReplaceMissing("DD " + m + " " + year, "MM", mm);
  }

  lemma DayBeforeMiddleMonth(m: string, year: string, dd: string)
    ensures ReplaceFirst("DD " + m + " " + year, "DD", dd) == dd + " " + m + " " + year
  {
    Step("DD " + m + " " + year, [], "DD", " " + m + " " + year, dd);
  }

  /** 'MMM DD, YYYY' puts the Chinese month name first, whatever the option label shows. */
  lemma FormatDateMonthFirst(format: string, year: string, month: nat, day: nat)
    requires 1 <= month <= 12 && 1 <= day <= 31 && Digits(year)
    requires format == "MMM DD, YYYY"
    ensures FormatDate(format, year, month, day) == MonthNameZh(month) + " " + Pad2(day) + ", " + year
  {
    var m := MonthNameZh(month);
    NamedMonthFirstFound(format);
    NamedMonthFirst(format, m);
    FormatDateNamed(format, year, month, day);
    YearAfterNamedMonth(m, year);
    NoMonthAfterNamedMonth(m, year, Pad2(month));
    DayAfterNamedMonth(m, year, Pad2(day));
  }

  /** 'DD MMM YYYY' gives the day, the Chinese month name and the year. */
  lemma FormatDateMonthMiddle(format: string, year: string, month: nat, day: nat)
    requires 1 <= month <= 12 && 1 <= day <= 31 && Digits(year)
    requires format == "DD MMM YYYY"
    ensures FormatDate(format, year, month, day) == Pad2(day) + " " + MonthNameZh(month) + " " + year
  {
    var m := MonthNameZh(month);
    NamedMonthMiddle(format, m);
    FormatDateNamed(format, year, month, day);
    YearAfterMiddleMonth(m, year);
    NoMonthAfterMiddleMonth(m, year, Pad2(month));
    DayBeforeMiddleMonth(m, year, Pad2(day));
  }

  /** The 12-hour clock value: h mod 12, with 0 shown as 12. */
  function Hours12(hours: nat): (r: nat)
    ensures 1 <= r <= 12 && r % 12 == hours % 12
  {
    if hours % 12 == 0 then 12 else hours % 12
  }

  /** The AM/PM marker `toLocaleTimeString` reports for the hour. */
  function Period(hours: nat): (r: string)
    requires hours < 24
    ensures r == (if hours < 12 then "AM" else "PM")
  {
    if hours >= 12 then "PM" else "AM"
  }

  /** The hour tokens of `formatTime`, replaced once each in the order HH, H, hh, h. */
  function HourTokens(format: string, hours: nat): string
    requires hours < 24
  {
    var h := Pad2(hours);
    var h12 := Pad2(Hours12(hours));
    ReplaceFirst(ReplaceFirst(ReplaceFirst(ReplaceFirst(format, "HH", h), "H", h), "hh", h12), "h", h12)
  }

  /** The minute and second tokens, replaced once each in the order mm, m, ss, s. */
  function MinuteSecondTokens(t: string, minutes: nat, seconds: nat): string
    requires minutes < 60 && seconds < 60
  {
    ReplaceFirst(ReplaceFirst(ReplaceFirst(ReplaceFirst(t,
      "mm", Pad2(minutes)), "m", NatToString(minutes)), "ss", Pad2(seconds)), "s", NatToString(seconds))
  }

  /**
   * `formatTime`: single-occurrence replacements in the order HH, H, hh, h,
   * mm, m, ss, s; then 'a' becomes AM/PM if the format has one. Both 'H'
   * and both 'h' tokens insert the two-digit value.
   */
  function FormatTime(format: string, hours: nat, minutes: nat, seconds: nat): string
    requires hours < 24 && minutes < 60 && seconds < 60
  {
    var t := MinuteSecondTokens(HourTokens(format, hours), minutes, seconds);
    if Contains(format, "a") then ReplaceFirst(t, "a", Period(hours)) else t
  }

  lemma HoursOf24(format: string, h: string)
    requires format == DefaultTimeFormat
    ensures !Contains(format, "a")
    ensures ReplaceFirst(format, "HH", h) == h + ":mm"
  {
    ReplaceMissing(format, "a", "");
    Step(format, [], "HH", ":mm", h);
  }

  lemma NoOtherHours(t: string, h: string, h12: string)
    requires forall j :: 0 <= j < |t| ==> t[j] != 'H' && t[j] != 'h'
    ensures ReplaceFirst(ReplaceFirst(ReplaceFirst(t, "H", h), "hh", h12), "h", h12) == t
  {
    ReplaceMissing(t, "H", h);
    ReplaceMissing(t, "hh", h12);
    ReplaceMissing(t, "h", h12);
  }

  lemma MinutesAfterHours(h: string, m: string)
    requires Digits(h)
    ensures ReplaceFirst(h + ":mm", "mm", m) == h + ":" + m
  {
    Step(h + ":mm", h + ":", "mm", [], m);
  }

  lemma NoSecondsLeft(t: string, m: string, ss: string, s: string)
    requires forall j :: 0 <= j < |t| ==> t[j] != 'm' && t[j] != 's'
    ensures ReplaceFirst(ReplaceFirst(ReplaceFirst(t, "m", m), "ss", ss), "s", s) == t
  {
    ReplaceMissing(t, "m", m);
    ReplaceMissing(t, "ss", ss);
    ReplaceMissing(t, "s", s);
  }

  lemma NoOtherHoursIn24(h: string, h12: string)
    requires Digits(h)
    ensures ReplaceFirst(ReplaceFirst(ReplaceFirst(h + ":mm", "H", h), "hh", h12), "h", h12) == h + ":mm"
  {
    NoOtherHours(h + ":mm", h, h12);
  }

  lemma NoSecondsIn24(h: string, m: string, mv: string, ss: string, sv: string)
    requires Digits(h) && Digits(m)
    ensures ReplaceFirst(ReplaceFirst(ReplaceFirst(h + ":" + m, "m", mv), "ss", ss), "s", sv) == h + ":" + m
  {
    NoSecondsLeft(h + ":" + m, mv, ss, sv);
  }

  lemma NoSecondsIn12(h12: string, m: string, mv: string, ss: string, sv: string)
    requires Digits(h12) && Digits(m)
    ensures ReplaceFirst(ReplaceFirst(ReplaceFirst(h12 + ":" + m + " a", "m", mv), "ss", ss), "s", sv)
      == h12 + ":" + m + " a"
  {
    NoSecondsLeft(h12 + ":" + m + " a", mv, ss, sv);
  }

  /** The default 'HH:mm' gives the two-digit hour and minute. */
  lemma FormatTime24(format: string, hours: nat, minutes: nat, seconds: nat)
    requires format == DefaultTimeFormat
    requires hours < 24 && minutes < 60 && seconds < 60
    ensures FormatTime(format, hours, minutes, seconds) == Pad2(hours) + ":" + Pad2(minutes)
  {
    var h, m := Pad2(hours), Pad2(minutes);
    Pad2Digits(hours);
    Pad2Digits(minutes);
    HoursOf24(format, h);
    NoOtherHoursIn24(h, Pad2(Hours12(hours)));
    MinutesAfterHours(h, m);
    NoSecondsIn24(h, m, NatToString(minutes), Pad2(seconds), NatToString(seconds));
  }

  lemma HoursOf12(format: string, h: string, h12: string)
    requires format == TwelveHourFormat
    ensures Contains(format, "a")
    ensures ReplaceFirst(ReplaceFirst(format, "HH", h), "H", h) == format
  {
    assert OccursAt(format, "a", 6) by { assert format[6..7] == "a"; }
    ContainsAt(format, "a", 6);
    ReplaceMissing(format, "HH", h);
    ReplaceMissing(format, "H", h);
  }

  lemma TwelveHoursOf12(format: string, h12: string)
    requires format == TwelveHourFormat
    ensures ReplaceFirst(format, "hh", h12) == h12 + ":mm a"
  {
    Step(format, [], "hh", ":mm a", h12);
  }

  lemma NoSingleHour(h12: string)
    requires Digits(h12)
    ensures ReplaceFirst(h12 + ":mm a", "h", h12) == h12 + ":mm a"
  {
    ReplaceMissing(h12 + ":mm a", "h", h12);
  }

  lemma MinutesAfterTwelveHours(h12: string, m: string)
    requires Digits(h12)
    ensures ReplaceFirst(h12 + ":mm a", "mm", m) == h12 + ":" + m + " a"
  {
    Step(h12 + ":mm a", h12 + ":", "mm", " a", m);
  }

  lemma MarkerAfterMinutes(h12: string, m: string, period: string)
    requires Digits(h12) && Digits(m)
    ensures ReplaceFirst(h12 + ":" + m + " a", "a", period) == h12 + ":" + m + " " + period
  {
    Step(h12 + ":" + m + " a", h12 + ":" + m + " ", "a", [], period);
  }

  /** 'hh:mm a' gives the two-digit 12-hour value, the minutes and the AM/PM marker. */
  lemma FormatTime12(format: string, hours: nat, minutes: nat, seconds: nat)
    requires format == TwelveHourFormat
    requires hours < 24 && minutes < 60 && seconds < 60
    ensures FormatTime(format, hours, minutes, seconds)
      == Pad2(Hours12(hours)) + ":" + Pad2(minutes) + " " + Period(hours)
  {
    var h, h12, m := Pad2(hours), Pad2(Hours12(hours)), Pad2(minutes);
    Pad2Digits(Hours12(hours));
    Pad2Digits(minutes);
    HoursOf12(format, h, h12);
    TwelveHoursOf12(format, h12);
    NoSingleHour(h12);
    MinutesAfterTwelveHours(h12, m);
    NoSecondsIn12(h12, m, NatToString(minutes), Pad2(seconds), NatToString(seconds));
    MarkerAfterMinutes(h12, m, Period(hours));
  }

  /** The toggle in `openTimeFormatEditor`: a 12-hour format becomes 'HH:mm', any other 'hh:mm a'. */
  function ToggledTimeFormat(format: string): (r: string)
    ensures Is24HourFormat(r) <==> !Is24HourFormat(format)
  {
    Is24HourIff("HH:mm");
    Is24HourIff(TwelveHourFormat);
    assert TwelveHourFormat[6] == 'a';
    if Contains(format, "a") then DefaultTimeFormat else TwelveHourFormat
  }

  /** Two toggles keep the kind of clock and land on its canonical format; from 'HH:mm' they come back to it. */
  lemma ToggleTwice(format: string)
    ensures Is24HourFormat(ToggledTimeFormat(ToggledTimeFormat(format))) == Is24HourFormat(format)
    ensures ToggledTimeFormat(ToggledTimeFormat(DefaultTimeFormat)) == DefaultTimeFormat
  {
    Is24HourIff(DefaultTimeFormat);
    Is24HourIff(TwelveHourFormat);
    assert TwelveHourFormat[6] == 'a';
  }
}
