/** The two text formats of the reservation table: dates as `DD-MM-YYYY`
    and times as `HH:MM`.

    Parsing follows `strptime` with the formats "%d-%m-%Y" and "%H:%M": each
    directive is a regular-expression alternative, so single-digit fields
    ("1-2-2027", "8:05") and a space-padded day (" 1-02-2027") are accepted,
    while writing always produces the zero-padded form. */
module Formats {
  import opened Wrappers
  import opened Text
  import opened Calendar

  predicate IsNonZeroDigit(c: char) {
    '1' <= c <= '9'
  }

  /** `%d`: 3[01] | [12]\d | 0[1-9] | [1-9] | " "[1-9] */
  predicate DayField(t: string) {
    || (|t| == 2 && t[0] == '3' && (t[1] == '0' || t[1] == '1'))
    || (|t| == 2 && (t[0] == '1' || t[0] == '2') && IsDigit(t[1]))
    || (|t| == 2 && t[0] == '0' && IsNonZeroDigit(t[1]))
    || (|t| == 1 && IsNonZeroDigit(t[0]))
    || (|t| == 2 && t[0] == ' ' && IsNonZeroDigit(t[1]))
  }

  /** `%m`: 1[0-2] | 0[1-9] | [1-9] */
  predicate MonthField(t: string) {
    || (|t| == 2 && t[0] == '1' && '0' <= t[1] <= '2')
    || (|t| == 2 && t[0] == '0' && IsNonZeroDigit(t[1]))
    || (|t| == 1 && IsNonZeroDigit(t[0]))
  }

  /** `%Y`: exactly four digits. */
  predicate YearField(t: string) {
    |t| == 4 && AllDigits(t)
  }

  /** `%H`: 2[0-3] | [01]\d | \d */
  predicate HourField(t: string) {
    || (|t| == 2 && t[0] == '2' && '0' <= t[1] <= '3')
    || (|t| == 2 && (t[0] == '0' || t[0] == '1') && IsDigit(t[1]))
    || (|t| == 1 && IsDigit(t[0]))
  }

  /** `%M`: [0-5]\d | \d */
  predicate MinuteField(t: string) {
    || (|t| == 2 && '0' <= t[0] <= '5' && IsDigit(t[1]))
    || (|t| == 1 && IsDigit(t[0]))
  }

  /** Text `int()` turns into a field value: one or two digits, or a
      space followed by a digit. */
  predicate NumericField(t: string) {
    || (1 <= |t| <= 2 && AllDigits(t))
    || (|t| == 2 && t[0] == ' ' && IsDigit(t[1]))
  }

  function FieldValue(t: string): (v: nat)
    requires NumericField(t)
    ensures v <= 99
  {
    if t[0] == ' ' then DigitValue(t[1])
    else if |t| == 1 then DigitValue(t[0])
    else 10 * DigitValue(t[0]) + DigitValue(t[1])
  }

  /** Length (1 or 2) of the field that `sep` ends at the front of `s`, or 0
      when neither the second nor the third character is `sep`. A field
      of every directive above is one or two characters long and never
      contains a separator, so this is the only way the text can split. */
  function FieldEnd(s: string, sep: char): (k: nat)
    ensures k <= 2
    ensures k > 0 ==> k < |s| && s[k] == sep
  {
    if |s| >= 2 && s[1] == sep then 1
    else if |s| >= 3 && s[2] == sep then 2
    else 0
  }

  /** `strptime(text, "%d-%m-%Y").date()`, with `None` for `ValueError`. */
  function ParseDate(s: string): (r: Option<Date>)
    ensures r.Some? ==> 8 <= |s| <= 10
  {
    var i := FieldEnd(s, '-');
    if i == 0 then None
    else
      var dd, rest := s[..i], s[i + 1..];
      var j := FieldEnd(rest, '-');
      if j == 0 then None
      else
        var mm, yyyy := rest[..j], rest[j + 1..];
        if DayField(dd) && MonthField(mm) && YearField(yyyy) then
          var d := CalendarDate(FieldValue(dd), FieldValue(mm), DigitsValue(yyyy));
          if IsValidDate(d) then Some(d) else None
        else None
  }

  /** `strptime(text, "%H:%M").time()`, with `None` for `ValueError`. */
  function ParseTime(s: string): (r: Option<TimeOfDay>)
    ensures r.Some? ==> 3 <= |s| <= 5
  {
    var i := FieldEnd(s, ':');
    if i == 0 then None
    else
      var hh, mm := s[..i], s[i + 1..];
      if HourField(hh) && MinuteField(mm) then
        HourMinuteBounds(hh, mm);
        Some(60 * FieldValue(hh) + FieldValue(mm))
      else None
  }

  lemma HourMinuteBounds(hh: string, mm: string)
    requires HourField(hh) && MinuteField(mm)
    ensures FieldValue(hh) <= 23 && FieldValue(mm) <= 59
  {
  }

  /** The zero-padded `DD-MM-YYYY` form `strftime("%d-%m-%Y")` writes. */
  predicate IsCanonicalDateText(s: string) {
    && |s| == 10 && s[2] == '-' && s[5] == '-'
    && forall i :: 0 <= i < 10 && i != 2 && i != 5 ==> IsDigit(s[i])
  }

  /** The zero-padded `HH:MM` form `strftime("%H:%M")` writes. */
  predicate IsCanonicalTimeText(s: string) {
    && |s| == 5 && s[2] == ':'
    && forall i :: 0 <= i < 5 && i != 2 ==> IsDigit(s[i])
  }

  function FormatDate(d: Date): (s: string)
    ensures IsCanonicalDateText(s)
  {
    PadDigitsValue(d.day, 2);
    PadDigitsValue(d.month, 2);
    PadDigitsValue(d.year, 4);
    DateTextOfParts(PadDigits(d.day, 2), PadDigits(d.month, 2), PadDigits(d.year, 4))
  }

  function FormatTime(t: TimeOfDay): (s: string)
    ensures IsCanonicalTimeText(s)
  {
    PadDigitsValue(t / 60, 2);
    PadDigitsValue(t % 60, 2);
    TimeTextOfParts(PadDigits(t / 60, 2), PadDigits(t % 60, 2))
  }

  function DateTextOfParts(dd: string, mm: string, yyyy: string): (s: string)
    requires |dd| == 2 && |mm| == 2 && |yyyy| == 4
    requires AllDigits(dd) && AllDigits(mm) && AllDigits(yyyy)
    ensures IsCanonicalDateText(s)
    ensures s[..2] == dd && s[3..5] == mm && s[6..] == yyyy
  {
    dd + "-" + mm + "-" + yyyy
  }

  function TimeTextOfParts(hh: string, mm: string): (s: string)
    requires |hh| == 2 && |mm| == 2 && AllDigits(hh) && AllDigits(mm)
    ensures IsCanonicalTimeText(s)
    ensures s[..2] == hh && s[3..] == mm
  {
    hh + ":" + mm
  }

  /** For two digits, each directive's alternatives amount to a numeric range. */
  lemma TwoDigitFields(t: string)
    requires |t| == 2 && AllDigits(t)
    ensures NumericField(t) && FieldValue(t) == DigitsValue(t)
    ensures DayField(t) <==> 1 <= FieldValue(t) <= 31
    ensures MonthField(t) <==> 1 <= FieldValue(t) <= 12
    ensures HourField(t) <==> FieldValue(t) <= 23
    ensures MinuteField(t) <==> FieldValue(t) <= 59
  {
    assert t[..1][..0] == [];
    assert DigitsValue(t[..1]) == DigitValue(t[0]);
    assert DigitsValue(t) == 10 * DigitValue(t[0]) + DigitValue(t[1]);
  }

  /** Writing a date and reading it back gives the same date. */
  lemma ParseFormatDate(d: Date)
    ensures ParseDate(FormatDate(d)) == Some(d)
  {
    var s := FormatDate(d);
    var dd, mm, yyyy := PadDigits(d.day, 2), PadDigits(d.month, 2), PadDigits(d.year, 4);
    PadDigitsValue(d.day, 2);
    PadDigitsValue(d.month, 2);
    PadDigitsValue(d.year, 4);
    TwoDigitFields(dd);
    TwoDigitFields(mm);
    assert s[..2] == dd && s[3..][..2] == mm && s[3..][3..] == yyyy;
  }

  /** Writing a time and reading it back gives the same time. */
  lemma ParseFormatTime(t: TimeOfDay)
    ensures ParseTime(FormatTime(t)) == Some(t)
  {
    var s := FormatTime(t);
    var hh, mm := PadDigits(t / 60, 2), PadDigits(t % 60, 2);
    PadDigitsValue(t / 60, 2);
    PadDigitsValue(t % 60, 2);
    TwoDigitFields(hh);
    TwoDigitFields(mm);
    assert s[..2] == hh && s[3..] == mm;
  }

  /** Text that parses as a date is written back unchanged exactly when it
      is already in the zero-padded form. */
  lemma FormatParseDate(s: string)
    requires ParseDate(s).Some?
    ensures FormatDate(ParseDate(s).value) == s <==> IsCanonicalDateText(s)
  {
    if IsCanonicalDateText(s) {
      var d := ParseDate(s).value;
      var dd, mm, yyyy := s[..2], s[3..5], s[6..];
      assert s[3..][..2] == mm && s[3..][3..] == yyyy;
      TwoDigitFields(dd);
      TwoDigitFields(mm);
      PadDigitsOfDigits(dd);
      PadDigitsOfDigits(mm);
      PadDigitsOfDigits(yyyy);
      assert s == dd + "-" + mm + "-" + yyyy;
    }
  }

  /** Text that parses as a time is written back unchanged exactly when it
      is already in the zero-padded form. */
  lemma FormatParseTime(s: string)
    requires ParseTime(s).Some?
    ensures FormatTime(ParseTime(s).value) == s <==> IsCanonicalTimeText(s)
  {
    if IsCanonicalTimeText(s) {
      var t := ParseTime(s).value;
      var hh, mm := s[..2], s[3..];
      TwoDigitFields(hh);
      TwoDigitFields(mm);
      assert t / 60 == FieldValue(hh) && t % 60 == FieldValue(mm);
      PadDigitsOfDigits(hh);
      PadDigitsOfDigits(mm);
      assert s == hh + ":" + mm;
    }
  }

  /** Every `dd-mm-yyyy` text whose first two fields are one or two
      characters without a separator is read field by field: it is a date
      exactly when each field matches its directive and the day exists. */
  lemma ParseDateFields(dd: string, mm: string, yyyy: string)
    requires 1 <= |dd| <= 2 && '-' !in dd
    requires 1 <= |mm| <= 2 && '-' !in mm
    ensures ParseDate(dd + "-" + mm + "-" + yyyy).Some? <==>
      DayField(dd) && MonthField(mm) && YearField(yyyy)
      && IsValidDate(CalendarDate(FieldValue(dd), FieldValue(mm), DigitsValue(yyyy)))
    ensures ParseDate(dd + "-" + mm + "-" + yyyy).Some? ==>
      ParseDate(dd + "-" + mm + "-" + yyyy).value
        == CalendarDate(FieldValue(dd), FieldValue(mm), DigitsValue(yyyy))
  {
    var s := dd + "-" + mm + "-" + yyyy;
    var rest := mm + "-" + yyyy;
    if |dd| == 2 { assert dd[1] in dd; }
    if |mm| == 2 { assert mm[1] in mm; }
    assert FieldEnd(s, '-') == |dd|;
    assert s[..|dd|] == dd && s[|dd| + 1..] == rest;
    assert FieldEnd(rest, '-') == |mm|;
    assert rest[..|mm|] == mm && rest[|mm| + 1..] == yyyy;
  }

  /** Every `hh:mm` text whose hour is one or two characters without a
      separator is a time exactly when both fields match their directives. */
  lemma ParseTimeFields(hh: string, mm: string)
    requires 1 <= |hh| <= 2 && ':' !in hh
    ensures ParseTime(hh + ":" + mm).Some? <==> HourField(hh) && MinuteField(mm)
    ensures ParseTime(hh + ":" + mm).Some? ==>
      ParseTime(hh + ":" + mm).value == 60 * FieldValue(hh) + FieldValue(mm)
  {
    var s := hh + ":" + mm;
    if |hh| == 2 { assert hh[1] in hh; }
    assert FieldEnd(s, ':') == |hh|;
    assert s[..|hh|] == hh && s[|hh| + 1..] == mm;
  }

  /** Every text read as a date is `dd-mm-yyyy` with each field matching
      its directive, and the date is made of the fields' values. */
  lemma ParseDateSound(s: string)
    requires ParseDate(s).Some?
    ensures exists dd, mm, yyyy ::
              && s == dd + "-" + mm + "-" + yyyy
              && DayField(dd) && MonthField(mm) && YearField(yyyy)
              && ParseDate(s).value
                 == CalendarDate(FieldValue(dd), FieldValue(mm), DigitsValue(yyyy))
  {
    var i := FieldEnd(s, '-');
    var dd, rest := s[..i], s[i + 1..];
    var j := FieldEnd(rest, '-');
    var mm, yyyy := rest[..j], rest[j + 1..];
    assert s == dd + "-" + mm + "-" + yyyy;
  }

  /** Every text read as a time is `hh:mm` with each field matching its
      directive, and the time is made of the fields' values. */
  lemma ParseTimeSound(s: string)
    requires ParseTime(s).Some?
    ensures exists hh, mm ::
              && s == hh + ":" + mm && HourField(hh) && MinuteField(mm)
              && ParseTime(s).value == 60 * FieldValue(hh) + FieldValue(mm)
  {
    var i := FieldEnd(s, ':');
    var hh, mm := s[..i], s[i + 1..];
    assert s == hh + ":" + mm;
  }
}
