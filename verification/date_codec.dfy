/**
  The date helpers of src/utils.ts: `formatDate` renders a time value as
  the fixed UTC text `YYYY-MM-DDTHH:MM:SSZ` (an RFC 3339 section 5.6 date-time
  without fractional seconds), and `parseDateString` reads such a text back.
 */
module DateCodec {
  import opened Optional
  import opened JsText
  import opened Calendar

  /**
    The `timestamp` argument of formatDate: `undefined`, `NaN`, an infinity,
    or a whole number of milliseconds since the epoch.
   */
  datatype Timestamp = Absent | NotANumber | Infinite(negative: bool) | Ms(ms: int)

  /** `!!timestamp || timestamp === 0`: the argument is used instead of the clock. */
  predicate Supplied(ts: Timestamp) {
    ts.Infinite? || (ts.Ms? && ts.ms != 0) || ts == Ms(0)
  }

  /**
    The time value of `new Date(x)` after TimeClip (ECMA-262 section
    21.4.1.31), where x is the argument when supplied and otherwise `now`,
    the value of `Date.now()`. None is an Invalid Date.
   */
  function DateValue(ts: Timestamp, now: int): (v: Option<int>)
    ensures v.Some? ==> -MaxTimeValue <= v.value <= MaxTimeValue
    ensures ts.Ms? && -MaxTimeValue <= ts.ms <= MaxTimeValue ==> v == Some(ts.ms)
    ensures ts.Infinite? ==> v == None
    ensures ts.Ms? && !(-MaxTimeValue <= ts.ms <= MaxTimeValue) ==> v == None
    ensures (ts == Absent || ts == NotANumber) && -MaxTimeValue <= now <= MaxTimeValue ==> v == Some(now)
    ensures (ts == Absent || ts == NotANumber) && !(-MaxTimeValue <= now <= MaxTimeValue) ==> v == None
  {
    var x := if Supplied(ts) then ts else Ms(now);
    if x.Ms? && -MaxTimeValue <= x.ms <= MaxTimeValue then Some(x.ms) else None
  }

  /** The template literal of formatDate, given the text of each field. */
  function Layout(year: string, month: string, day: string, hour: string, minute: string, second: string): string {
    year + "-" + month + "-" + day + "T" + hour + ":" + minute + ":" + second + "Z"
  }

  /** What every getter of an Invalid Date renders as, padded or not. */
  const NaNText: string := "NaN"

  /** The fields of a valid Date rendered into the layout; all but the year padded to two digits. */
  function RenderFields(f: Fields): string
    requires 0 <= f.month && 0 <= f.day && 0 <= f.hour && 0 <= f.minute && 0 <= f.second
  {
    Layout(IntToString(f.year), Pad2(f.month), Pad2(f.day), Pad2(f.hour), Pad2(f.minute), Pad2(f.second))
  }

  /** formatDate(timestamp) with `Date.now()` supplied as `now`. */
  function FormatDate(ts: Timestamp, now: int): string {
    match DateValue(ts, now)
    case None =>
      var pad := PadStart(NaNText, 2, '0');
      Layout(NaNText, pad, pad, pad, pad, pad)
    case Some(t) => RenderFields(UtcFields(t))
  }

  // ---------------------------------------------------------------------
  // Reading the layout back

  function DigitValue(c: char): int {
    c as int - '0' as int
  }

  /** The number shown by the two characters at positions i and i + 1. */
  function Number2(x: string, i: nat): int
    requires i + 2 <= |x|
  {
    DigitValue(x[i]) * 10 + DigitValue(x[i + 1])
  }

  /** The number shown by the four characters starting at position i. */
  function Number4(x: string, i: nat): int
    requires i + 4 <= |x|
  {
    Number2(x, i) * 100 + Number2(x, i + 2)
  }

  /** Decimal digits at positions i and i + 1. */
  predicate TwoDigitsAt(x: string, i: nat) {
    i + 2 <= |x| && IsDigit(x[i]) && IsDigit(x[i + 1])
  }

  /** The pattern `\d{4}-\d{2}-\d{2}T\d{2}:\d{2}:\d{2}Z`. */
  predicate StampShape(s: string) {
    && |s| == 20
    && TwoDigitsAt(s, 0) && TwoDigitsAt(s, 2) && s[4] == '-' && TwoDigitsAt(s, 5) && s[7] == '-'
    && TwoDigitsAt(s, 8) && s[10] == 'T' && TwoDigitsAt(s, 11) && s[13] == ':'
    && TwoDigitsAt(s, 14) && s[16] == ':' && TwoDigitsAt(s, 17) && s[19] == 'Z'
  }

  /** The text `YYYY-MM-DD HH:MM:SS UTC` that parseDateString hands to the Date constructor. */
  predicate UtcTextShape(x: string) {
    && |x| == 23
    && TwoDigitsAt(x, 0) && TwoDigitsAt(x, 2) && x[4] == '-' && TwoDigitsAt(x, 5) && x[7] == '-'
    && TwoDigitsAt(x, 8) && x[10] == ' ' && TwoDigitsAt(x, 11) && x[13] == ':'
    && TwoDigitsAt(x, 14) && x[16] == ':' && TwoDigitsAt(x, 17) && x[19..] == " UTC"
  }

  /** The numbers written in the field positions shared by both shapes. */
  function FieldsAt(x: string): Fields
    requires |x| >= 19
  {
    Fields(Number4(x, 0), Number2(x, 5), Number2(x, 8), Number2(x, 11), Number2(x, 14), Number2(x, 17))
  }

  /**
    `s.replace("T", " ").replace("Z", "") + " UTC"`: the first `T` becomes
    a space, the first `Z` is dropped, and the zone name is appended.
   */
  function NormalizedText(s: string): (x: string)
    ensures |x| == |s| + 4 - (if 'Z' in s then 1 else 0)
    ensures |s| > 0 && s[0] != 'T' && s[0] != 'Z' ==> x[0] == s[0]
    ensures x[|x| - 4..] == " UTC"
    ensures 'T' !in s && 'Z' !in s ==> x == s + " UTC"
  {
    var spaced := ReplaceFirst(s, 'T', " ");
    ReplaceFirstKeeps(s, 'T', " ", 'Z');
    ReplaceFirstHead(s, 'T', " ");
    ReplaceFirstHead(spaced, 'Z', "");
    ReplaceFirst(spaced, 'Z', "") + " UTC"
  }

  /**
    Reading the UTC text. JavaScript leaves non-ISO date texts to the
    engine; this reads the one layout parseDateString produces: four-digit
    year, month 1..12, day 1..31, hour 0..23, minute and second 0..59. The
    day is not checked against the month: MakeDay (ECMA-262 section
    21.4.1.28) carries an overflowing day into the next month.
   */
  function ReadUtcText(x: string): (v: Option<int>)
    ensures v.Some? ==> UtcTextShape(x)
  {
    if !UtcTextShape(x) then None
    else
      var f := FieldsAt(x);
      if 1 <= f.month <= 12 && 1 <= f.day <= 31 && f.hour < 24 && f.minute < 60 && f.second < 60
      then Some(TimeFromFields(f))
      else None
  }

  /** A day past the end of its month is not refused: 2023-02-31 reads as 2023-03-03. */
  lemma ReadUtcTextCarriesDay()
    ensures var v := ReadUtcText("2023-02-31 00:00:00 UTC");
      v.Some? && v == ReadUtcText("2023-03-03 00:00:00 UTC")
  {
    var x, y := "2023-02-31 00:00:00 UTC", "2023-03-03 00:00:00 UTC";
    assert UtcTextShape(x) && UtcTextShape(y);
    assert FieldsAt(x) == Fields(2023, 2, 31, 0, 0, 0);
    assert FieldsAt(y) == Fields(2023, 3, 3, 0, 0, 0);
    assert DaysBeforeMonth(1, IsLeapYear(2023)) + 30 == DaysBeforeMonth(2, IsLeapYear(2023)) + 2;
  }

  /** parseDateString(s): the time value of the Date it builds; None is an Invalid Date. */
  function ParseDateString(s: string): Option<int> {
    ReadUtcText(NormalizedText(s))
  }

  // ---------------------------------------------------------------------
  // Properties of formatDate

  /** Where each field sits in the layout, for fields of two characters below the year. */
  lemma LayoutPositions(y: string, mo: string, d: string, h: string, mi: string, se: string)
    requires |mo| == 2 && |d| == 2 && |h| == 2 && |mi| == 2 && |se| == 2
    ensures var r := Layout(y, mo, d, h, mi, se); var n := |y|;
      && |r| == n + 16
      && r[..n] == y && r[n] == '-' && r[n + 1] == mo[0] && r[n + 2] == mo[1] && r[n + 3] == '-'
      && r[n + 4] == d[0] && r[n + 5] == d[1] && r[n + 6] == 'T'
      && r[n + 7] == h[0] && r[n + 8] == h[1] && r[n + 9] == ':'
      && r[n + 10] == mi[0] && r[n + 11] == mi[1] && r[n + 12] == ':'
      && r[n + 13] == se[0] && r[n + 14] == se[1] && r[n + 15] == 'Z'
  {
    var r := Layout(y, mo, d, h, mi, se);
    assert r == y + ("-" + mo + "-" + d + "T" + h + ":" + mi + ":" + se + "Z");
  }

  /** Two digits showing the number n, at positions i and i + 1. */
  predicate ShowsTwoDigits(r: string, i: nat, n: int) {
    TwoDigitsAt(r, i) && Number2(r, i) == n
  }

  /** A number below 100, padded, shows itself in two digits. */
  lemma Pad2Shows(n: nat)
    requires n < 100
    ensures |Pad2(n)| == 2 && ShowsTwoDigits(Pad2(n), 0, n)
  {
    Pad2Chars(n);
    assert n / 10 * 10 + n % 10 == n;
  }

  /** Two characters copied from a text showing n show n where they land. */
  lemma ShowsCopied(r: string, i: nat, p: string, n: int)
    requires |p| == 2 && ShowsTwoDigits(p, 0, n)
    requires i + 2 <= |r| && r[i] == p[0] && r[i + 1] == p[1]
    ensures ShowsTwoDigits(r, i, n)
  {
  }

  /**
    r shows the fields f in the layout: the year's own text, then month,
    day, hour, minute and second as two digits each, separated by `-`,
    `-`, `T`, `:`, `:` and closed by `Z`.
   */
  predicate ShowsFields(r: string, f: Fields) {
    var n := |IntToString(f.year)|;
    && |r| == n + 16
    && r[..n] == IntToString(f.year)
    && r[n] == '-' && r[n + 3] == '-' && r[n + 6] == 'T' && r[n + 9] == ':' && r[n + 12] == ':' && r[n + 15] == 'Z'
    && ShowsTwoDigits(r, n + 1, f.month) && ShowsTwoDigits(r, n + 4, f.day)
    && ShowsTwoDigits(r, n + 7, f.hour) && ShowsTwoDigits(r, n + 10, f.minute)
    && ShowsTwoDigits(r, n + 13, f.second)
  }

  /** Each field below the year is rendered as exactly two digits that denote it. */
  lemma RenderFieldsPositions(f: Fields)
    requires 0 <= f.month < 100 && 0 <= f.day < 100 && 0 <= f.hour < 100
    requires 0 <= f.minute < 100 && 0 <= f.second < 100
    ensures ShowsFields(RenderFields(f), f)
  {
    Pad2Shows(f.month);
    Pad2Shows(f.day);
    Pad2Shows(f.hour);
    Pad2Shows(f.minute);
    Pad2Shows(f.second);
    LayoutShows(IntToString(f.year), Pad2(f.month), Pad2(f.day), Pad2(f.hour), Pad2(f.minute), Pad2(f.second), f);
  }

  /** The layout of the year's text and of two-digit texts of the other fields shows the fields. */
  lemma LayoutShows(y: string, mo: string, d: string, h: string, mi: string, se: string, f: Fields)
    requires y == IntToString(f.year)
    requires |mo| == 2 && ShowsTwoDigits(mo, 0, f.month) && |d| == 2 && ShowsTwoDigits(d, 0, f.day)
    requires |h| == 2 && ShowsTwoDigits(h, 0, f.hour) && |mi| == 2 && ShowsTwoDigits(mi, 0, f.minute)
    requires |se| == 2 && ShowsTwoDigits(se, 0, f.second)
    ensures ShowsFields(Layout(y, mo, d, h, mi, se), f)
  {
    LayoutPositions(y, mo, d, h, mi, se);
    var r := Layout(y, mo, d, h, mi, se);
    var n := |y|;
    ShowsCopied(r, n + 1, mo, f.month);
    ShowsCopied(r, n + 4, d, f.day);
    ShowsCopied(r, n + 7, h, f.hour);
    ShowsCopied(r, n + 10, mi, f.minute);
    ShowsCopied(r, n + 13, se, f.second);
  }

  /**
    For a valid time value, the output shows the UTC fields of the time
    value: fields in range for their calendar month that reassemble to the
    time value rounded down to the second.
   */
  lemma FormatDateFields(t: int, now: int)
    requires -MaxTimeValue <= t <= MaxTimeValue
    ensures ShowsFields(FormatDate(Ms(t), now), UtcFields(t))
    ensures ValidFields(UtcFields(t)) && TimeFromFields(UtcFields(t)) == t - t % MsPerSecond
  {
    var f := UtcFields(t);
    FormatValidDate(t, now);
    RenderFieldsPositions(f);
  }

  /** A timestamp of exactly 0 is the epoch, not a missing argument. */
  lemma FormatDateEpoch(now: int)
    ensures FormatDate(Ms(0), now) == "1970-01-01T00:00:00Z"
  {
    FormatValidDate(0, now);
    UtcFieldsEpoch();
    RenderEpochFields();
  }

  /** A valid time value is rendered from its UTC fields. */
  lemma FormatValidDate(t: int, now: int)
    requires -MaxTimeValue <= t <= MaxTimeValue
    ensures FormatDate(Ms(t), now) == RenderFields(UtcFields(t))
  {
    assert DateValue(Ms(t), now) == Some(t);
  }

  lemma UtcFieldsEpoch()
    ensures UtcFields(0) == Fields(1970, 1, 1, 0, 0, 0)
  {
    var f := Fields(1970, 1, 1, 0, 0, 0);
    assert DayFromYear(1970) == 0;
    assert DaysBeforeMonth(0, IsLeapYear(1970)) == 0;
    assert MakeDay(1970, 1, 1) == 0;
    assert TimeFromFields(f) == 0;
    assert DaysInMonth(1970, 1) == 31;
    UtcFieldsOfTime(f);
  }

  lemma RenderEpochFields()
    ensures RenderFields(Fields(1970, 1, 1, 0, 0, 0)) == "1970-01-01T00:00:00Z"
  {
    EpochYearText();
    EpochPads();
  }

  lemma EpochYearText()
    ensures IntToString(1970) == "1970"
  {
    FourDigitText(1970);
    assert DigitChar(0) == '0' && DigitChar(1) == '1' && DigitChar(7) == '7' && DigitChar(9) == '9';
  }

  lemma EpochPads()
    ensures Pad2(1) == "01" && Pad2(0) == "00"
  {
    Pad2Chars(1);
    Pad2Chars(0);
  }

  /** An absent or NaN timestamp means the current time. */
  lemma FormatDateDefaultsToNow(now: int, other: int)
    ensures FormatDate(Absent, now) == FormatDate(Ms(now), other)
    ensures FormatDate(NotANumber, now) == FormatDate(Ms(now), other)
  {
    assert DateValue(Absent, now) == DateValue(Ms(now), other);
    assert DateValue(NotANumber, now) == DateValue(Ms(now), other);
  }

  /** A time value outside the Date range, or an infinity, renders every field as NaN. */
  lemma FormatDateInvalid(ts: Timestamp, now: int)
    requires || ts.Infinite?
             || (ts.Ms? && !(-MaxTimeValue <= ts.ms <= MaxTimeValue))
             || ((ts == Absent || ts == NotANumber) && !(-MaxTimeValue <= now <= MaxTimeValue))
    ensures FormatDate(ts, now) == "NaN-NaN-NaNTNaN:NaN:NaNZ"
  {
  }

  /**
    Milliseconds are discarded: for a valid time value the text depends
    only on the whole seconds (rounded down).
   */
  lemma FormatDateIgnoresMilliseconds(t: int, now: int)
    requires -MaxTimeValue <= t <= MaxTimeValue
    ensures FormatDate(Ms(t), now) == FormatDate(Ms(t - t % MsPerSecond), now)
  {
    var u := t - t % MsPerSecond;
    assert -MaxTimeValue <= u <= MaxTimeValue;
    assert DateValue(Ms(t), now) == Some(t);
    assert DateValue(Ms(u), now) == Some(u);
    UtcFieldsIgnoreMilliseconds(t);
  }

  /** A four-digit year renders as four digits; any other year does not. */
  lemma YearTextFourDigits(y: int)
    ensures |IntToString(y)| == 4 && IsDigit(IntToString(y)[0]) <==> 1000 <= y <= 9999
    ensures |IntToString(y)| == 4 <==> (1000 <= y <= 9999 || -999 <= y <= -100)
  {
    if y >= 0 {
      NatToStringFourDigits(y);
    } else {
      NatToStringLength(-y, 3);
      NatToStringLength(-y, 2);
      assert Pow10(2) == 100 && Pow10(3) == 1000;
    }
  }

  /** The output matches `\d{4}-\d{2}-\d{2}T\d{2}:\d{2}:\d{2}Z` exactly when the year has four digits. */
  lemma FormatDateShape(t: int, now: int)
    requires -MaxTimeValue <= t <= MaxTimeValue
    ensures StampShape(FormatDate(Ms(t), now)) <==> 1000 <= UtcFields(t).year <= 9999
  {
    FormatValidDate(t, now);
    RenderFieldsShape(UtcFields(t));
  }

  lemma RenderFieldsShape(f: Fields)
    requires ValidFields(f)
    ensures StampShape(RenderFields(f)) <==> 1000 <= f.year <= 9999
  {
    if 1000 <= f.year <= 9999 {
      RenderFieldsStamp(f);
    } else {
      RenderFieldsPositions(f);
      YearTextFourDigits(f.year);
      var r := RenderFields(f);
      if |r| == 20 {
        assert r[0] == r[..4][0];
      }
    }
  }

  /**
    The output is 20 characters long exactly when the year's text has four
    characters: years 1000..9999, and also -999..-100, whose sign takes the
    place of a digit.
   */
  lemma FormatDateLength(t: int, now: int)
    requires -MaxTimeValue <= t <= MaxTimeValue
    ensures var y := UtcFields(t).year;
      |FormatDate(Ms(t), now)| == 20 <==> (1000 <= y <= 9999 || -999 <= y <= -100)
  {
    FormatDateFields(t, now);
    YearTextFourDigits(UtcFields(t).year);
  }

  // ---------------------------------------------------------------------
  // Round trips

  /** A stamp has neither `T` nor `Z` among its first ten characters (the date). */
  lemma StampDateLetters(s: string)
    requires StampShape(s)
    ensures 'T' !in s[..10] && 'Z' !in s[..10]
  {
    forall j | 0 <= j < 10
      ensures s[..10][j] != 'T' && s[..10][j] != 'Z'
    {
      assert s[..10][j] == s[j];
    }
  }

  /** A stamp in the fixed layout turns into the UTC text at fixed positions. */
  lemma NormalizeStamp(s: string)
    requires StampShape(s)
    ensures NormalizedText(s) == s[..10] + " " + s[11..19] + " UTC"
  {
    StampDateLetters(s);
    ReplaceFirstAt(s, 'T', " ", 10);
    var spaced := s[..10] + " " + s[11..];
    assert 'Z' !in spaced[..19] by {
      forall j | 0 <= j < 19
        ensures spaced[..19][j] != 'Z'
      {
        assert spaced[..19][j] == spaced[j];
        if j < 10 {
          assert spaced[j] == s[..10][j];
        } else if j > 10 {
          assert spaced[j] == s[j];
        }
      }
    }
    ReplaceFirstAt(spaced, 'Z', "", 19);
    assert spaced[..19] + "" + spaced[20..] == s[..10] + " " + s[11..19];
  }

  /** The numbers a stamp shows are the ones its normalized text shows. */
  lemma NormalizeStampFields(s: string)
    requires StampShape(s)
    ensures UtcTextShape(NormalizedText(s))
    ensures FieldsAt(NormalizedText(s)) == FieldsAt(s)
  {
    NormalizeStamp(s);
    UtcTextOfStamp(s, NormalizedText(s));
  }

  /** Replacing the `T` of a stamp by a space and its `Z` by ` UTC` keeps every field in place. */
  lemma UtcTextOfStamp(s: string, x: string)
    requires StampShape(s) && x == s[..10] + " " + s[11..19] + " UTC"
    ensures UtcTextShape(x) && FieldsAt(x) == FieldsAt(s)
  {
    assert forall i :: 0 <= i < 10 ==> x[i] == s[i];
    assert forall i :: 11 <= i < 19 ==> x[i] == s[i];
    SameTwoDigits(x, s, 0);
    SameTwoDigits(x, s, 2);
    SameTwoDigits(x, s, 5);
    SameTwoDigits(x, s, 8);
    SameTwoDigits(x, s, 11);
    SameTwoDigits(x, s, 14);
    SameTwoDigits(x, s, 17);
    assert x[19..] == " UTC";
  }

  /** Texts that agree at positions i and i + 1 show the same two digits there. */
  lemma SameTwoDigits(x: string, s: string, i: nat)
    requires i + 2 <= |x| && i + 2 <= |s| && x[i] == s[i] && x[i + 1] == s[i + 1]
    ensures TwoDigitsAt(x, i) == TwoDigitsAt(s, i) && Number2(x, i) == Number2(s, i)
  {
  }

  /** Fields with a four-digit year render as a stamp that shows exactly those fields. */
  lemma RenderFieldsStamp(f: Fields)
    requires ValidFields(f) && 1000 <= f.year <= 9999
    ensures StampShape(RenderFields(f))
    ensures FieldsAt(RenderFields(f)) == f
  {
    RenderFieldsPositions(f);
    FourDigitText(f.year);
    var r := RenderFields(f);
    RenderedYear(r, f.year);
  }

  /** A text that starts with a four-digit year shows that year in its first four positions. */
  lemma RenderedYear(r: string, y: int)
    requires 1000 <= y <= 9999
    requires |r| >= 4 && r[..4] == IntToString(y)
    ensures TwoDigitsAt(r, 0) && TwoDigitsAt(r, 2) && Number4(r, 0) == y
  {
    FourDigitText(y);
    assert r[0] == r[..4][0] && r[1] == r[..4][1] && r[2] == r[..4][2] && r[3] == r[..4][3];
    FourDigitsValue(y);
  }

  /** Fields whose year is not four digits render as text that does not parse. */
  lemma RenderFieldsUnreadable(f: Fields)
    requires ValidFields(f) && !(1000 <= f.year <= 9999)
    ensures ReadUtcText(NormalizedText(RenderFields(f))).None?
  {
    RenderFieldsPositions(f);
    ShownFieldsUnreadable(RenderFields(f), f);
  }

  lemma ShownFieldsUnreadable(r: string, f: Fields)
    requires ShowsFields(r, f) && !(1000 <= f.year <= 9999)
    ensures ReadUtcText(NormalizedText(r)).None?
  {
    YearTextFourDigits(f.year);
    var n := |IntToString(f.year)|;
    assert 'Z' in r by { assert r[n + 15] == 'Z'; }
    if n == 4 {
      assert r[0] == '-' by { assert r[0] == r[..n][0]; }
      NotDigitUnreadable(r);
    }
  }

  /** A text that starts with a minus sign is not read as a UTC text. */
  lemma NotDigitUnreadable(r: string)
    requires |r| > 0 && r[0] == '-'
    ensures ReadUtcText(NormalizedText(r)).None?
  {
    assert NormalizedText(r)[0] == '-';
  }

  /** A stamp showing valid fields parses to the time value of those fields. */
  lemma ParseStamp(s: string)
    requires StampShape(s) && ValidFields(FieldsAt(s))
    ensures ParseDateString(s) == Some(TimeFromFields(FieldsAt(s)))
  {
    var f := FieldsAt(s);
    NormalizeStampFields(s);
    assert ReadUtcText(NormalizedText(s)) == Some(TimeFromFields(f));
  }

  /**
    Parsing inverts formatting: a formatted valid time value with a
    four-digit year parses back to that time value rounded down to the
    second; any other year does not parse.
   */
  lemma ParseFormatRoundTrip(t: int, now: int)
    requires -MaxTimeValue <= t <= MaxTimeValue
    ensures ParseDateString(FormatDate(Ms(t), now)).Some? <==> 1000 <= UtcFields(t).year <= 9999
    ensures ParseDateString(FormatDate(Ms(t), now)).Some? ==> ParseDateString(FormatDate(Ms(t), now)).value == t - t % MsPerSecond
  {
    var f := UtcFields(t);
    FormatValidDate(t, now);
    if 1000 <= f.year <= 9999 {
      ParseRendered(f);
    } else {
      RenderFieldsUnreadable(f);
    }
  }

  /** Valid fields with a four-digit year are read back from their rendering. */
  lemma ParseRendered(f: Fields)
    requires ValidFields(f) && 1000 <= f.year <= 9999
    ensures ParseDateString(RenderFields(f)) == Some(TimeFromFields(f))
  {
    RenderFieldsStamp(f);
    ParseStamp(RenderFields(f));
  }

  /** A stamp whose fields name a real date and time, with no leading zero in the year. */
  predicate CanonicalStamp(s: string) {
    && StampShape(s)
    && s[0] != '0'
    && ValidFields(FieldsAt(s))
  }

  /** A canonical stamp is the rendering of the fields it shows. */
  lemma RenderFieldsOfStamp(s: string)
    requires CanonicalStamp(s)
    ensures 1000 <= FieldsAt(s).year <= 9999
    ensures RenderFields(FieldsAt(s)) == s
  {
    var f := FieldsAt(s);
    assert 1 <= DigitValue(s[0]) <= 9;
    assert 1000 <= f.year <= 9999;
    RenderFieldsStamp(f);
    StampDetermined(RenderFields(f), s);
  }

  /** Two stamps that show the same fields are the same text. */
  lemma StampDetermined(r: string, s: string)
    requires StampShape(r) && StampShape(s) && FieldsAt(r) == FieldsAt(s)
    ensures r == s
  {
    FourDigitsDetermined(r, s, 0);
    TwoDigitsDetermined(r, s, 0);
    TwoDigitsDetermined(r, s, 2);
    TwoDigitsDetermined(r, s, 5);
    TwoDigitsDetermined(r, s, 8);
    TwoDigitsDetermined(r, s, 11);
    TwoDigitsDetermined(r, s, 14);
    TwoDigitsDetermined(r, s, 17);
    forall i | 0 <= i < 20
      ensures r[i] == s[i]
    {
    }
  }

  /** Two digit pairs that show the same number are the same characters. */
  lemma TwoDigitsDetermined(r: string, s: string, i: nat)
    requires TwoDigitsAt(r, i) && TwoDigitsAt(s, i) && Number2(r, i) == Number2(s, i)
    ensures r[i] == s[i] && r[i + 1] == s[i + 1]
  {
  }

  /** Four digits that show the same number show the same two pairs. */
  lemma FourDigitsDetermined(r: string, s: string, i: nat)
    requires TwoDigitsAt(r, i) && TwoDigitsAt(r, i + 2) && TwoDigitsAt(s, i) && TwoDigitsAt(s, i + 2)
    requires Number4(r, i) == Number4(s, i)
    ensures Number2(r, i) == Number2(s, i) && Number2(r, i + 2) == Number2(s, i + 2)
  {
  }

  /** Formatting inverts parsing on canonical stamps. */
  lemma FormatParseRoundTrip(s: string, now: int)
    requires CanonicalStamp(s)
    ensures ParseDateString(s).Some?
    ensures FormatDate(Ms(ParseDateString(s).value), now) == s
  {
    var f := FieldsAt(s);
    RenderFieldsOfStamp(s);
    ParseStamp(s);
    var t := TimeFromFields(f);
    FourDigitYearInRange(f);
    UtcFieldsOfTime(f);
    FormatValidDate(t, now);
  }

  /** Every date and time with a four-digit year is a valid time value. */
  lemma FourDigitYearInRange(f: Fields)
    requires ValidFields(f) && 1000 <= f.year <= 9999
    ensures -MaxTimeValue <= TimeFromFields(f) <= MaxTimeValue
  {
    DayFromYearMonotone(1000, f.year);
    DayFromYearMonotone(f.year, 10000);
    assert DayFromYear(1000) > -400000 && DayFromYear(10000) < 3000000;
  }
}
