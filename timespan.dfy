/** The `TimeSpan` of index.js: the record built from a parsed offset text (missing
    units read as 0, plus a `formatted` description), and `addTo`, which moves a date
    by the offset one unit at a time. `Date.prototype.addTimeSpan` parses a text and
    applies it. */
module TimeSpans {
  import opened JsValues
  import opened TimeSpanParser
  import Calendar

  /* ---------- Number to string ---------- */

  function DigitChar(d: nat): (c: char)
    requires d <= 9
    ensures IsDigit(c) && DigitValue(c) == d
  {
    ('0' as int + d) as char
  }

  /** The decimal numeral of a natural number, without leading zeros. */
  function NatToString(n: nat): (r: string)
    ensures |r| > 0 && forall k | 0 <= k < |r| :: IsDigit(r[k])
    ensures DigitsValue(r) == n
    ensures n > 0 ==> r[0] != '0'
    decreases n
  {
    if n < 10 then [DigitChar(n)]
    else
      var front := NatToString(n / 10);
      var r := front + [DigitChar(n % 10)];
      assert r[..|r| - 1] == front;
      r
  }

  /** ToString of an integer-valued Number: a minus sign for negatives, then the numeral. */
  function IntToString(n: int): (r: string)
    ensures |r| > 0 && !IsSpace(r[0]) && !IsSpace(r[|r| - 1])
    ensures (r[0] == '-') == (n < 0)
  {
    if n < 0 then "-" + NatToString(-n) else NatToString(n)
  }

  /** `parseInt` reads back what ToString wrote. */
  lemma IntToStringRoundTrip(n: int)
    ensures ParseInt(IntToString(n)) == Some(n)
  {
    if n < 0 {
      ParseIntOfSignedDigits("-", NatToString(-n));
    } else {
      ParseIntOfSignedDigits("", NatToString(n));
      assert "" + NatToString(n) == NatToString(n);
    }
  }

  /* ---------- String.prototype.trim ---------- */

  /** No white space at either end. */
  predicate Tight(s: string) {
    s == [] || (!IsSpace(s[0]) && !IsSpace(s[|s| - 1]))
  }

  function TrimStart(s: string): (r: string)
    ensures |r| <= |s| && r == s[|s| - |r|..]
    ensures r == [] || !IsSpace(r[0])
    ensures forall k | 0 <= k < |s| - |r| :: IsSpace(s[k])
  {
    if s != [] && IsSpace(s[0]) then TrimStart(s[1..]) else s
  }

  function TrimEnd(s: string): (r: string)
    ensures |r| <= |s| && r == s[..|r|]
    ensures r == [] || !IsSpace(r[|r| - 1])
    ensures forall k | |r| <= k < |s| :: IsSpace(s[k])
  {
    if s != [] && IsSpace(s[|s| - 1]) then TrimEnd(s[..|s| - 1]) else s
  }

  /** `trim()`: white space removed from both ends, and nothing else. */
  function Trim(s: string): (r: string)
    ensures Tight(r)
  {
    TrimEnd(TrimStart(s))
  }

  lemma TrimTight(s: string)
    requires Tight(s)
    ensures Trim(s) == s
  {
  }

  lemma TrimLeadingSpace(s: string)
    requires Tight(s)
    ensures Trim(" " + s) == s
  {
    assert (" " + s)[1..] == s;
  }

  /* ---------- formatTime and the reduce of lines 95-102 ---------- */

  function Abs(n: int): nat {
    if n < 0 then -n else n
  }

  /** `formatTime(quantity, unit)`: empty for a falsy quantity; otherwise a "+" only
      above 1, the number, the unit, and an "s" unless the magnitude is 1. */
  function FormatTime(quantity: Option<int>, unit: string): (r: string)
  {
    if NumberTruthy(quantity) then
      var q := quantity.value;
      (if q > 1 then "+" else "") + IntToString(q) + " " + unit + (if Abs(q) != 1 then "s" else "")
    else ""
  }

  /** The layout of one component: empty exactly when the quantity is missing or zero;
      a "+" sign exactly above 1 and a "-" sign exactly below 0, so 1 carries no sign;
      a plural "s" exactly when the magnitude is not 1; no white space at the ends. */
  lemma FormatTimeLayout(quantity: Option<int>, unit: string)
    requires unit != [] && !IsSpace(unit[|unit| - 1]) && unit[|unit| - 1] != 's'
    ensures (FormatTime(quantity, unit) == "") == !NumberTruthy(quantity)
    ensures FormatTime(quantity, unit) != "" ==>
              (FormatTime(quantity, unit)[0] == '+' <==> quantity.value > 1)
    ensures FormatTime(quantity, unit) != "" ==>
              (FormatTime(quantity, unit)[0] == '-' <==> quantity.value < 0)
    ensures FormatTime(quantity, unit) != "" ==>
              (FormatTime(quantity, unit)[|FormatTime(quantity, unit)| - 1] == 's' <==> Abs(quantity.value) != 1)
    ensures Tight(FormatTime(quantity, unit))
  {
    if NumberTruthy(quantity) {
      var q := quantity.value;
      var sign := if q > 1 then "+" else "";
      var number := IntToString(q);
      var plural := if Abs(q) != 1 then "s" else "";
      var r := sign + number + " " + unit + plural;
      assert r == FormatTime(quantity, unit);
      assert r[0] == if q > 1 then '+' else number[0];
      assert r[|r| - 1] == if Abs(q) != 1 then 's' else unit[|unit| - 1];
    }
  }

  /** The content of a non-empty component: `parseInt` reads back the quantity (the
      "+" of line 82 included), and the text ends in a space, the unit word and the
      plural "s" unless the magnitude is 1. */
  lemma FormatTimeContent(quantity: Option<int>, unit: string)
    ensures NumberTruthy(quantity) ==> ParseInt(FormatTime(quantity, unit)) == quantity
    ensures NumberTruthy(quantity) ==>
              var tail := " " + unit + (if Abs(quantity.value) != 1 then "s" else "");
              |tail| <= |FormatTime(quantity, unit)|
                && FormatTime(quantity, unit)[|FormatTime(quantity, unit)| - |tail|..] == tail
  {
    if NumberTruthy(quantity) {
      var q := quantity.value;
      var tail := " " + unit + (if Abs(q) != 1 then "s" else "");
      var digits := NatToString(Abs(q));
      var sign := if q > 1 then "+" else if q < 0 then "-" else "";
      FormatTimeParts(q, unit, sign, digits, tail);
      NumeralThen(sign, digits, tail);
    }
  }

  /** A non-empty component is its sign, the digits of its magnitude and its tail. */
  lemma FormatTimeParts(q: int, unit: string, sign: string, digits: string, tail: string)
    requires q != 0
    requires tail == " " + unit + (if Abs(q) != 1 then "s" else "")
    requires digits == NatToString(Abs(q))
    requires sign == if q > 1 then "+" else if q < 0 then "-" else ""
    ensures FormatTime(Some(q), unit) == sign + digits + tail
  {
    var lead := if q > 1 then "+" else "";
    var plural := if Abs(q) != 1 then "s" else "";
    var number := IntToString(q);
    assert FormatTime(Some(q), unit) == lead + number + " " + unit + plural;
    ConcatRegroup(lead + number, " ", unit, plural);
    assert lead + number == sign + digits by {
      if q < 0 {
        assert number == "-" + digits;
      } else {
        assert number == digits;
      }
    }
  }

  lemma ConcatRegroup(a: string, b: string, c: string, d: string)
    ensures a + b + c + d == a + (b + c + d)
  {
  }

  /** A signed numeral followed by a text that does not start with a digit: `parseInt`
      reads the number, and the text ends with that tail. */
  lemma NumeralThen(sign: string, digits: string, tail: string)
    requires sign == "" || sign == "+" || sign == "-"
    requires |digits| > 0 && forall k | 0 <= k < |digits| :: IsDigit(digits[k])
    requires tail == [] || !IsDigit(tail[0])
    ensures ParseInt(sign + digits + tail) == Some(Signed(sign == "-", DigitsValue(digits)))
    ensures (sign + digits + tail)[|sign + digits + tail| - |tail|..] == tail
  {
    ParseIntIgnoresRest(sign, digits, tail);
    var r := sign + digits + tail;
    assert r[|r| - |tail|..] == tail;
  }

  /** One step of the reduce: the next component, preceded by a space when it is not
      empty, appended and the result trimmed. */
  function ReduceStep(previous: string, current: string): string {
    Trim(previous + (if current == "" then "" else " " + current))
  }

  /** `parts.reduce(ReduceStep)` without an initial value: it starts from the first part. */
  function Reduce(parts: seq<string>): string
    requires |parts| > 0
  {
    if |parts| == 1 then parts[0] else ReduceStep(Reduce(parts[..|parts| - 1]), parts[|parts| - 1])
  }

  /** The non-empty parts, in order. */
  function NonEmpty(parts: seq<string>): (r: seq<string>)
    ensures |r| <= |parts|
    ensures forall k | 0 <= k < |r| :: r[k] != ""
  {
    if parts == [] then []
    else NonEmpty(parts[..|parts| - 1]) + (if parts[|parts| - 1] == "" then [] else [parts[|parts| - 1]])
  }

  /** `parts.join(" ")`. */
  function Join(parts: seq<string>): string {
    if parts == [] then ""
    else if |parts| == 1 then parts[0]
    else Join(parts[..|parts| - 1]) + " " + parts[|parts| - 1]
  }

  lemma {:induction false} JoinTight(parts: seq<string>)
    requires forall k | 0 <= k < |parts| :: parts[k] != "" && Tight(parts[k])
    ensures Tight(Join(parts))
    ensures Join(parts) == "" <==> parts == []
    decreases |parts|
  {
    if |parts| > 1 {
      JoinTight(parts[..|parts| - 1]);
    }
  }

  /** Trimming after every step leaves single spaces between the non-empty components
      and none around them, whatever components are empty. */
  lemma {:induction false} ReduceJoinsNonEmpty(parts: seq<string>)
    requires |parts| > 0
    requires forall k | 0 <= k < |parts| :: Tight(parts[k])
    ensures Reduce(parts) == Join(NonEmpty(parts))
    decreases |parts|
  {
    var n := |parts|;
    if n == 1 {
      assert parts[..0] == [];
      assert NonEmpty(parts) == NonEmpty(parts[..0]) + (if parts[0] == "" then [] else [parts[0]]);
    } else {
      var front := parts[..n - 1];
      ReduceJoinsNonEmpty(front);
      NonEmptyTight(front);
      ReduceStepJoins(NonEmpty(front), parts[n - 1]);
    }
  }

  /** One reduce step on an already joined prefix joins one more component. */
  lemma ReduceStepJoins(kept: seq<string>, last: string)
    requires forall k | 0 <= k < |kept| :: kept[k] != "" && Tight(kept[k])
    requires Tight(last)
    ensures ReduceStep(Join(kept), last) == Join(kept + (if last == "" then [] else [last]))
  {
    var previous := Join(kept);
    JoinTight(kept);
    if last == "" {
      assert kept + [] == kept;
      StepOverEmpty(previous);
    } else if kept == [] {
      assert kept + [last] == [last];
      StepFromEmpty(last);
    } else {
      var joined := kept + [last];
      assert joined[..|joined| - 1] == kept;
      assert Join(joined) == previous + " " + last;
      StepOverBoth(previous, last);
    }
  }

  lemma StepOverEmpty(previous: string)
    requires Tight(previous)
    ensures ReduceStep(previous, "") == previous
  {
    assert previous + "" == previous;
    TrimTight(previous);
  }

  lemma StepFromEmpty(current: string)
    requires current != "" && Tight(current)
    ensures ReduceStep("", current) == current
  {
    assert "" + (" " + current) == " " + current;
    TrimLeadingSpace(current);
  }

  lemma StepOverBoth(previous: string, current: string)
    requires previous != "" && Tight(previous) && current != "" && Tight(current)
    ensures ReduceStep(previous, current) == previous + " " + current
  {
    var joined := previous + (" " + current);
    assert joined == previous + " " + current;
    assert joined[0] == previous[0] && joined[|joined| - 1] == current[|current| - 1];
    TrimTight(joined);
  }

  /** `NonEmpty` keeps only parts of the input, so tight parts stay tight. */
  lemma {:induction false} NonEmptyTight(parts: seq<string>)
    requires forall k | 0 <= k < |parts| :: Tight(parts[k])
    ensures forall k | 0 <= k < |NonEmpty(parts)| :: NonEmpty(parts)[k] != "" && Tight(NonEmpty(parts)[k])
    decreases |parts|
  {
    if parts != [] {
      NonEmptyTight(parts[..|parts| - 1]);
    }
  }

  /** Nothing is kept of a list of empty parts. */
  lemma {:induction false} NonEmptyOfEmpties(parts: seq<string>)
    requires forall k | 0 <= k < |parts| :: parts[k] == ""
    ensures NonEmpty(parts) == []
    decreases |parts|
  {
    if parts != [] {
      NonEmptyOfEmpties(parts[..|parts| - 1]);
    }
  }

  /* ---------- The TimeSpan record ---------- */

  /** A constructed `TimeSpan`. `labelText` is the label given (line 90 overwrites the
      `label || timeSpanText` of line 76), `source` the text that was parsed. */
  datatype TimeSpan = TimeSpan(days: int, weeks: int, months: int, years: int,
                               labelText: Text, source: Text, formatted: string)

  /** The four components of `formatted`, in year, month, week, day order. */
  function Components(p: ParsedSpan): seq<string> {
    [FormatTime(p.years, "year"), FormatTime(p.months, "month"),
     FormatTime(p.weeks, "week"), FormatTime(p.days, "day")]
  }

  /** Lines 92-105: the reduced components after a space, wrapped in `[[label: … ]]` when
      the label differs from the text (`!=` on two texts or `undefined`s). */
  function Formatted(timeSpanText: Text, labelText: Text, p: ParsedSpan): string {
    var wrapped := labelText != timeSpanText;
    Join([if wrapped then "[[" + JsString(labelText) + ":" else "", Reduce(Components(p))])
      + (if wrapped then "]]" else "")
  }

  /** The constructor (lines 75-106) once `parseTimeSpan` has produced `p`. */
  function Build(timeSpanText: Text, labelText: Text, p: ParsedSpan): TimeSpan {
    TimeSpan(OrZero(p.days), OrZero(p.weeks), OrZero(p.months), OrZero(p.years),
             labelText, timeSpanText, Formatted(timeSpanText, labelText, p))
  }

  /** `new TimeSpan(timeSpanText, label)`. */
  function FromText(timeSpanText: Text, labelText: Text): TimeSpan {
    Build(timeSpanText, labelText, ParseSpec(JsString(timeSpanText)))
  }

  /** `TimeSpan.parse(timeSpanText, label)`: runs the parsing loop, then fills the record. */
  method Parse(timeSpanText: Text, labelText: Text) returns (ts: TimeSpan)
    ensures ts == FromText(timeSpanText, labelText)
    ensures ts.source == timeSpanText && ts.labelText == labelText
  {
    var parsedTimeSpan := ParseTimeSpan(timeSpanText);
    ts := Build(timeSpanText, labelText, parsedTimeSpan);
  }

  /** The field of a record that unit letter `u` selects. */
  function Amount(ts: TimeSpan, u: char): int {
    match u
    case 'D' => ts.days
    case 'W' => ts.weeks
    case 'M' => ts.months
    case _ => ts.years
  }

  /** Each amount of a constructed `TimeSpan` is the quantity of the last match of its
      unit in the text, and 0 when the text has no match of that unit. */
  lemma FromTextAmount(timeSpanText: Text, labelText: Text, u: char)
    requires IsUnit(u)
    ensures var s := JsString(timeSpanText);
            var ms := Matches(s, 0);
            Amount(FromText(timeSpanText, labelText), u)
            == match LastOfUnit(ms, u) case Some(i) => OrZero(Quantity(ms[i])) case None => 0
  {
    var s := JsString(timeSpanText);
    LastMatchWins(NoFields, Matches(s, 0), u);
  }

  /** A text without a digit, `undefined` among them, gives all four amounts 0 and an
      empty list of components. */
  lemma NoDigitZeroSpan(timeSpanText: Text, labelText: Text)
    requires forall k | 0 <= k < |JsString(timeSpanText)| :: !IsDigit(JsString(timeSpanText)[k])
    ensures var ts := FromText(timeSpanText, labelText);
            ts.days == 0 && ts.weeks == 0 && ts.months == 0 && ts.years == 0
    ensures Reduce(Components(ParseSpec(JsString(timeSpanText)))) == ""
  {
    NoDigitNoFields(JsString(timeSpanText));
    var c := Components(NoFields);
    assert forall k | 0 <= k < |c| :: c[k] == "";
    NonEmptyOfEmpties(c);
    ReduceJoinsNonEmpty(c);
  }

  /** `formatted` lists the non-empty components separated by single spaces after one
      leading space, inside `[[label: … ]]` exactly when the label differs from the text. */
  lemma FormattedLayout(timeSpanText: Text, labelText: Text, p: ParsedSpan)
    ensures Formatted(timeSpanText, labelText, p)
            == (if labelText != timeSpanText then "[[" + JsString(labelText) + ":" else "")
               + " " + Join(NonEmpty(Components(p)))
               + (if labelText != timeSpanText then "]]" else "")
  {
    var c := Components(p);
    ComponentsTight(p);
    ReduceJoinsNonEmpty(c);
    var prefix := if labelText != timeSpanText then "[[" + JsString(labelText) + ":" else "";
    JoinPair(prefix, Reduce(c));
  }

  lemma JoinPair(a: string, b: string)
    ensures Join([a, b]) == a + " " + b
  {
    assert [a, b][..1] == [a];
  }

  lemma ComponentsTight(p: ParsedSpan)
    ensures forall k | 0 <= k < |Components(p)| :: Tight(Components(p)[k])
  {
    FormatTimeLayout(p.years, "year");
    FormatTimeLayout(p.months, "month");
    FormatTimeLayout(p.weeks, "week");
    FormatTimeLayout(p.days, "day");
  }

  /** The unreachable age (line 127) is 999 years and nothing else. */
  lemma UnreachableAgeSpan(labelText: Text)
    ensures var ts := FromText(Some(UnreachableAgeText), labelText);
            ts.years == 999 && ts.months == 0 && ts.weeks == 0 && ts.days == 0
  {
    UnreachableAgeParse();
  }

  /* ---------- addTo ---------- */

  /** `(years || months || weeks || days) == 0`: every amount is zero. */
  predicate IsZero(ts: TimeSpan) {
    ts.years == 0 && ts.months == 0 && ts.weeks == 0 && ts.days == 0
  }

  /** Where `addTo` lands: the years and months move along the calendar (day-of-month
      overflow rolls forward), after which the weeks and days count whole days. */
  function Shift(ts: TimeSpan, date: Calendar.Day): Calendar.Day {
    Calendar.AddMonths(Calendar.AddYears(date, ts.years), ts.months) + 7 * ts.weeks + ts.days
  }

  /** `timeSpan.addTo(dateValue)` (lines 110-121): a zero span gives the date back;
      otherwise each non-zero amount is added to a copy, years first, then months,
      weeks and days. */
  method AddTo(ts: TimeSpan, dateValue: Calendar.Day) returns (workDate: Calendar.Day)
    ensures workDate == Shift(ts, dateValue)
    ensures IsZero(ts) ==> workDate == dateValue
  {
    if ts.years == 0 && ts.months == 0 && ts.weeks == 0 && ts.days == 0 {
      return dateValue;
    }
    workDate := dateValue;
    if ts.years != 0 {
      workDate := Calendar.AddYears(workDate, ts.years);
    }
    if ts.months != 0 {
      workDate := Calendar.AddMonths(workDate, ts.months);
    }
    if ts.weeks != 0 {
      workDate := Calendar.AddWeeks(workDate, ts.weeks);
    }
    if ts.days != 0 {
      workDate := Calendar.AddDays(workDate, ts.days);
    }
  }

  /** A span of weeks and days only is exact day arithmetic. */
  lemma ShiftWholeDays(ts: TimeSpan, date: Calendar.Day)
    requires ts.years == 0 && ts.months == 0
    ensures Shift(ts, date) == date + 7 * ts.weeks + ts.days
  {
  }

  /** The fixed order matters: one month and one day from 31 January of a common year
      is 4 March (the month rolls 31 February over to 3 March first), while adding the
      day first would reach 1 March. */
  lemma MonthsBeforeDays(y: int, ts: TimeSpan)
    requires !Calendar.IsLeapYear(y)
    requires ts.years == 0 && ts.months == 1 && ts.weeks == 0 && ts.days == 1
    ensures Shift(ts, Calendar.MakeDay(y, 0, 31)) == Calendar.MakeDay(y, 2, 4)
    ensures Calendar.AddMonths(Calendar.AddDays(Calendar.MakeDay(y, 0, 31), 1), 1) == Calendar.MakeDay(y, 2, 1)
  {
    MonthThenDay(y, ts);
    DayThenMonth(y);
  }

  /** The order of `addTo`: 31 January plus one month is 3 March, plus one day 4 March. */
  lemma MonthThenDay(y: int, ts: TimeSpan)
    requires !Calendar.IsLeapYear(y)
    requires ts.years == 0 && ts.months == 1 && ts.weeks == 0 && ts.days == 1
    ensures Shift(ts, Calendar.MakeDay(y, 0, 31)) == Calendar.MakeDay(y, 2, 4)
  {
    var jan31 := Calendar.MakeDay(y, 0, 31);
    Calendar.Jan31PlusOneMonth(y);
    assert Shift(ts, jan31) == Calendar.MakeDay(y, 2, 3) + 1;
    Calendar.MakeDayInYear(y, 2, 3);
    Calendar.MakeDayInYear(y, 2, 4);
  }

  /** The other order: 31 January plus one day is 1 February, plus one month 1 March. */
  lemma DayThenMonth(y: int)
    ensures Calendar.AddMonths(Calendar.AddDays(Calendar.MakeDay(y, 0, 31), 1), 1) == Calendar.MakeDay(y, 2, 1)
  {
    Calendar.Jan31NextDay(y);
    Calendar.FieldsOfMakeDay(y, 1, 1);
    Calendar.AddMonthsOfFields(Calendar.MakeDay(y, 1, 1), 1, Calendar.CivilDate(y, 1, 1));
  }

  /* ---------- addTimeSpan ---------- */

  /** Where a parsed span moves a date; `ShiftOfFromText` proves it the same as `Shift` of
      the record built from it. */
  function SpanShift(p: ParsedSpan, date: Calendar.Day): Calendar.Day {
    Calendar.AddMonths(Calendar.AddYears(date, OrZero(p.years)), OrZero(p.months))
      + 7 * OrZero(p.weeks) + OrZero(p.days)
  }

  /** Where `date.addTimeSpan(timeSpanText, label)` lands. The label only names things,
      so it has no part in the date. */
  function TextShift(date: Calendar.Day, timeSpanText: Text): Calendar.Day {
    SpanShift(ParseSpec(JsString(timeSpanText)), date)
  }

  /** `date.addTimeSpan(timeSpanText, label)` (lines 192-200): parse the text into a
      `TimeSpan`, then apply it to a copy of the date. */
  method AddTimeSpan(date: Calendar.Day, timeSpanText: Text, labelText: Text) returns (result: Calendar.Day)
    ensures result == TextShift(date, timeSpanText)
  {
    var timeSpan := Parse(timeSpanText, labelText);
    var workDate := date;
    result := AddTo(timeSpan, workDate);
  }

  /** `SpanShift` of the parsed text is where `addTo` of the constructed record lands,
      whatever the label. */
  lemma ShiftOfFromText(date: Calendar.Day, timeSpanText: Text, labelText: Text)
    ensures Shift(FromText(timeSpanText, labelText), date) == TextShift(date, timeSpanText)
  {
  }

  /** A text without a digit, `undefined` among them, leaves the date where it is. */
  lemma NoDigitKeepsDate(timeSpanText: Text, date: Calendar.Day)
    requires forall k | 0 <= k < |JsString(timeSpanText)| :: !IsDigit(JsString(timeSpanText)[k])
    ensures TextShift(date, timeSpanText) == date
  {
    NoDigitNoFields(JsString(timeSpanText));
  }

  /** Adding the unreachable age is adding 999 calendar years. */
  lemma UnreachableAgeShift(date: Calendar.Day)
    ensures TextShift(date, Some(UnreachableAgeText)) == Calendar.AddYears(date, 999)
  {
    UnreachableAgeParse();
  }
}
