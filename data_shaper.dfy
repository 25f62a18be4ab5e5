/** `makeTimeSpanArray` and `DataShaper` of index.js: the dose-age fields of a record
    become named time-span entries, each entry gets the start date its offset gives
    from a base date, and the entries become date ranges; for ages the last range ends
    999 years after birth. */
module DataShaper {
  import opened JsValues
  import Calendar
  import TimeSpanParser
  import TimeSpans
  import opened DateRanges

  /* ---------- makeTimeSpanArray (lines 59-73) ---------- */

  /** An element of `keySequence`: a property name, or an array of the source name,
      the result name (`undefined` when the array has one element) and, optionally, a
      default text for a missing or empty value. */
  datatype KeySpec = Plain(key: string) | Remapped(sourceKey: string, resultKey: Text, defaultText: Text)

  /** `{ name, timeSpan }`. */
  datatype TimeSpanEntry = TimeSpanEntry(name: Text, timeSpan: Text)

  /** `source[key]`: the text stored under `key`, or `undefined`. */
  function Lookup(source: map<string, string>, key: string): Text {
    if key in source then Some(source[key]) else None
  }

  /** The entry one element of the key sequence gives: the `defaultIfMissing` filter when
      the array carries a truthy third element, `unfiltered` otherwise. */
  function MappedEntry(source: map<string, string>, item: KeySpec): TimeSpanEntry {
    match item
    case Plain(key) => TimeSpanEntry(Some(key), Lookup(source, key))
    case Remapped(sourceKey, resultKey, defaultText) =>
      var value := Lookup(source, sourceKey);
      TimeSpanEntry(resultKey, if Truthy(defaultText) then OrElse(value, defaultText) else value)
  }

  /** `makeTimeSpanArray(source, keySequence)`: one entry per key, in order. */
  method MakeTimeSpanArray(source: map<string, string>, keySequence: seq<KeySpec>) returns (result: seq<TimeSpanEntry>)
    ensures |result| == |keySequence|
    ensures forall k | 0 <= k < |keySequence| :: result[k] == MappedEntry(source, keySequence[k])
  {
    result := [];
    for i := 0 to |keySequence|
      invariant |result| == i
      invariant forall k | 0 <= k < i :: result[k] == MappedEntry(source, keySequence[k])
    {
      var mappedEntry := MappedEntry(source, keySequence[i]);
      result := result + [mappedEntry];
    }
  }

  /** The entry of one key. An array key is named by its second element. With a truthy
      default, a truthy value is kept and a missing or empty value becomes the default,
      so the text is never falsy; without one, the value passes through unchanged and a
      missing key yields `undefined`. A plain key names itself and reads its own value. */
  lemma MappedEntryText(source: map<string, string>, item: KeySpec)
    ensures item.Remapped? ==> MappedEntry(source, item).name == item.resultKey
    ensures item.Remapped? && Truthy(item.defaultText) ==> Truthy(MappedEntry(source, item).timeSpan)
    ensures item.Remapped? && Truthy(item.defaultText) && Truthy(Lookup(source, item.sourceKey)) ==>
              MappedEntry(source, item).timeSpan == Lookup(source, item.sourceKey)
    ensures item.Remapped? && Truthy(item.defaultText) && !Truthy(Lookup(source, item.sourceKey)) ==>
              MappedEntry(source, item).timeSpan == item.defaultText
    ensures item.Remapped? && !Truthy(item.defaultText) ==>
              MappedEntry(source, item).timeSpan == Lookup(source, item.sourceKey)
    ensures item.Remapped? && !Truthy(item.defaultText) && item.sourceKey !in source ==>
              MappedEntry(source, item).timeSpan == None
    ensures item.Plain? ==> MappedEntry(source, item).name == Some(item.key)
    ensures item.Plain? && item.key in source ==> MappedEntry(source, item).timeSpan == Some(source[item.key])
    ensures item.Plain? && item.key !in source ==> MappedEntry(source, item).timeSpan == None
  {
  }

  /* ---------- convertTimeSpansToDateRanges (lines 258-268) ---------- */

  /** An entry once line 260 has set its `start`. */
  datatype DatedEntry = DatedEntry(name: Text, timeSpan: Text, start: Calendar.Day)

  /** `function(item) { return item.start; }` of line 263. */
  function StartOf(d: DatedEntry): Calendar.Day {
    d.start
  }

  /** The start date a time span text gives from `startDate`: `startDate.addTimeSpan`. */
  function ShiftFrom(startDate: Calendar.Day): Text -> Calendar.Day {
    t => TimeSpans.TextShift(startDate, t)
  }

  /** An entry with the date `shiftOf` gives for its time span. */
  function DatedEntryOf(shiftOf: Text -> Calendar.Day, e: TimeSpanEntry): DatedEntry {
    DatedEntry(e.name, e.timeSpan, shiftOf(e.timeSpan))
  }

  /** `s.map(f)`. */
  function Map<A, B>(f: A -> B, s: seq<A>): (r: seq<B>)
    ensures |r| == |s|
    decreases |s|
  {
    if s == [] then [] else Map(f, s[..|s| - 1]) + [f(s[|s| - 1])]
  }

  lemma {:induction false} MapAt<A, B>(f: A -> B, s: seq<A>, k: nat)
    requires k < |s|
    ensures Map(f, s)[k] == f(s[k])
    decreases |s|
  {
    if k < |s| - 1 {
      MapAt(f, s[..|s| - 1], k);
    }
  }

  /** The entries after the `map` of lines 259-262, in order. */
  function Dated(shiftOf: Text -> Calendar.Day, timeSpanArray: seq<TimeSpanEntry>): (r: seq<DatedEntry>)
    ensures |r| == |timeSpanArray|
  {
    Map(e => DatedEntryOf(shiftOf, e), timeSpanArray)
  }

  lemma DatedAt(shiftOf: Text -> Calendar.Day, timeSpanArray: seq<TimeSpanEntry>, k: nat)
    requires k < |timeSpanArray|
    ensures Dated(shiftOf, timeSpanArray)[k] == DatedEntryOf(shiftOf, timeSpanArray[k])
  {
    MapAt(e => DatedEntryOf(shiftOf, e), timeSpanArray, k);
  }

  lemma PrefixSnoc<T>(s: seq<T>, i: nat)
    requires i < |s|
    ensures s[..i + 1] == s[..i] + [s[i]]
  {
  }

  lemma DatedSnoc(shiftOf: Text -> Calendar.Day, front: seq<TimeSpanEntry>, e: TimeSpanEntry)
    ensures Dated(shiftOf, front + [e]) == Dated(shiftOf, front) + [DatedEntryOf(shiftOf, e)]
  {
    assert (front + [e])[..|front|] == front;
  }

  /** The ranges `convertTimeSpansToDateRanges` returns. */
  function SpanRanges(startDate: Calendar.Day, timeSpanArray: seq<TimeSpanEntry>, endLast: Bound): seq<Item<DatedEntry>> {
    Ranges(Dated(ShiftFrom(startDate), timeSpanArray), StartOf, endLast, false)
  }

  /** The `map` of lines 259-262: each entry gets `startDate.addTimeSpan(timeSpan, name)`
      as its start. */
  method StartEntries(startDate: Calendar.Day, timeSpanArray: seq<TimeSpanEntry>)
    returns (mappedTimeSpans: seq<DatedEntry>)
    ensures mappedTimeSpans == Dated(ShiftFrom(startDate), timeSpanArray)
  {
    mappedTimeSpans := [];
    for i := 0 to |timeSpanArray|
      invariant mappedTimeSpans == Dated(ShiftFrom(startDate), timeSpanArray[..i])
    {
      var item := timeSpanArray[i];
      var start := TimeSpans.AddTimeSpan(startDate, item.timeSpan, item.name);
      assert start == ShiftFrom(startDate)(item.timeSpan);
      PrefixSnoc(timeSpanArray, i);
      DatedSnoc(ShiftFrom(startDate), timeSpanArray[..i], item);
      mappedTimeSpans := mappedTimeSpans + [DatedEntry(item.name, item.timeSpan, start)];
    }
    assert timeSpanArray[..|timeSpanArray|] == timeSpanArray;
  }

  /** `DataShaper.convertTimeSpansToDateRanges(startDate, timeSpanArray, endLast)`. */
  method ConvertTimeSpansToDateRanges(startDate: Calendar.Day, timeSpanArray: seq<TimeSpanEntry>, endLast: Bound)
    returns (dateRanges: DateRanges<DatedEntry>)
    ensures dateRanges.items == SpanRanges(startDate, timeSpanArray, endLast)
  {
    var mappedTimeSpans := StartEntries(startDate, timeSpanArray);
    dateRanges := CreateDateRanges(mappedTimeSpans, StartOf, endLast, false);
  }

  /** One range per entry, listed by ascending start, the last one ending at `endLast`. */
  lemma SpanRangesShape(startDate: Calendar.Day, timeSpanArray: seq<TimeSpanEntry>, endLast: Bound)
    ensures var items := SpanRanges(startDate, timeSpanArray, endLast);
            |items| == |timeSpanArray| && ItemsSorted(items)
              && (|items| > 0 ==> items[|items| - 1].end == endLast)
  {
    var dated := Dated(ShiftFrom(startDate), timeSpanArray);
    RangesOfAll(dated, StartOf, endLast);
    assert SpanRanges(startDate, timeSpanArray, endLast) == Ranges(dated, StartOf, endLast, false);
  }

  /* ---------- convertAgeToDateRanges (lines 270-284) ---------- */

  /** The key sequence of lines 271-277; `maxAge` defaults to the unreachable age. */
  const AgeKeys: seq<KeySpec> := [
    Remapped("absMinAge", Some("Absolute Minimum Age"), None),
    Remapped("minAge", Some("Minimum Age"), None),
    Remapped("earliestRecAge", Some("Earliest Recommended Age"), None),
    Remapped("latestRecAge", Some("Latest Recommended Age"), None),
    Remapped("maxAge", Some("Maximum Age"), Some(TimeSpanParser.UnreachableAgeText))
  ]

  /** The entries `makeTimeSpanArray(age, AgeKeys)` gives. */
  function AgeEntries(age: map<string, string>): (r: seq<TimeSpanEntry>)
    ensures |r| == 5
  {
    seq(5, k requires 0 <= k < 5 => MappedEntry(age, AgeKeys[k]))
  }

  /** The ranges `convertAgeToDateRanges` returns: the last one ends 999 years after birth. */
  function AgeRanges(birthDate: Calendar.Day, age: map<string, string>): seq<Item<DatedEntry>> {
    SpanRanges(birthDate, AgeEntries(age), Finite(Calendar.AddYears(birthDate, 999)))
  }

  /** `DataShaper.convertAgeToDateRanges(birthDate, age)`. */
  method ConvertAgeToDateRanges(birthDate: Calendar.Day, age: map<string, string>)
    returns (result: DateRanges<DatedEntry>)
    ensures result.items == AgeRanges(birthDate, age)
  {
    var timeSpanArray := MakeTimeSpanArray(age, AgeKeys);
    assert timeSpanArray == AgeEntries(age);
    var endLast := TimeSpans.AddTimeSpan(birthDate, Some(TimeSpanParser.UnreachableAgeText), None);
    TimeSpans.UnreachableAgeShift(birthDate);
    result := ConvertTimeSpansToDateRanges(birthDate, timeSpanArray, Finite(endLast));
  }

  /** Five ranges, listed by ascending start, the last one ending 999 years after birth. */
  lemma AgeRangesShape(birthDate: Calendar.Day, age: map<string, string>)
    ensures var items := AgeRanges(birthDate, age);
            |items| == 5 && ItemsSorted(items)
              && items[4].end == Finite(Calendar.AddYears(birthDate, 999))
  {
    SpanRangesShape(birthDate, AgeEntries(age), Finite(Calendar.AddYears(birthDate, 999)));
  }

  /** The entry of the `k`-th key is what `makeTimeSpanArray` makes of that key, with
      the start its text gives from the birth date. */
  lemma AgeEntryAt(birthDate: Calendar.Day, age: map<string, string>, k: nat)
    requires k < 5
    ensures Dated(ShiftFrom(birthDate), AgeEntries(age))[k]
              == DatedEntryOf(ShiftFrom(birthDate), MappedEntry(age, AgeKeys[k]))
  {
    DatedAt(ShiftFrom(birthDate), AgeEntries(age), k);
  }

  /** `undefined` as a time span leaves the date where it is. */
  lemma UndefinedKeepsDate(startDate: Calendar.Day)
    ensures ShiftFrom(startDate)(None) == startDate
  {
    var undefinedText := JsString(None);
    assert forall i | 0 <= i < |undefinedText| :: !TimeSpanParser.IsDigit(undefinedText[i]);
    TimeSpans.NoDigitKeepsDate(None, startDate);
  }

  /** Only `maxAge` has a default. */
  lemma AgeKeyDefaults(k: nat)
    requires k < 5
    ensures AgeKeys[k].Remapped? && AgeKeys[k].resultKey.Some?
    ensures k < 4 <==> AgeKeys[k].defaultText == None
    ensures k == 4 ==> AgeKeys[k].defaultText == Some(TimeSpanParser.UnreachableAgeText)
  {
  }

  /** An age field missing from the record starts its range at birth. */
  lemma MissingAgeStartsAtBirth(birthDate: Calendar.Day, age: map<string, string>, k: nat)
    requires k < 4 && AgeKeys[k].sourceKey !in age
    ensures Dated(ShiftFrom(birthDate), AgeEntries(age))[k].start == birthDate
  {
    AgeEntryAt(birthDate, age, k);
    MissingAgeText(age, k);
    UndefinedKeepsDate(birthDate);
  }

  /** Without a default, a missing age field becomes the time span `undefined`. */
  lemma MissingAgeText(age: map<string, string>, k: nat)
    requires k < 4 && AgeKeys[k].sourceKey !in age
    ensures MappedEntry(age, AgeKeys[k]).timeSpan == None
  {
    AgeKeyDefaults(k);
  }

  /** A missing `maxAge` starts its range 999 years after birth. */
  lemma MissingMaxAgeIsUnreachable(birthDate: Calendar.Day, age: map<string, string>)
    requires "maxAge" !in age
    ensures Dated(ShiftFrom(birthDate), AgeEntries(age))[4].start == Calendar.AddYears(birthDate, 999)
  {
    AgeEntryAt(birthDate, age, 4);
    AgeKeyDefaults(4);
    assert MappedEntry(age, AgeKeys[4]).timeSpan == Some(TimeSpanParser.UnreachableAgeText);
    TimeSpans.UnreachableAgeShift(birthDate);
  }

  /** Every date from the earliest start up to 999 years after birth lies in a range, and
      a date before the earliest start gets the default (such as "Too early"). */
  lemma AgeLookup(birthDate: Calendar.Day, age: map<string, string>, v: Calendar.Day,
                  defaultValue: DatedEntry, truthy: DatedEntry -> bool)
    ensures var items := AgeRanges(birthDate, age);
            items[0].start <= v <= Calendar.AddYears(birthDate, 999) ==> FirstMatch(items, v).Some?
    ensures var items := AgeRanges(birthDate, age);
            v < items[0].start ==> Find(DateRanges(items), v, defaultValue, truthy) == defaultValue
  {
    var endLast := Finite(Calendar.AddYears(birthDate, 999));
    var entries := Collect(Dated(ShiftFrom(birthDate), AgeEntries(age)), StartOf, false);
    CollectKeepsAll(Dated(ShiftFrom(birthDate), AgeEntries(age)), StartOf);
    var sorted := SortByStart(entries);
    SortByStartSorted(entries);
    assert AgeRanges(birthDate, age) == WithEnds(sorted, endLast);
    if sorted[0].start <= v <= Calendar.AddYears(birthDate, 999) {
      Coverage(sorted, endLast, v);
    }
    if v < sorted[0].start {
      FindBeforeFirst(sorted, endLast, v, defaultValue, truthy);
    }
  }
}
