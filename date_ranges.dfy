/** `createDateRanges` of index.js: entries with a start date are collected (optionally
    dropping repeated starts), sorted by start, given an end one day before the next
    later start, and the last one a caller-supplied end; `find` reports the first range
    holding a date. */
module DateRanges {
  import opened JsValues
  import Calendar

  /** The end of the last range: a date, or no upper limit (the `Date.POSITIVE_INFINITY`
      default of line 213). */
  datatype Bound = Finite(day: Calendar.Day) | Unbounded

  predicate AtMost(v: Calendar.Day, b: Bound) {
    b.Unbounded? || v <= b.day
  }

  /** An element of `items` after line 224: `{ value, start }`. */
  datatype Entry<V> = Entry(value: V, start: Calendar.Day)

  /** An element of `items` once lines 231-237 gave it its `end`. */
  datatype Item<V> = Item(value: V, start: Calendar.Day, end: Bound)

  /** The object `createDateRanges` returns; its `find` is `Find` below. */
  datatype DateRanges<V> = DateRanges(items: seq<Item<V>>)

  /* ---------- Collecting the entries (lines 216-225) ---------- */

  /** `items.find(itm => itm.start == start)` is truthy: some entry has this start. */
  predicate HasStart<V>(entries: seq<Entry<V>>, start: Calendar.Day) {
    exists k | 0 <= k < |entries| :: entries[k].start == start
  }

  /** The entries pushed while mapping over `elements`, in order. */
  function Collect<V>(elements: seq<V>, rangeStart: V -> Calendar.Day, requireUnique: bool): (r: seq<Entry<V>>)
    ensures |r| <= |elements|
    decreases |elements|
  {
    if elements == [] then []
    else
      var kept := Collect(elements[..|elements| - 1], rangeStart, requireUnique);
      var item := elements[|elements| - 1];
      var start := rangeStart(item);
      if requireUnique && HasStart(kept, start) then kept else kept + [Entry(item, start)]
  }

  /** Without `requireUnique` every element becomes an entry, in order. */
  lemma {:induction false} CollectKeepsAll<V>(elements: seq<V>, rangeStart: V -> Calendar.Day)
    ensures |Collect(elements, rangeStart, false)| == |elements|
    ensures forall k | 0 <= k < |elements| :: Collect(elements, rangeStart, false)[k] == Entry(elements[k], rangeStart(elements[k]))
    decreases |elements|
  {
    if elements != [] {
      CollectKeepsAll(elements[..|elements| - 1], rangeStart);
    }
  }

  /** No two entries share a start date. */
  predicate DistinctStarts<V>(entries: seq<Entry<V>>) {
    forall i, j | 0 <= i < j < |entries| :: entries[i].start != entries[j].start
  }

  /** With `requireUnique` the kept entries have pairwise different starts. */
  lemma {:induction false} CollectDistinct<V>(elements: seq<V>, rangeStart: V -> Calendar.Day)
    ensures DistinctStarts(Collect(elements, rangeStart, true))
    decreases |elements|
  {
    if elements != [] {
      var front := elements[..|elements| - 1];
      CollectDistinct(front, rangeStart);
      var kept := Collect(front, rangeStart, true);
      var item := elements[|elements| - 1];
      var r := Collect(elements, rangeStart, true);
      if !HasStart(kept, rangeStart(item)) {
        forall i, j | 0 <= i < j < |r| ensures r[i].start != r[j].start {
          if j == |kept| {
            assert r[i] == kept[i] && r[j].start == rangeStart(item);
            assert kept[i].start != rangeStart(item);
          } else {
            assert r[i] == kept[i] && r[j] == kept[j];
          }
        }
      }
    }
  }

  /** With `requireUnique` every start of the input is still the start of some entry. */
  lemma {:induction false} CollectCovers<V>(elements: seq<V>, rangeStart: V -> Calendar.Day)
    ensures var r := Collect(elements, rangeStart, true);
            forall k | 0 <= k < |elements| :: HasStart(r, rangeStart(elements[k]))
    decreases |elements|
  {
    if elements != [] {
      var front := elements[..|elements| - 1];
      CollectCovers(front, rangeStart);
      var kept := Collect(front, rangeStart, true);
      var item := elements[|elements| - 1];
      var r := Collect(elements, rangeStart, true);
      forall k | 0 <= k < |elements| ensures HasStart(r, rangeStart(elements[k])) {
        if k < |front| {
          assert front[k] == elements[k];
          var w :| 0 <= w < |kept| && kept[w].start == rangeStart(front[k]);
          assert r[w] == kept[w];
        } else if !HasStart(kept, rangeStart(item)) {
          assert r[|kept|].start == rangeStart(elements[k]);
        }
      }
    }
  }

  /** With `requireUnique` each kept entry is the first element with its start. */
  lemma {:induction false} CollectKeepsFirst<V>(elements: seq<V>, rangeStart: V -> Calendar.Day)
    ensures var r := Collect(elements, rangeStart, true);
            forall i | 0 <= i < |r| :: exists k | 0 <= k < |elements| ::
              r[i] == Entry(elements[k], rangeStart(elements[k])) && forall j | 0 <= j < k :: rangeStart(elements[j]) != r[i].start
    decreases |elements|
  {
    if elements != [] {
      var front := elements[..|elements| - 1];
      CollectKeepsFirst(front, rangeStart);
      CollectCovers(front, rangeStart);
      var kept := Collect(front, rangeStart, true);
      var r := Collect(elements, rangeStart, true);
      forall i | 0 <= i < |r| ensures exists k | 0 <= k < |elements| ::
        r[i] == Entry(elements[k], rangeStart(elements[k])) && forall j | 0 <= j < k :: rangeStart(elements[j]) != r[i].start
      {
        if i < |kept| {
          var k :| 0 <= k < |front| && kept[i] == Entry(front[k], rangeStart(front[k]))
                   && forall j | 0 <= j < k :: rangeStart(front[j]) != kept[i].start;
          assert r[i] == kept[i] && elements[k] == front[k];
          assert forall j | 0 <= j < k :: elements[j] == front[j];
        } else {
          var k := |front|;
          assert r[i] == Entry(elements[k], rangeStart(elements[k]));
          forall j | 0 <= j < k ensures rangeStart(elements[j]) != r[i].start {
            assert elements[j] == front[j];
            assert HasStart(kept, rangeStart(front[j]));
          }
        }
      }
    }
  }

  /* ---------- Sorting (line 228) ---------- */

  predicate SortedByStart<V>(s: seq<Entry<V>>) {
    forall i, j | 0 <= i < j < |s| :: s[i].start <= s[j].start
  }

  /** Places `e` after every entry whose start is not later than its own. */
  function Insert<V>(sorted: seq<Entry<V>>, e: Entry<V>): (r: seq<Entry<V>>)
    ensures |r| == |sorted| + 1
    decreases |sorted|
  {
    if sorted == [] || sorted[|sorted| - 1].start <= e.start then sorted + [e]
    else Insert(sorted[..|sorted| - 1], e) + [sorted[|sorted| - 1]]
  }

  /** `items.sort((a, b) => a.start - b.start)`: a stable sort by start date (the order
      of entries with the same start is kept, as ECMAScript requires of `sort`). */
  function SortByStart<V>(entries: seq<Entry<V>>): (r: seq<Entry<V>>)
    ensures |r| == |entries|
    decreases |entries|
  {
    if entries == [] then [] else Insert(SortByStart(entries[..|entries| - 1]), entries[|entries| - 1])
  }

  lemma {:induction false} InsertPermutes<V>(sorted: seq<Entry<V>>, e: Entry<V>)
    ensures multiset(Insert(sorted, e)) == multiset(sorted) + multiset{e}
    decreases |sorted|
  {
    if sorted != [] && sorted[|sorted| - 1].start > e.start {
      var front := sorted[..|sorted| - 1];
      InsertPermutes(front, e);
      assert sorted == front + [sorted[|sorted| - 1]];
    }
  }

  lemma {:induction false} InsertSorted<V>(sorted: seq<Entry<V>>, e: Entry<V>)
    requires SortedByStart(sorted)
    ensures SortedByStart(Insert(sorted, e))
    decreases |sorted|
  {
    if sorted != [] && sorted[|sorted| - 1].start > e.start {
      var front := sorted[..|sorted| - 1];
      var last := sorted[|sorted| - 1];
      InsertSorted(front, e);
      InsertPermutes(front, e);
      var r := Insert(front, e);
      forall k | 0 <= k < |r| ensures r[k].start <= last.start {
        assert r[k] in multiset(r);
        if r[k] != e {
          assert r[k] in multiset(front);
          var w :| 0 <= w < |front| && front[w] == r[k];
          assert sorted[w] == r[k];
        }
      }
    }
  }

  lemma {:induction false} SortByStartSorted<V>(entries: seq<Entry<V>>)
    ensures SortedByStart(SortByStart(entries))
    ensures multiset(SortByStart(entries)) == multiset(entries)
    decreases |entries|
  {
    if entries != [] {
      var front := entries[..|entries| - 1];
      SortByStartSorted(front);
      InsertSorted(SortByStart(front), entries[|entries| - 1]);
      InsertPermutes(SortByStart(front), entries[|entries| - 1]);
      assert entries == front + [entries[|entries| - 1]];
    }
  }

  /** The entries whose start is `key`, in order. */
  function WithStart<V>(s: seq<Entry<V>>, key: Calendar.Day): seq<Entry<V>>
    decreases |s|
  {
    if s == [] then []
    else WithStart(s[..|s| - 1], key) + (if s[|s| - 1].start == key then [s[|s| - 1]] else [])
  }

  lemma {:induction false} InsertStable<V>(sorted: seq<Entry<V>>, e: Entry<V>, key: Calendar.Day)
    ensures WithStart(Insert(sorted, e), key) == WithStart(sorted, key) + (if e.start == key then [e] else [])
    decreases |sorted|
  {
    var r := Insert(sorted, e);
    if sorted == [] || sorted[|sorted| - 1].start <= e.start {
      assert r[..|r| - 1] == sorted;
    } else {
      var front := sorted[..|sorted| - 1];
      var last := sorted[|sorted| - 1];
      InsertStable(front, e, key);
      assert r[..|r| - 1] == Insert(front, e);
    }
  }

  /** The sort is stable: the entries that share a start keep their relative order. */
  lemma {:induction false} SortByStartStable<V>(entries: seq<Entry<V>>, key: Calendar.Day)
    ensures WithStart(SortByStart(entries), key) == WithStart(entries, key)
    decreases |entries|
  {
    if entries != [] {
      var front := entries[..|entries| - 1];
      SortByStartStable(front, key);
      InsertStable(SortByStart(front), entries[|entries| - 1], key);
    }
  }

  /* ---------- Ends (lines 231-237) ---------- */

  /** The end the loop of lines 231-235 gives entry `i`: the day before the next start
      when that is later, the entry's own start otherwise (the last entry included). */
  function StepEnd<V>(sorted: seq<Entry<V>>, i: nat): Calendar.Day
    requires i < |sorted|
  {
    if i < |sorted| - 1 && sorted[i + 1].start > sorted[i].start
    then Calendar.AddDays(sorted[i + 1].start, -1)
    else sorted[i].start
  }

  /** Ends after line 237 has replaced the last one by `endLast`. */
  function EndOf<V>(sorted: seq<Entry<V>>, i: nat, endLast: Bound): Bound
    requires i < |sorted|
  {
    if i == |sorted| - 1 then endLast else Finite(StepEnd(sorted, i))
  }

  function WithEnds<V>(sorted: seq<Entry<V>>, endLast: Bound): (r: seq<Item<V>>)
    ensures |r| == |sorted|
  {
    seq(|sorted|, i requires 0 <= i < |sorted| => Item(sorted[i].value, sorted[i].start, EndOf(sorted, i, endLast)))
  }

  /** The items `createDateRanges` returns. */
  function Ranges<V>(elements: seq<V>, rangeStart: V -> Calendar.Day, endLast: Bound, requireUnique: bool): seq<Item<V>> {
    WithEnds(SortByStart(Collect(elements, rangeStart, requireUnique)), endLast)
  }

  /** The first pass of lines 218-225: one entry per element, in order, skipping an
      element whose start an earlier entry already has when `requireUnique` is set. */
  method CollectStarts<V>(elements: seq<V>, rangeStartFunc: V -> Calendar.Day, requireUnique: bool)
    returns (entries: seq<Entry<V>>)
    ensures entries == Collect(elements, rangeStartFunc, requireUnique)
  {
    entries := [];
    for i := 0 to |elements|
      invariant entries == Collect(elements[..i], rangeStartFunc, requireUnique)
    {
      var item := elements[i];
      var start := rangeStartFunc(item);
      assert elements[..i + 1][..i] == elements[..i];
      if !(requireUnique && HasStart(entries, start)) {
        entries := entries + [Entry(item, start)];
      }
    }
    assert elements[..|elements|] == elements;
  }

  /** `createDateRanges(elements, rangeStartFunc, endLast, requireUnique)`. */
  method CreateDateRanges<V>(elements: seq<V>, rangeStartFunc: V -> Calendar.Day, endLast: Bound, requireUnique: bool)
    returns (result: DateRanges<V>)
    ensures result.items == Ranges(elements, rangeStartFunc, endLast, requireUnique)
  {
    var entries := CollectStarts(elements, rangeStartFunc, requireUnique);

    entries := SortByStart(entries);

    var items: seq<Item<V>> := [];
    for index := 0 to |entries|
      invariant |items| == index
      invariant forall k | 0 <= k < index :: items[k] == Item(entries[k].value, entries[k].start, Finite(StepEnd(entries, k)))
    {
      var item := entries[index];
      var end := item.start;
      if index < |entries| - 1 && entries[index + 1].start > item.start {
        end := Calendar.AddDays(entries[index + 1].start, -1);
      }
      items := items + [Item(item.value, item.start, Finite(end))];
    }

    if |items| > 0 {
      items := items[|items| - 1 := items[|items| - 1].(end := endLast)];
    }
    result := DateRanges(items);
  }

  /* ---------- Properties of the ranges ---------- */

  predicate ItemsSorted<V>(items: seq<Item<V>>) {
    forall i, j | 0 <= i < j < |items| :: items[i].start <= items[j].start
  }

  /** Ranges are listed by ascending start and the last one ends at `endLast`. */
  lemma RangesSorted<V>(elements: seq<V>, rangeStart: V -> Calendar.Day, endLast: Bound, requireUnique: bool)
    ensures var items := Ranges(elements, rangeStart, endLast, requireUnique);
            ItemsSorted(items) && (|items| > 0 ==> items[|items| - 1].end == endLast)
  {
    var entries := Collect(elements, rangeStart, requireUnique);
    SortByStartSorted(entries);
  }

  /** The ranges hold exactly the collected entries, each with its value and start. */
  lemma RangesPermute<V>(elements: seq<V>, rangeStart: V -> Calendar.Day, endLast: Bound, requireUnique: bool)
    ensures var items := Ranges(elements, rangeStart, endLast, requireUnique);
            multiset(seq(|items|, i requires 0 <= i < |items| => Entry(items[i].value, items[i].start)))
            == multiset(Collect(elements, rangeStart, requireUnique))
  {
    var entries := Collect(elements, rangeStart, requireUnique);
    var sorted := SortByStart(entries);
    SortByStartSorted(entries);
    var items := WithEnds(sorted, endLast);
    assert seq(|items|, i requires 0 <= i < |items| => Entry(items[i].value, items[i].start)) == sorted;
  }

  /** Without `requireUnique` nothing is dropped: one range per element. */
  lemma RangesCount<V>(elements: seq<V>, rangeStart: V -> Calendar.Day, endLast: Bound)
    ensures |Ranges(elements, rangeStart, endLast, false)| == |elements|
  {
    CollectKeepsAll(elements, rangeStart);
  }

  /** Without `requireUnique`: one range per element, by ascending start, the last one
      ending at `endLast`. */
  lemma RangesOfAll<V>(elements: seq<V>, rangeStart: V -> Calendar.Day, endLast: Bound)
    ensures var items := Ranges(elements, rangeStart, endLast, false);
            |items| == |elements| && ItemsSorted(items) && (|items| > 0 ==> items[|items| - 1].end == endLast)
  {
    RangesCount(elements, rangeStart, endLast);
    RangesSorted(elements, rangeStart, endLast, false);
  }

  /** Every range but the last ends the day before the next range starts when that start
      is later, and is the single day of its start when the next start is the same. */
  lemma RangeEnds<V>(sorted: seq<Entry<V>>, endLast: Bound, i: nat)
    requires i + 1 < |sorted|
    ensures var items := WithEnds(sorted, endLast);
            items[i].end == if items[i + 1].start > items[i].start
                            then Finite(items[i + 1].start - 1) else Finite(items[i].start)
  {
  }

  /** A range holds a date between its start and its end, both included. */
  predicate Contains<V>(item: Item<V>, v: Calendar.Day) {
    item.start <= v && AtMost(v, item.end)
  }

  /** The position of the first range holding `v` (the `find` of line 241). */
  function FirstMatch<V>(items: seq<Item<V>>, v: Calendar.Day): (r: Option<nat>)
    ensures r.Some? ==> r.value < |items| && Contains(items[r.value], v)
    ensures r.Some? ==> forall j | 0 <= j < r.value :: !Contains(items[j], v)
    ensures r.None? ==> forall j | 0 <= j < |items| :: !Contains(items[j], v)
    decreases |items|
  {
    if items == [] then None
    else if Contains(items[0], v) then Some(0)
    else match FirstMatch(items[1..], v)
      case None => None
      case Some(i) => Some(i + 1)
  }

  /** `result.find(value, defaultValue)` (lines 240-243): the value of the first range
      holding `value`, or `defaultValue` when there is none or that value is falsy. */
  function Find<V>(ranges: DateRanges<V>, value: Calendar.Day, defaultValue: V, truthy: V -> bool): V {
    match FirstMatch(ranges.items, value)
    case Some(i) => if truthy(ranges.items[i].value) then ranges.items[i].value else defaultValue
    case None => defaultValue
  }

  /** Sorted ranges leave no hole from the first start to the end of the last range:
      every date in between is held by some range, so `find` reports one. */
  lemma {:induction false} Coverage<V>(sorted: seq<Entry<V>>, endLast: Bound, v: Calendar.Day)
    requires SortedByStart(sorted) && |sorted| > 0
    requires sorted[0].start <= v && AtMost(v, endLast)
    ensures FirstMatch(WithEnds(sorted, endLast), v).Some?
  {
    var items := WithEnds(sorted, endLast);
    var i := LastStartAtMost(sorted, v);
    assert Contains(items[i], v);
  }

  /** The last position whose start is not after `v`. */
  lemma LastStartAtMost<V>(sorted: seq<Entry<V>>, v: Calendar.Day) returns (i: nat)
    requires SortedByStart(sorted) && |sorted| > 0 && sorted[0].start <= v
    ensures i < |sorted| && sorted[i].start <= v
    ensures i + 1 < |sorted| ==> sorted[i + 1].start > v
  {
    i := 0;
    while i + 1 < |sorted| && sorted[i + 1].start <= v
      invariant i < |sorted| && sorted[i].start <= v
    {
      i := i + 1;
    }
  }

  /** With strictly increasing starts the ranges do not overlap: a date held by two
      ranges is held by one, and consecutive ranges meet without a gap. */
  lemma NoOverlap<V>(sorted: seq<Entry<V>>, endLast: Bound, i: nat, j: nat, v: Calendar.Day)
    requires forall a, b | 0 <= a < b < |sorted| :: sorted[a].start < sorted[b].start
    requires i < |sorted| && j < |sorted|
    requires Contains(WithEnds(sorted, endLast)[i], v) && Contains(WithEnds(sorted, endLast)[j], v)
    ensures i == j
  {
    if i < j {
      EndBeforeNext(sorted, endLast, i, j, v);
    } else if j < i {
      EndBeforeNext(sorted, endLast, j, i, v);
    }
  }

  /** With strictly increasing starts a range ends before any later one starts. */
  lemma EndBeforeNext<V>(sorted: seq<Entry<V>>, endLast: Bound, i: nat, j: nat, v: Calendar.Day)
    requires forall a, b | 0 <= a < b < |sorted| :: sorted[a].start < sorted[b].start
    requires i < j < |sorted|
    requires AtMost(v, WithEnds(sorted, endLast)[i].end)
    ensures v < sorted[j].start
  {
    var items := WithEnds(sorted, endLast);
    assert items[i].end == EndOf(sorted, i, endLast);
    assert StepEnd(sorted, i) == sorted[i + 1].start - 1;
    assert sorted[i + 1].start <= sorted[j].start;
  }

  /** A date before the first start is in no range, so `find` gives the default. */
  lemma FindBeforeFirst<V>(sorted: seq<Entry<V>>, endLast: Bound, v: Calendar.Day, defaultValue: V, truthy: V -> bool)
    requires SortedByStart(sorted) && |sorted| > 0 && v < sorted[0].start
    ensures Find(DateRanges(WithEnds(sorted, endLast)), v, defaultValue, truthy) == defaultValue
  {
    var items := WithEnds(sorted, endLast);
    forall j | 0 <= j < |items| ensures !Contains(items[j], v) {
      assert sorted[0].start <= sorted[j].start;
    }
  }

  /** For strictly increasing starts `find` gives the value of the range whose start is
      the last one not after `v`, provided `v` is before the end of the last range and
      that value is truthy. */
  lemma FindInStrictRanges<V>(sorted: seq<Entry<V>>, endLast: Bound, v: Calendar.Day, i: nat,
                              defaultValue: V, truthy: V -> bool)
    requires forall a, b | 0 <= a < b < |sorted| :: sorted[a].start < sorted[b].start
    requires i < |sorted| && sorted[i].start <= v && (i + 1 < |sorted| ==> v < sorted[i + 1].start)
    requires i + 1 == |sorted| ==> AtMost(v, endLast)
    requires truthy(sorted[i].value)
    ensures Find(DateRanges(WithEnds(sorted, endLast)), v, defaultValue, truthy) == sorted[i].value
  {
    var items := WithEnds(sorted, endLast);
    assert Contains(items[i], v);
    var m := FirstMatch(items, v);
    NoOverlap(sorted, endLast, m.value, i, v);
  }
}
