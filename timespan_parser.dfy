/** `parseTimeSpan` of index.js: a global regular-expression scan over a text such as
    "4 months, 2 weeks" that records, per unit, the quantity of each match.

    The pattern is
      \s*([+-]?(?:\s*)\d+)\s*(d(ays?)?|w(eeks?)?|m(onths?)?|y(ears?)?)\s*,?\s*
    with the flags `g` and `i`. `MatchAt` gives the match the engine reports when it
    starts at a given position, `Exec` the leftmost match at or after `lastIndex`,
    and `Matches` the sequence of matches the `while` loop visits. */
module TimeSpanParser {
  import opened JsValues

  /** `\s`: the WhiteSpace and LineTerminator characters of ECMAScript. */
  predicate IsSpace(c: char) {
    || c == '\t' || c == '\n' || c == '\U{B}' || c == '\U{C}' || c == '\r' || c == ' '
    || c == '\U{A0}' || c == '\U{1680}' || ('\U{2000}' <= c <= '\U{200A}')
    || c == '\U{2028}' || c == '\U{2029}' || c == '\U{202F}' || c == '\U{205F}'
    || c == '\U{3000}' || c == '\U{FEFF}'
  }

  /** `\d`: an ASCII decimal digit. */
  predicate IsDigit(c: char) {
    '0' <= c <= '9'
  }

  function LowerAscii(c: char): char {
    if 'A' <= c <= 'Z' then (c as int + 32) as char else c
  }

  function UpperAscii(c: char): char {
    if 'a' <= c <= 'z' then (c as int - 32) as char else c
  }

  /** The first position at or after `i` that is not `\s`: greedy `\s*`. */
  function SkipSpaces(s: string, i: nat): (j: nat)
    requires i <= |s|
    ensures i <= j <= |s|
    ensures forall k | i <= k < j :: IsSpace(s[k])
    ensures j == |s| || !IsSpace(s[j])
    decreases |s| - i
  {
    if i < |s| && IsSpace(s[i]) then SkipSpaces(s, i + 1) else i
  }

  /** The first position at or after `i` that is not a digit: greedy `\d*`. */
  function SkipDigits(s: string, i: nat): (j: nat)
    requires i <= |s|
    ensures i <= j <= |s|
    ensures forall k | i <= k < j :: IsDigit(s[k])
    ensures j == |s| || !IsDigit(s[j])
    decreases |s| - i
  {
    if i < |s| && IsDigit(s[i]) then SkipDigits(s, i + 1) else i
  }

  /** Case-insensitive match of the lower-case word `w` at position `i`. */
  predicate HasWordAt(s: string, i: nat, w: string) {
    i + |w| <= |s| && forall k | 0 <= k < |w| :: LowerAscii(s[i + k]) == w[k]
  }

  predicate IsUnitLetter(c: char) {
    c in "dDwWmMyY"
  }

  /** What may follow a unit's first letter: "ay", "eek", "onth", "ear", each with an optional "s". */
  function UnitTail(c: char): string {
    match LowerAscii(c)
    case 'd' => "ay"
    case 'w' => "eek"
    case 'm' => "onth"
    case _ => "ear"
  }

  /** End of the unit word that starts at `i`; the optional groups are greedy, so the
      longest of "days", "day", "d" (and so on) that is present is taken. */
  function UnitEnd(s: string, i: nat): (e: nat)
    requires i < |s| && IsUnitLetter(s[i])
    ensures i < e <= |s|
  {
    var tail := UnitTail(s[i]);
    if HasWordAt(s, i + 1, tail + "s") then i + 2 + |tail|
    else if HasWordAt(s, i + 1, tail) then i + 1 + |tail|
    else i + 1
  }

  /** One result of `exec`: where the match starts and ends, and its two capture
      groups (the signed quantity and the unit word). */
  datatype RegexMatch = RegexMatch(index: nat, end: nat, quantityText: string, unitText: string)

  /** The match the engine finds when the pattern is tried at position `p`, or None.
      When the sign is present but no digits follow, dropping the sign cannot help
      (the digits would have to start at the sign), and shortening any greedy `\s*`
      or `\d+` leaves a space or a digit where a unit letter is needed, so the greedy
      path below is the only one that can succeed. */
  function MatchAt(s: string, p: nat): (r: Option<RegexMatch>)
    requires p <= |s|
    ensures r.Some? ==> r.value.index == p < r.value.end <= |s|
    ensures r.Some? ==> |r.value.unitText| > 0 && IsUnitLetter(r.value.unitText[0])
    ensures r.Some? ==> |r.value.quantityText| > 0
  {
    var q0 := SkipSpaces(s, p);
    var signEnd := SignEnd(s, q0);
    var d0 := SkipSpaces(s, signEnd);
    var d1 := SkipDigits(s, d0);
    if d1 == d0 then None
    else
      var u0 := SkipSpaces(s, d1);
      if u0 == |s| || !IsUnitLetter(s[u0]) then None
      else Some(UnitMatch(s, p, q0, d1, u0))
  }

  /** The rest of a successful match once the unit letter at `u0` is found: the unit
      word, then `\s*,?\s*`. */
  function UnitMatch(s: string, p: nat, q0: nat, d1: nat, u0: nat): (r: RegexMatch)
    requires p <= q0 < d1 <= u0 < |s| && IsUnitLetter(s[u0])
    ensures r.index == p < r.end <= |s|
    ensures |r.unitText| > 0 && IsUnitLetter(r.unitText[0])
    ensures |r.quantityText| > 0
  {
    var u1 := UnitEnd(s, u0);
    var t0 := SkipSpaces(s, u1);
    var t1 := if t0 < |s| && s[t0] == ',' then t0 + 1 else t0;
    var e := SkipSpaces(s, t1);
    RegexMatch(p, e, s[q0..d1], s[u0..u1])
  }

  /** The first position in `from..last` at which `succeeds` holds: the engine tries
      the start positions one after the other. */
  function FirstSuccess(succeeds: nat -> bool, from: nat, last: nat): (r: Option<nat>)
    ensures r.Some? ==> from <= r.value <= last && succeeds(r.value)
    ensures r.Some? ==> forall p | from <= p < r.value :: !succeeds(p)
    ensures r.None? ==> forall p | from <= p <= last :: !succeeds(p)
    decreases last - from
  {
    if last < from then None
    else if succeeds(from) then Some(from)
    else FirstSuccess(succeeds, from + 1, last)
  }

  /** The pattern matches when it is tried at position `p`. */
  predicate Matchable(s: string, p: nat) {
    p <= |s| && MatchAt(s, p).Some?
  }

  /** `exec` of the global pattern with `lastIndex == from`: the first position at or
      after `from` where the pattern matches, and that match. */
  function Exec(s: string, from: nat): (r: Option<RegexMatch>)
    requires from <= |s|
    ensures r.Some? ==> from <= r.value.index <= |s| && MatchAt(s, r.value.index) == r
  {
    match FirstSuccess((p: nat) => Matchable(s, p), from, |s|)
    case None => None
    case Some(p) => MatchAt(s, p)
  }

  /** The match `exec` reports is the leftmost one: the pattern matches nowhere between
      `lastIndex` and it, so the text before it is skipped; and when `exec` reports
      none, the pattern matches nowhere after `lastIndex`. */
  lemma ExecLeftmost(s: string, from: nat)
    requires from <= |s|
    ensures Exec(s, from).Some? ==> forall p | from <= p < Exec(s, from).value.index :: MatchAt(s, p).None?
    ensures Exec(s, from).None? ==> forall p | from <= p <= |s| :: MatchAt(s, p).None?
  {
    var succeeds := (p: nat) => Matchable(s, p);
    var first := FirstSuccess(succeeds, from, |s|);
    var upTo := if first.Some? then first.value else |s| + 1;
    forall p | from <= p < upTo ensures !Matchable(s, p) {
      assert !succeeds(p);
    }
    NoMatchBetween(s, from, upTo);
  }

  lemma NoMatchBetween(s: string, from: nat, upTo: nat)
    requires upTo <= |s| + 1
    requires forall p | from <= p < upTo :: !Matchable(s, p)
    ensures forall p | from <= p < upTo :: MatchAt(s, p).None?
  {
    forall p | from <= p < upTo ensures MatchAt(s, p).None? {
      assert !Matchable(s, p);
    }
  }

  /** The matches the `while` loop visits, starting with `lastIndex == from`; each
      `exec` resumes where the previous match ended. */
  function Matches(s: string, from: nat): (ms: seq<RegexMatch>)
    requires from <= |s|
    decreases |s| - from
  {
    match Exec(s, from)
    case None => []
    case Some(m) => [m] + Matches(s, m.end)
  }

  /** The `replace` of line 37: every whitespace character removed. */
  function RemoveSpaces(t: string): (r: string)
    ensures forall k | 0 <= k < |r| :: !IsSpace(r[k])
  {
    if t == [] then [] else (if IsSpace(t[0]) then [] else [t[0]]) + RemoveSpaces(t[1..])
  }

  function DigitValue(c: char): (v: nat)
    requires IsDigit(c)
    ensures v <= 9
  {
    c as int - '0' as int
  }

  /** The value of a string of decimal digits. */
  function DigitsValue(d: string): (v: nat)
    requires forall k | 0 <= k < |d| :: IsDigit(d[k])
  {
    if d == [] then 0 else DigitsValue(d[..|d| - 1]) * 10 + DigitValue(d[|d| - 1])
  }

  /** `Number.parseInt(t)` in base 10: leading white space, an optional sign, then the
      longest run of digits; None stands for NaN (no digit). */
  function ParseInt(t: string): (r: Option<int>)
  {
    var i := SkipSpaces(t, 0);
    var negative := i < |t| && t[i] == '-';
    var d0 := if i < |t| && (t[i] == '+' || t[i] == '-') then i + 1 else i;
    var d1 := SkipDigits(t, d0);
    if d1 == d0 then None
    else
      Some(Signed(negative, DigitsValue(t[d0..d1])))
  }

  function Signed(negative: bool, v: nat): int {
    if negative then -(v as int) else v
  }

  /** The quantity of a match: line 37, whitespace removed, then `parseInt`. */
  function Quantity(m: RegexMatch): Option<int> {
    ParseInt(RemoveSpaces(m.quantityText))
  }

  /** The unit of a match: the first letter of the unit word, upper-cased (line 38). */
  function UnitOf(m: RegexMatch): char {
    if |m.unitText| > 0 then UpperAscii(m.unitText[0]) else ' '
  }

  /** The record `parseTimeSpan` returns; None is a field the scan never set. */
  datatype ParsedSpan = ParsedSpan(days: Option<int>, weeks: Option<int>, months: Option<int>, years: Option<int>)

  const NoFields := ParsedSpan(None, None, None, None)

  /** The field of `p` that unit letter `u` selects. */
  function Field(p: ParsedSpan, u: char): Option<int> {
    match u
    case 'D' => p.days
    case 'W' => p.weeks
    case 'M' => p.months
    case 'Y' => p.years
    case _ => None
  }

  predicate IsUnit(u: char) {
    u == 'D' || u == 'W' || u == 'M' || u == 'Y'
  }

  /** One pass of the loop body: the `switch` on the unit writes one field. */
  function ApplyMatch(p: ParsedSpan, m: RegexMatch): ParsedSpan {
    match UnitOf(m)
    case 'D' => p.(days := Quantity(m))
    case 'W' => p.(weeks := Quantity(m))
    case 'M' => p.(months := Quantity(m))
    case 'Y' => p.(years := Quantity(m))
    case _ => p
  }

  /** The loop body applied to every match in order. */
  function ApplyAll(p: ParsedSpan, ms: seq<RegexMatch>): ParsedSpan
    decreases |ms|
  {
    if ms == [] then p else ApplyAll(ApplyMatch(p, ms[0]), ms[1..])
  }

  /** What `parseTimeSpan` returns for the text `s` (after ToString). */
  function ParseSpec(s: string): ParsedSpan {
    ApplyAll(NoFields, Matches(s, 0))
  }

  /** `parseTimeSpan(timeSpanText)`: the `while` loop over `exec`. */
  method ParseTimeSpan(timeSpanText: Text) returns (parsedTimeSpan: ParsedSpan)
    ensures parsedTimeSpan == ParseSpec(JsString(timeSpanText))
  {
    var s := JsString(timeSpanText);
    var lastIndex := 0;
    parsedTimeSpan := NoFields;
    var regexResult := Exec(s, lastIndex);
    while regexResult.Some?
      invariant lastIndex <= |s|
      invariant regexResult == Exec(s, lastIndex)
      invariant ApplyAll(parsedTimeSpan, Matches(s, lastIndex)) == ParseSpec(s)
      decreases |s| - lastIndex
    {
      var m := regexResult.value;
      var quantity := ParseInt(RemoveSpaces(m.quantityText));
      var units := UpperAscii(m.unitText[0]);
      match units {
        case 'D' => parsedTimeSpan := parsedTimeSpan.(days := quantity);
        case 'W' => parsedTimeSpan := parsedTimeSpan.(weeks := quantity);
        case 'M' => parsedTimeSpan := parsedTimeSpan.(months := quantity);
        case 'Y' => parsedTimeSpan := parsedTimeSpan.(years := quantity);
        case _ =>
      }
      lastIndex := m.end;
      regexResult := Exec(s, lastIndex);
    }
  }

  /** The position in `ms` of the last match whose unit is `u`. */
  function LastOfUnit(ms: seq<RegexMatch>, u: char): (r: Option<nat>)
    ensures r.Some? ==> r.value < |ms| && UnitOf(ms[r.value]) == u
    ensures r.Some? ==> forall j | r.value < j < |ms| :: UnitOf(ms[j]) != u
    ensures r.None? ==> forall j | 0 <= j < |ms| :: UnitOf(ms[j]) != u
    decreases |ms|
  {
    if ms == [] then None
    else if UnitOf(ms[|ms| - 1]) == u then Some(|ms| - 1)
    else LastOfUnit(ms[..|ms| - 1], u)
  }

  /** A later match of a unit overwrites an earlier one: after the loop, the field of
      unit `u` holds the quantity of the last match of `u`, and keeps its previous
      value when there is none. */
  lemma LastMatchWins(p: ParsedSpan, ms: seq<RegexMatch>, u: char)
    requires IsUnit(u)
    ensures Field(ApplyAll(p, ms), u)
         == match LastOfUnit(ms, u) case Some(i) => Quantity(ms[i]) case None => Field(p, u)
  {
    match LastOfUnit(ms, u)
    case Some(i) => LastMatchWinsAt(p, ms, u, i);
    case None => NoMatchKeeps(p, ms, u);
  }

  lemma {:induction false} LastMatchWinsAt(p: ParsedSpan, ms: seq<RegexMatch>, u: char, i: nat)
    requires IsUnit(u) && i < |ms| && UnitOf(ms[i]) == u
    requires forall j | i < j < |ms| :: UnitOf(ms[j]) != u
    ensures Field(ApplyAll(p, ms), u) == Quantity(ms[i])
    decreases |ms|
  {
    var rest := ms[1..];
    FieldAfterMatch(p, ms[0], u);
    if i == 0 {
      NoMatchKeeps(ApplyMatch(p, ms[0]), rest, u);
    } else {
      assert rest[i - 1] == ms[i];
      LastMatchWinsAt(ApplyMatch(p, ms[0]), rest, u, i - 1);
    }
  }

  lemma {:induction false} NoMatchKeeps(p: ParsedSpan, ms: seq<RegexMatch>, u: char)
    requires IsUnit(u)
    requires forall j | 0 <= j < |ms| :: UnitOf(ms[j]) != u
    ensures Field(ApplyAll(p, ms), u) == Field(p, u)
    decreases |ms|
  {
    if ms != [] {
      FieldAfterMatch(p, ms[0], u);
      NoMatchKeeps(ApplyMatch(p, ms[0]), ms[1..], u);
    }
  }

  lemma FieldAfterMatch(p: ParsedSpan, m: RegexMatch, u: char)
    requires IsUnit(u)
    ensures Field(ApplyMatch(p, m), u) == if UnitOf(m) == u then Quantity(m) else Field(p, u)
  {
  }

  /* ---------- The quantity of a match ---------- */

  lemma {:induction false} RemoveSpacesAppend(a: string, b: string)
    ensures RemoveSpaces(a + b) == RemoveSpaces(a) + RemoveSpaces(b)
    decreases |a|
  {
    if a != [] {
      assert (a + b)[1..] == a[1..] + b;
      RemoveSpacesAppend(a[1..], b);
    } else {
      assert a + b == b;
    }
  }

  lemma {:induction false} RemoveSpacesOfSpaces(a: string)
    requires forall k | 0 <= k < |a| :: IsSpace(a[k])
    ensures RemoveSpaces(a) == []
    decreases |a|
  {
    if a != [] {
      RemoveSpacesOfSpaces(a[1..]);
    }
  }

  lemma {:induction false} RemoveSpacesKeeps(a: string)
    requires forall k | 0 <= k < |a| :: !IsSpace(a[k])
    ensures RemoveSpaces(a) == a
    decreases |a|
  {
    if a != [] {
      RemoveSpacesKeeps(a[1..]);
      assert a == [a[0]] + a[1..];
    }
  }

  lemma {:induction false} SkipDigitsToEnd(t: string, i: nat)
    requires i <= |t|
    requires forall k | i <= k < |t| :: IsDigit(t[k])
    ensures SkipDigits(t, i) == |t|
    decreases |t| - i
  {
    if i < |t| {
      SkipDigitsToEnd(t, i + 1);
    }
  }

  /** `parseInt` of an optional sign directly followed by digits. */
  lemma ParseIntOfSignedDigits(sign: string, digits: string)
    requires sign == "" || sign == "+" || sign == "-"
    requires |digits| > 0 && forall k | 0 <= k < |digits| :: IsDigit(digits[k])
    ensures ParseInt(sign + digits) == Some(Signed(sign == "-", DigitsValue(digits)))
  {
    var t := sign + digits;
    var d0 := |sign|;
    SignedDigitsStart(sign, digits);
    SkipDigitsToEnd(t, d0);
    assert t[d0..|t|] == digits;
  }

  /** `parseInt` stops at the first character after the digits that is not a digit:
      whatever follows it is ignored. */
  lemma ParseIntIgnoresRest(sign: string, digits: string, rest: string)
    requires sign == "" || sign == "+" || sign == "-"
    requires |digits| > 0 && forall k | 0 <= k < |digits| :: IsDigit(digits[k])
    requires rest == [] || !IsDigit(rest[0])
    ensures ParseInt(sign + digits + rest) == Some(Signed(sign == "-", DigitsValue(digits)))
  {
    var u := sign + digits;
    var t := u + rest;
    SignedDigitsStart(sign, digits);
    assert forall k | 0 <= k < |u| :: t[k] == u[k];
    assert SkipSpaces(t, 0) == 0;
    SkipDigitsRun(t, |sign|, |u|);
    assert t[|sign|..|u|] == digits;
  }

  lemma SignedDigitsStart(sign: string, digits: string)
    requires sign == "" || sign == "+" || sign == "-"
    requires |digits| > 0 && forall k | 0 <= k < |digits| :: IsDigit(digits[k])
    ensures SkipSpaces(sign + digits, 0) == 0
    ensures ((sign + digits)[0] == '-') == (sign == "-")
    ensures ((sign + digits)[0] == '+' || (sign + digits)[0] == '-') == (|sign| == 1)
    ensures forall k | |sign| <= k < |sign + digits| :: IsDigit((sign + digits)[k])
  {
    var t := sign + digits;
    assert t[0] == if sign == "" then digits[0] else sign[0];
    assert !IsSpace(t[0]);
    assert forall k | |sign| <= k < |t| :: t[k] == digits[k - |sign|];
  }

  /** Where the sign ends, given where the first capture group starts. */
  function SignEnd(s: string, q0: nat): (j: nat)
    requires q0 <= |s|
    ensures q0 <= j <= |s|
  {
    if q0 < |s| && (s[q0] == '+' || s[q0] == '-') then q0 + 1 else q0
  }

  /** The first capture group of a match is an optional sign, white space and at least
      one digit; once the white space is removed (line 37) `parseInt` reads the signed
      digits, so the quantity of a match is always a number, never NaN. */
  lemma QuantityOfMatch(s: string, p: nat) returns (sign: string, gap: string, digits: string)
    requires p <= |s| && MatchAt(s, p).Some?
    ensures MatchAt(s, p).value.quantityText == sign + gap + digits
    ensures sign == "" || sign == "+" || sign == "-"
    ensures forall k | 0 <= k < |gap| :: IsSpace(gap[k])
    ensures |digits| > 0 && forall k | 0 <= k < |digits| :: IsDigit(digits[k])
    ensures Quantity(MatchAt(s, p).value) == Some(Signed(sign == "-", DigitsValue(digits)))
  {
    var q0 := SkipSpaces(s, p);
    var signEnd := SignEnd(s, q0);
    var d0 := SkipSpaces(s, signEnd);
    var d1 := SkipDigits(s, d0);
    assert MatchAt(s, p).value.quantityText == s[q0..d1];
    sign, gap, digits := QuantityParts(s, q0, signEnd, d0, d1);
  }

  lemma QuantityParts(s: string, q0: nat, signEnd: nat, d0: nat, d1: nat) returns (sign: string, gap: string, digits: string)
    requires q0 <= signEnd <= d0 < d1 <= |s|
    requires signEnd == SignEnd(s, q0)
    requires forall k | signEnd <= k < d0 :: IsSpace(s[k])
    requires forall k | d0 <= k < d1 :: IsDigit(s[k])
    ensures s[q0..d1] == sign + gap + digits
    ensures sign == "" || sign == "+" || sign == "-"
    ensures forall k | 0 <= k < |gap| :: IsSpace(gap[k])
    ensures |digits| > 0 && forall k | 0 <= k < |digits| :: IsDigit(digits[k])
    ensures ParseInt(RemoveSpaces(s[q0..d1])) == Some(Signed(sign == "-", DigitsValue(digits)))
  {
    sign, gap, digits := s[q0..signEnd], s[signEnd..d0], s[d0..d1];
    assert s[q0..d1] == sign + gap + digits;
    assert forall k | 0 <= k < |sign| :: sign[k] == '+' || sign[k] == '-';
    RemoveSpacesOfParts(sign, gap, digits);
    ParseIntOfSignedDigits(sign, digits);
  }

  /** Removing the white space of sign, gap and digits leaves the sign and the digits. */
  lemma RemoveSpacesOfParts(sign: string, gap: string, digits: string)
    requires forall k | 0 <= k < |sign| :: !IsSpace(sign[k])
    requires forall k | 0 <= k < |gap| :: IsSpace(gap[k])
    requires forall k | 0 <= k < |digits| :: IsDigit(digits[k])
    ensures RemoveSpaces(sign + gap + digits) == sign + digits
  {
    RemoveSpacesAppend(sign + gap, digits);
    RemoveSpacesAppend(sign, gap);
    RemoveSpacesKeeps(sign);
    RemoveSpacesOfSpaces(gap);
    RemoveSpacesKeeps(digits);
    assert sign + [] == sign;
  }

  /* ---------- The unit of a match ---------- */

  /** The second capture group starts with one of d, w, m, y in either case, so the
      `switch` always finds its case: every match writes exactly one field, the one its
      unit letter selects, and leaves the other three as they were. */
  lemma MatchSetsOneField(s: string, i: nat, p: ParsedSpan)
    requires i <= |s| && MatchAt(s, i).Some?
    ensures IsUnit(UnitOf(MatchAt(s, i).value))
    ensures Field(ApplyMatch(p, MatchAt(s, i).value), UnitOf(MatchAt(s, i).value)) == Quantity(MatchAt(s, i).value)
    ensures forall u | IsUnit(u) && u != UnitOf(MatchAt(s, i).value) :: Field(ApplyMatch(p, MatchAt(s, i).value), u) == Field(p, u)
  {
    ApplyMatchOneField(p, MatchAt(s, i).value);
  }

  lemma ApplyMatchOneField(p: ParsedSpan, m: RegexMatch)
    requires |m.unitText| > 0 && IsUnitLetter(m.unitText[0])
    ensures IsUnit(UnitOf(m))
    ensures Field(ApplyMatch(p, m), UnitOf(m)) == Quantity(m)
    ensures forall u | IsUnit(u) && u != UnitOf(m) :: Field(ApplyMatch(p, m), u) == Field(p, u)
  {
  }

  /* ---------- Texts without a match ---------- */

  /** The pattern needs a digit, so it matches nowhere in a text without one. */
  lemma NoDigitNoMatch(s: string, p: nat)
    requires p <= |s|
    requires forall k | 0 <= k < |s| :: !IsDigit(s[k])
    ensures MatchAt(s, p).None?
  {
  }

  /** A text without a digit (among them `undefined`, read as the word "undefined",
      and the empty text) sets no field at all. */
  lemma NoDigitNoFields(s: string)
    requires forall k | 0 <= k < |s| :: !IsDigit(s[k])
    ensures Matches(s, 0) == []
    ensures ParseSpec(s) == NoFields
  {
    ExecLeftmost(s, 0);
    if Exec(s, 0).Some? {
      NoDigitNoMatch(s, Exec(s, 0).value.index);
    }
  }

  lemma UndefinedSetsNoField()
    ensures ParseSpec(JsString(None)) == NoFields
  {
    var s := JsString(None);
    assert forall k | 0 <= k < |s| :: !IsDigit(s[k]);
    NoDigitNoFields(s);
  }

  /* ---------- The unreachable age ---------- */

  lemma {:induction false} SkipDigitsRun(s: string, i: nat, j: nat)
    requires i <= j <= |s|
    requires forall k | i <= k < j :: IsDigit(s[k])
    requires j == |s| || !IsDigit(s[j])
    ensures SkipDigits(s, i) == j
    decreases j - i
  {
    if i < j {
      SkipDigitsRun(s, i + 1, j);
    }
  }

  /** Greedy `\s*` from `i` stops at `j` when white space runs up to `j` and `j` is the
      end or not white space. */
  lemma {:induction false} SkipSpacesRun(s: string, i: nat, j: nat)
    requires i <= j <= |s|
    requires forall k | i <= k < j :: IsSpace(s[k])
    requires j == |s| || !IsSpace(s[j])
    ensures SkipSpaces(s, i) == j
    decreases j - i
  {
    if i < j {
      SkipSpacesRun(s, i + 1, j);
    }
  }

  /* ---------- Texts the pattern matches ---------- */

  /** `s` from `p` has the shape line 33 describes: white space up to `q0`, an optional
      sign up to `signEnd`, white space up to `d0`, digits up to `d1`, white space up to
      `u0`, and a unit letter d, w, m or y in either case at `u0`. */
  predicate QuantityUnitShape(s: string, p: nat, q0: nat, signEnd: nat, d0: nat, d1: nat, u0: nat) {
    && p <= q0 <= signEnd <= d0 < d1 <= u0 < |s|
    && (forall k | p <= k < q0 :: IsSpace(s[k]))
    && !IsSpace(s[q0])
    && (signEnd == q0 || (signEnd == q0 + 1 && (s[q0] == '+' || s[q0] == '-')))
    && (forall k | signEnd <= k < d0 :: IsSpace(s[k]))
    && (forall k | d0 <= k < d1 :: IsDigit(s[k]))
    && (forall k | d1 <= k < u0 :: IsSpace(s[k]))
    && IsUnitLetter(s[u0])
  }

  /** Every text of that shape is matched at `p`: a signed or unsigned quantity, with any
      white space around the sign, followed by a unit letter of either case. The match's
      quantity is the signed value of the digits and its unit the upper-cased letter. */
  lemma MatchOfShape(s: string, p: nat, q0: nat, signEnd: nat, d0: nat, d1: nat, u0: nat)
    requires QuantityUnitShape(s, p, q0, signEnd, d0, d1, u0)
    ensures MatchAt(s, p).Some?
    ensures Quantity(MatchAt(s, p).value) == Some(Signed(signEnd > q0 && s[q0] == '-', DigitsValue(s[d0..d1])))
    ensures UnitOf(MatchAt(s, p).value) == UpperAscii(s[u0])
  {
    MatchAtOfShape(s, p, q0, signEnd, d0, d1, u0);
    QuantityOfShape(s, q0, signEnd, d0, d1);
  }

  /** The greedy path meets the positions of the shape. */
  lemma MatchAtOfShape(s: string, p: nat, q0: nat, signEnd: nat, d0: nat, d1: nat, u0: nat)
    requires QuantityUnitShape(s, p, q0, signEnd, d0, d1, u0)
    ensures MatchAt(s, p) == Some(UnitMatch(s, p, q0, d1, u0))
  {
    ShapePositions(s, p, q0, signEnd, d0, d1, u0);
  }

  /** Each greedy step of line 33 stops where the shape says. */
  lemma ShapePositions(s: string, p: nat, q0: nat, signEnd: nat, d0: nat, d1: nat, u0: nat)
    requires QuantityUnitShape(s, p, q0, signEnd, d0, d1, u0)
    ensures SkipSpaces(s, p) == q0 && SignEnd(s, q0) == signEnd && SkipSpaces(s, signEnd) == d0
    ensures SkipDigits(s, d0) == d1 && SkipSpaces(s, d1) == u0
  {
    SkipSpacesRun(s, p, q0);
    assert IsDigit(s[d0]);
    assert signEnd < d0 ==> IsSpace(s[signEnd]);
    SkipSpacesRun(s, signEnd, d0);
    assert d1 < u0 ==> IsSpace(s[d1]);
    SkipDigitsRun(s, d0, d1);
    SkipSpacesRun(s, d1, u0);
  }

  /** The first group of a match of that shape is read as the signed digits. */
  lemma QuantityOfShape(s: string, q0: nat, signEnd: nat, d0: nat, d1: nat)
    requires q0 <= signEnd <= d0 < d1 <= |s|
    requires signEnd == q0 || (signEnd == q0 + 1 && (s[q0] == '+' || s[q0] == '-'))
    requires forall k | signEnd <= k < d0 :: IsSpace(s[k])
    requires forall k | d0 <= k < d1 :: IsDigit(s[k])
    ensures ParseInt(RemoveSpaces(s[q0..d1])) == Some(Signed(signEnd > q0 && s[q0] == '-', DigitsValue(s[d0..d1])))
  {
    var sign, gap, digits := s[q0..signEnd], s[signEnd..d0], s[d0..d1];
    assert s[q0..d1] == sign + gap + digits;
    assert sign == "" || sign == "+" || sign == "-";
    RemoveSpacesOfParts(sign, gap, digits);
    ParseIntOfSignedDigits(sign, digits);
  }

  /** The pattern finds nothing at the end of the text. */
  lemma ExecAtEnd(s: string)
    ensures Exec(s, |s|).None?
  {
    var n := |s|;
    assert SkipSpaces(s, n) == n && SignEnd(s, n) == n && SkipDigits(s, n) == n;
    assert MatchAt(s, n).None?;
    ExecLeftmost(s, n);
  }

  /** A number written in digits followed by " years" is one match, of the unit Y, whose
      quantity is that number. */
  lemma YearsText(d: string)
    requires |d| > 0 && forall k | 0 <= k < |d| :: IsDigit(d[k])
    ensures ParseSpec(d + " years") == ParsedSpan(None, None, None, Some(DigitsValue(d)))
  {
    var m := RegexMatch(0, |d| + 6, d, "years");
    YearsTextMatches(d);
    var q := DigitsQuantity(d, m);
    assert ApplyAll(NoFields, [m]) == ApplyMatch(NoFields, m) by {
      assert [m][1..] == [];
    }
    WriteYears(NoFields, m);
  }

  lemma YearsTextMatches(d: string)
    requires |d| > 0 && forall k | 0 <= k < |d| :: IsDigit(d[k])
    ensures Matches(d + " years", 0) == [RegexMatch(0, |d| + 6, d, "years")]
  {
    var s := d + " years";
    var m := RegexMatch(0, |s|, d, "years");
    YearsTextMatch(d);
    ExecAtStart(s);
    ExecAtEnd(s);
    assert Matches(s, |s|) == [];
  }

  /** When the pattern matches at the start, `exec` from the start reports that match. */
  lemma ExecAtStart(s: string)
    requires MatchAt(s, 0).Some?
    ensures Exec(s, 0) == MatchAt(s, 0)
  {
    assert Matchable(s, 0);
  }

  lemma DigitsQuantity(d: string, m: RegexMatch) returns (q: int)
    requires |d| > 0 && forall k | 0 <= k < |d| :: IsDigit(d[k])
    requires m.quantityText == d
    ensures q == DigitsValue(d) && Quantity(m) == Some(q)
  {
    RemoveSpacesKeeps(d);
    ParseIntOfSignedDigits("", d);
    assert "" + d == d;
    q := DigitsValue(d);
  }

  lemma WriteYears(p: ParsedSpan, m: RegexMatch)
    requires |m.unitText| > 0 && m.unitText[0] == 'y'
    ensures ApplyMatch(p, m) == p.(years := Quantity(m))
  {
  }

  lemma YearsTextMatch(d: string)
    requires |d| > 0 && forall k | 0 <= k < |d| :: IsDigit(d[k])
    ensures MatchAt(d + " years", 0) == Some(RegexMatch(0, |d| + 6, d, "years"))
  {
    var s := d + " years";
    var n := |d|;
    assert s[0] == d[0];
    assert SkipSpaces(s, 0) == 0;
    assert SignEnd(s, 0) == 0;
    SkipDigitsRun(s, 0, n);
    assert SkipSpaces(s, n + 1) == n + 1;
    assert SkipSpaces(s, n) == n + 1;
    assert IsUnitLetter(s[n + 1]);
    assert HasWordAt(s, n + 2, "ears");
    assert UnitEnd(s, n + 1) == n + 6;
    assert SkipSpaces(s, n + 6) == n + 6;
    assert s[0..n] == d && s[n + 1..n + 6] == "years";
  }

  /** The text of `TimeSpan.UNREACHABLE_AGE` (line 127). */
  const UnreachableAgeText: string := "999 years"

  /** "999 years" is one match, of the unit Y with quantity 999. */
  lemma UnreachableAgeParse()
    ensures ParseSpec(UnreachableAgeText) == ParsedSpan(None, None, None, Some(999))
  {
    NineHundredNinetyNine();
    YearsText("999");
  }

  lemma NineHundredNinetyNine()
    ensures "999" + " years" == UnreachableAgeText
    ensures DigitsValue("999") == 999
  {
    assert "999"[..2] == "99" && "99"[..1] == "9" && "9"[..0] == "";
  }
}
