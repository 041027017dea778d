/**
  The timestamp codec of `src/analytics.ts`: the colon-delimited wire form
  `Y:M:D:H:MM:SS.:mmm` used as record keys, its parser, the sortable
  14-digit form used for range queries, and the timestamp sort.
 */
module Timestamp {
  import opened Wrappers
  import opened Text
  import opened Calendar

  /** The year `new Date(y, ...)` stores: years 0-99 are read as 1900-1999. */
  function FullYear(y: nat): nat {
    if y <= 99 then 1900 + y else y
  }

  /**
    `new Date(y, m, d, h, mi, s, ms)`. Components outside their calendar
    range, which `Date` would silently carry into the neighbouring unit,
    are left out of the model and give `None`.
   */
  function MakeDate(y: nat, m: int, d: nat, h: nat, mi: nat, s: nat, ms: nat): (r: Option<Instant>)
    ensures r.Some? <==> Valid(Instant(FullYear(y), m, d, h, mi, s, ms))
    ensures r.Some? ==> Valid(r.value) && 100 <= r.value.year
    ensures r.Some? ==> r.value == Instant(FullYear(y), m, d, h, mi, s, ms)
  {
    var t := Instant(FullYear(y), m, d, h, mi, s, ms);
    if Valid(t) then Some(t) else None
  }

  /**
    `ParseTimestamp`: split on ':' into at least six sections, split the
    sixth on '.', and convert each field with unary `+`; the month is
    1-based in the text. Only `second[1]`, the text between the first and
    second '.' of the sixth section, is read as milliseconds: in the wire
    form `S.:mmm` that text is empty, so the milliseconds (which sit in
    the seventh section) are never read and the result has `ms == 0`.
    `None` stands for the source's `TypeError` (fewer than six sections)
    and `Invalid Date` (no '.', a non-numeric field, or a field out of
    range).
   */
  function ParseTimestamp(text: string): (r: Option<Instant>)
    ensures r.Some? ==> Valid(r.value) && 100 <= r.value.year
    ensures |Split(text, ':')| < 6 ==> r.None?
  {
    var sections := Split(text, ':');
    if |sections| < 6 then None
    else
      var second := Split(sections[5], '.');
      if |second| < 2 then None
      else
        var year :- ToNumber(sections[0]);
        var month :- ToNumber(sections[1]);
        var day :- ToNumber(sections[2]);
        var hour :- ToNumber(sections[3]);
        var minute :- ToNumber(sections[4]);
        var sec :- ToNumber(second[0]);
        var ms :- ToNumber(second[1]);
        MakeDate(year, month - 1, day, hour, minute, sec, ms)
  }

  /** `DateToTimestamp`: the wire form `Y:M:D:H:Mi:S.:ms`, unpadded, with a 1-based month. */
  function DateToTimestamp(t: Instant): string
    requires Valid(t)
  {
    Join([NatToString(t.year), NatToString(t.month + 1), NatToString(t.day), NatToString(t.hour),
          NatToString(t.minute), NatToString(t.second) + ".", NatToString(t.ms)], ':')
  }

  lemma DigitsHaveNo(s: string, c: char)
    requires AllDigits(s) && !IsDigit(c)
    ensures c !in s
  {
  }

  /** The seven pieces `DateToTimestamp` joins, and how `ParseTimestamp` re-splits them. */
  lemma SplitWireForm(t: Instant)
    requires Valid(t)
    ensures var sections := Split(DateToTimestamp(t), ':');
      && |sections| == 7
      && sections[0] == NatToString(t.year) && sections[1] == NatToString(t.month + 1)
      && sections[2] == NatToString(t.day) && sections[3] == NatToString(t.hour)
      && sections[4] == NatToString(t.minute)
      && sections[5] == NatToString(t.second) + "." && sections[6] == NatToString(t.ms)
      && Split(sections[5], '.') == [NatToString(t.second), []]
  {
    var parts := [NatToString(t.year), NatToString(t.month + 1), NatToString(t.day), NatToString(t.hour),
                  NatToString(t.minute), NatToString(t.second) + ".", NatToString(t.ms)];
    forall i | 0 <= i < |parts|
      ensures ':' !in parts[i]
    {
      if i == 5 {
        DigitsHaveNo(NatToString(t.second), ':');
        assert parts[5] == NatToString(t.second) + ['.'];
      } else {
        DigitsHaveNo(parts[i], ':');
      }
    }
    SplitJoin(parts, ':');
    var s := NatToString(t.second);
    DigitsHaveNo(s, '.');
    SplitAtFirstSeparator(s, '.', []);
    assert s + ['.'] + [] == s + ".";
  }

  /** Each field `DateToTimestamp` wrote is read back; the milliseconds are read as 0. */
  lemma ParseWireFields(t: Instant)
    requires Valid(t)
    ensures ParseTimestamp(DateToTimestamp(t)) == MakeDate(t.year, t.month, t.day, t.hour, t.minute, t.second, 0)
  {
    SplitWireForm(t);
    ToNumberOfNatToString(t.year);
    ToNumberOfNatToString(t.month + 1);
    ToNumberOfNatToString(t.day);
    ToNumberOfNatToString(t.hour);
    ToNumberOfNatToString(t.minute);
    ToNumberOfNatToString(t.second);
  }

  /**
    Parsing what `DateToTimestamp` wrote gives back the year, month, day,
    hour, minute and second, with the milliseconds dropped to 0.
   */
  lemma ParseDateToTimestamp(t: Instant)
    requires Valid(t) && 100 <= t.year
    ensures ParseTimestamp(DateToTimestamp(t)) == Some(t.(ms := 0))
  {
    ParseWireFields(t);
  }

  /**
    Years 0-99 do not survive the round trip: `Date` reads them as
    1900-1999, and 29 February of year 0 (a leap year) has no counterpart
    in 1900 (not a leap year).
   */
  lemma ParseTwoDigitYear(t: Instant)
    requires Valid(t) && t.year < 100
    ensures ParseTimestamp(DateToTimestamp(t)) ==
      if t.year == 0 && t.month == 1 && t.day == 29 then None
      else Some(t.(year := t.year + 1900, ms := 0))
  {
    ParseWireFields(t);
    TwoDigitYearDate(t);
  }

  /** The year 1900 + y, for y below 100, is a leap year exactly when y is one and is not 0. */
  lemma TwentiethCenturyLeap(y: nat)
    requires y < 100
    ensures IsLeapYear(y + 1900) <==> IsLeapYear(y) && y != 0
  {
    assert (y + 1900) % 4 == y % 4;
    assert (y + 1900) % 100 == y;
    assert (y + 1900) % 400 == y + 300;
    assert y % 100 == y;
  }

  lemma TwoDigitYearDate(t: Instant)
    requires Valid(t) && t.year < 100
    ensures MakeDate(t.year, t.month, t.day, t.hour, t.minute, t.second, 0) ==
      if t.year == 0 && t.month == 1 && t.day == 29 then None
      else Some(t.(year := t.year + 1900, ms := 0))
  {
    TwentiethCenturyLeap(t.year);
    var u := Instant(t.year + 1900, t.month, t.day, t.hour, t.minute, t.second, 0);
    assert DaysInMonth(u.year, u.month) == DaysInMonth(t.year, t.month) - (if t.year == 0 && t.month == 1 then 1 else 0);
    assert u == t.(year := t.year + 1900, ms := 0);
  }

  /** `String(n).padStart(2, '0')` for a field below 100: exactly two digits. */
  function PadTwo(n: nat): (s: string)
    requires n < 100
    ensures s == Digits(n, 2)
  {
    PadTwoIsDigits(n);
    PadStart(NatToString(n), 2, '0')
  }

  /** The strings `FormatTime` returns. */
  datatype TimeFields = TimeFields(year: string, month: string, day: string, hour: string, minutes: string, seconds: string)

  /** `FormatTime`: the year unpadded, every other field zero-padded to two digits, month 1-based. */
  function FormatTime(t: Instant): (f: TimeFields)
    requires Valid(t)
    ensures AllDigits(f.year) && DigitsToNat(f.year) == t.year
    ensures 1 <= |f.year| && (f.year[0] == '0' ==> |f.year| == 1)
    ensures f.month == Digits(t.month + 1, 2) && f.day == Digits(t.day, 2)
    ensures f.hour == Digits(t.hour, 2) && f.minutes == Digits(t.minute, 2) && f.seconds == Digits(t.second, 2)
  {
    DigitsToNatOfNatToString(t.year);
    TimeFields(NatToString(t.year), PadTwo(t.month + 1), PadTwo(t.day), PadTwo(t.hour),
               PadTwo(t.minute), PadTwo(t.second))
  }

  /** `FormatTimeToScore`: the six fields of `FormatTime` concatenated. */
  function FormatTimeToScore(t: Instant): (s: string)
    requires Valid(t)
    ensures AllDigits(s)
    ensures |s| == |NatToString(t.year)| + 10
  {
    var f := FormatTime(t);
    f.year + f.month + f.day + f.hour + f.minutes + f.seconds
  }

  /** The sortable form has no ':' at all, so `ParseTimestamp` rejects it. */
  lemma ScoreIsNotWireForm(t: Instant)
    requires Valid(t)
    ensures ParseTimestamp(FormatTimeToScore(t)) == None
  {
    var s := FormatTimeToScore(t);
    DigitsHaveNo(s, ':');
    SplitWithoutSeparator(s, ':');
  }

  /** Year in 1000-9999: the sortable form then has exactly 14 digits. */
  predicate FourDigitYear(t: Instant) {
    1000 <= t.year <= 9999
  }

  lemma YearDigits(t: Instant)
    requires Valid(t) && FourDigitYear(t)
    ensures FormatTime(t).year == Digits(t.year, 4)
  {
    assert Pow10(3) == 1000 && Pow10(4) == 10000;
    NatToStringIsDigits(t.year, 4);
  }

  /** One more fixed-width number field appended on both sides of a comparison. */
  lemma AppendDigits(a: string, b: string, n: nat, m: nat, w: nat)
    requires |a| == |b| && n < Pow10(w) && m < Pow10(w)
    ensures LexLess(a + Digits(n, w), b + Digits(m, w)) <==> LexLess(a, b) || (a == b && n < m)
    ensures a + Digits(n, w) == b + Digits(m, w) <==> a == b && n == m
  {
    DigitsOrder(n, m, w);
    ConcatCompare(a, Digits(n, w), b, Digits(m, w));
  }

  /** Every field of `t` fits the width the sortable form gives it. */
  predicate ScoreFields(t: Instant) {
    && FourDigitYear(t)
    && 0 <= t.month < 99 && 0 <= t.day < 100
    && 0 <= t.hour < 100 && 0 <= t.minute < 100 && 0 <= t.second < 100
  }

  /** The first six digits of the sortable form: `YYYYMM`. */
  function MonthDigits(t: Instant): string
    requires ScoreFields(t)
  {
    Digits(t.year, 4) + Digits(t.month + 1, 2)
  }

  /** The date half of the sortable form: `YYYYMMDD`. */
  function DateDigits(t: Instant): string
    requires ScoreFields(t)
  {
    MonthDigits(t) + Digits(t.day, 2)
  }

  function ScoreDigits(t: Instant): string
    requires ScoreFields(t)
  {
    DateDigits(t) + Digits(t.hour, 2) + Digits(t.minute, 2) + Digits(t.second, 2)
  }

  lemma ScoreIsScoreDigits(t: Instant)
    requires Valid(t) && FourDigitYear(t)
    ensures FormatTimeToScore(t) == ScoreDigits(t)
  {
    YearDigits(t);
  }

  lemma MonthDigitsOrder(a: Instant, b: Instant)
    requires ScoreFields(a) && ScoreFields(b)
    ensures LexLess(MonthDigits(a), MonthDigits(b)) <==> a.year < b.year || (a.year == b.year && a.month < b.month)
    ensures MonthDigits(a) == MonthDigits(b) <==> a.year == b.year && a.month == b.month
  {
    var a1, b1 := Digits(a.year, 4), Digits(b.year, 4);
    assert (LexLess(a1, b1) <==> a.year < b.year) && (a1 == b1 <==> a.year == b.year) by {
      assert Pow10(4) == 10000;
      DigitsOrder(a.year, b.year, 4);
    }
    assert Pow10(2) == 100;
    AppendDigits(a1, b1, a.month + 1, b.month + 1, 2);
  }

  lemma DateDigitsOrder(a: Instant, b: Instant)
    requires ScoreFields(a) && ScoreFields(b)
    ensures LexLess(DateDigits(a), DateDigits(b)) <==> DateBefore(a.year, a.month, a.day, b.year, b.month, b.day)
    ensures DateDigits(a) == DateDigits(b) <==> a.year == b.year && a.month == b.month && a.day == b.day
  {
    MonthDigitsOrder(a, b);
    assert Pow10(2) == 100;
    AppendDigits(MonthDigits(a), MonthDigits(b), a.day, b.day, 2);
  }

  lemma ScoreDigitsOrder(a: Instant, b: Instant)
    requires ScoreFields(a) && ScoreFields(b)
    ensures LexLess(ScoreDigits(a), ScoreDigits(b)) <==> Before(a.(ms := 0), b.(ms := 0))
    ensures ScoreDigits(a) == ScoreDigits(b) <==> a.(ms := 0) == b.(ms := 0)
  {
    assert Pow10(2) == 100;
    DateDigitsOrder(a, b);
    var a3, b3 := DateDigits(a), DateDigits(b);
    AppendDigits(a3, b3, a.hour, b.hour, 2);
    var a4, b4 := a3 + Digits(a.hour, 2), b3 + Digits(b.hour, 2);
    AppendDigits(a4, b4, a.minute, b.minute, 2);
    var a5, b5 := a4 + Digits(a.minute, 2), b4 + Digits(b.minute, 2);
    AppendDigits(a5, b5, a.second, b.second, 2);
  }

  /**
    For four-digit years the sortable form is 14 digits long and its string
    order is the chronological order of the instants to the second: the
    milliseconds are not part of it.
   */
  lemma ScoreOrder(a: Instant, b: Instant)
    requires Valid(a) && Valid(b) && FourDigitYear(a) && FourDigitYear(b)
    ensures |FormatTimeToScore(a)| == 14
    ensures LexLess(FormatTimeToScore(a), FormatTimeToScore(b)) <==> Before(a.(ms := 0), b.(ms := 0))
    ensures FormatTimeToScore(a) == FormatTimeToScore(b) <==> a.(ms := 0) == b.(ms := 0)
  {
    ScoreIsScoreDigits(a);
    ScoreIsScoreDigits(b);
    ScoreDigitsOrder(a, b);
  }

  predicate Parses(text: string) {
    ParseTimestamp(text).Some?
  }

  function InstantOf(text: string): (t: Instant)
    requires Parses(text)
    ensures Valid(t) && 100 <= t.year
  {
    ParseTimestamp(text).value
  }

  /**
    The comparator `SortTimestamps` hands to `Array.prototype.sort`: -1
    when `a` parses strictly earlier than `b`, and 1 otherwise.
   */
  function Comparator(a: string, b: string): (r: int)
    requires Parses(a) && Parses(b)
    ensures r == -1 || r == 1
  {
    if Before(InstantOf(a), InstantOf(b)) then -1 else 1
  }

  /**
    The comparator is antisymmetric on distinct instants but never reports
    equality: for two texts naming the same instant each is "greater" than
    the other, so their relative order after sorting is unspecified.
   */
  lemma ComparatorTies(a: string, b: string)
    requires Parses(a) && Parses(b)
    ensures InstantOf(a) != InstantOf(b) ==> Comparator(a, b) == -Comparator(b, a)
    ensures InstantOf(a) == InstantOf(b) <==> Comparator(a, b) == 1 && Comparator(b, a) == 1
  {
    BeforeIsStrictTotalOrder(InstantOf(a), InstantOf(b), InstantOf(a));
  }

  predicate AllParse(texts: seq<string>) {
    forall i :: 0 <= i < |texts| ==> Parses(texts[i])
  }

  /** Every text parses and the parsed instants never decrease. */
  predicate SortedByInstant(texts: seq<string>) {
    && AllParse(texts)
    && forall i, j :: 0 <= i < j < |texts| ==> NotAfter(InstantOf(texts[i]), InstantOf(texts[j]))
  }

  /** The keys of `s` never decrease. */
  predicate SortedOn<T>(s: seq<T>, key: T -> Instant) {
    forall i, j :: 0 <= i < j < |s| ==> NotAfter(key(s[i]), key(s[j]))
  }

  /** Every element of `s` has a key at or after `k`. */
  predicate NoneBefore<T>(k: Instant, s: seq<T>, key: T -> Instant) {
    forall j :: 0 <= j < |s| ==> NotAfter(k, key(s[j]))
  }

  lemma PrependSorted<T>(x: T, s: seq<T>, key: T -> Instant)
    requires SortedOn(s, key) && NoneBefore(key(x), s, key)
    ensures SortedOn([x] + s, key)
  {
    var r := [x] + s;
    assert forall j :: 1 <= j < |r| ==> r[j] == s[j - 1];
  }

  lemma NoneBeforeTransitive<T>(x: T, s: seq<T>, key: T -> Instant)
    requires SortedOn(s, key) && 0 < |s| && Before(key(x), key(s[0]))
    ensures NoneBefore(key(x), s, key)
  {
    forall j | 0 <= j < |s|
      ensures NotAfter(key(x), key(s[j]))
    {
      BeforeIsStrictTotalOrder(key(x), key(s[0]), key(s[j]));
    }
  }

  lemma NoneBeforeOfMultiset<T>(k: Instant, s: seq<T>, t: seq<T>, y: T, key: T -> Instant)
    requires NoneBefore(k, s, key) && NotAfter(k, key(y))
    requires multiset(t) == multiset(s) + multiset{y}
    ensures NoneBefore(k, t, key)
  {
    forall j | 0 <= j < |t|
      ensures NotAfter(k, key(t[j]))
    {
      assert t[j] in multiset(t);
      if t[j] != y {
        assert t[j] in multiset(s);
        var i :| 0 <= i < |s| && s[i] == t[j];
      }
    }
  }

  /**
    One insertion step: `x` goes before the first element whose key it is
    strictly before, that is, where the comparator returns -1.
   */
  function InsertOn<T>(x: T, sorted: seq<T>, key: T -> Instant): (r: seq<T>)
    requires SortedOn(sorted, key)
    ensures multiset(r) == multiset(sorted) + multiset{x}
    ensures SortedOn(r, key)
    decreases |sorted|
  {
    if |sorted| == 0 then [x]
    else if Before(key(x), key(sorted[0])) then
      NoneBeforeTransitive(x, sorted, key);
      PrependSorted(x, sorted, key);
      [x] + sorted
    else
      var head, tail := sorted[0], sorted[1..];
      assert sorted == [head] + tail;
      var rest := InsertOn(x, tail, key);
      assert NoneBefore(key(head), tail, key);
      BeforeIsStrictTotalOrder(key(x), key(head), key(x));
      NoneBeforeOfMultiset(key(head), tail, rest, x, key);
      PrependSorted(head, rest, key);
      [head] + rest
  }

  /** Insertion sort by key: a permutation whose keys never decrease. */
  function SortOn<T>(s: seq<T>, key: T -> Instant): (r: seq<T>)
    ensures multiset(r) == multiset(s)
    ensures SortedOn(r, key)
    decreases |s|
  {
    if |s| == 0 then []
    else
      assert s == [s[0]] + s[1..];
      InsertOn(s[0], SortOn(s[1..], key), key)
  }

  /**
    The instant the comparator compares a text by. Only texts that parse
    are ever sorted, so the fallback for the others is never looked at.
   */
  function SortKey(text: string): Instant {
    if Parses(text) then InstantOf(text) else Instant(1970, 0, 1, 0, 0, 0, 0)
  }

  /**
    `SortTimestamps`: a permutation of the input whose parsed instants are
    non-decreasing. Texts naming the same instant may come out in any
    order (see `ComparatorTies`).
   */
  function SortTimestamps(texts: seq<string>): (r: seq<string>)
    requires AllParse(texts)
    ensures multiset(r) == multiset(texts)
    ensures SortedByInstant(r)
    ensures forall i, j :: 0 <= i < j < |r| ==> Comparator(r[j], r[i]) == 1
  {
    var r := SortOn(texts, SortKey);
    assert AllParse(r) by {
      forall i | 0 <= i < |r|
        ensures Parses(r[i])
      {
        assert r[i] in multiset(texts);
      }
    }
    r
  }
}
