/**
  The time bucketers of `src/analytics.ts`, `GetDailyReports` and
  `GetHourlyReports`. Both widen the interval to whole units (the start
  down to the beginning of its day or hour, the end up to its last
  second), walk from the first unit to the last creating an empty bucket
  per unit, then file every report inside the widened interval under the
  key of its own unit. Keys are the (year, month, day[, hour]) tuples;
  `FormatKey` renders them as the source's `YYYY/MM/DD[/HH]` strings.
 */
module Buckets {
  import opened Wrappers
  import opened Text
  import opened Calendar
  import opened Timestamp
  import opened OrderedMap
  import opened Reports

  datatype Granularity = Daily | Hourly

  /** A bucket key: a calendar day, or one hour of a calendar day. Months are 0-based. */
  datatype Key = DayKey(year: int, month: int, day: int) | HourKey(year: int, month: int, day: int, hour: int)

  /** A real calendar day, and for an hour key a real hour. */
  predicate WellFormed(k: Key) {
    ValidDate(k.year, k.month, k.day) && (k.HourKey? ==> 0 <= k.hour < 24)
  }

  /** A well-formed key of granularity `g`. */
  predicate ValidKey(g: Granularity, k: Key) {
    WellFormed(k) && (g == Daily <==> k.DayKey?)
  }

  /** The key of the unit holding `t`. */
  function KeyOf(g: Granularity, t: Instant): (k: Key)
    requires Valid(t)
    ensures ValidKey(g, k)
  {
    match g
    case Daily => DayKey(t.year, t.month, t.day)
    case Hourly => HourKey(t.year, t.month, t.day, t.hour)
  }

  /** Keys numbered consecutively: days since 0000-01-01, or hours since its midnight. */
  function KeyNumber(k: Key): int
    requires WellFormed(k)
  {
    match k
    case DayKey(y, m, d) => DayNumber(y, m, d)
    case HourKey(y, m, d, h) => HourNumber(Instant(y, m, d, h, 0, 0, 0))
  }

  function UnitNumber(g: Granularity, t: Instant): int
    requires Valid(t)
  {
    KeyNumber(KeyOf(g, t))
  }

  /** Chronological order on keys of one granularity. */
  predicate KeyBefore(a: Key, b: Key) {
    || DateBefore(a.year, a.month, a.day, b.year, b.month, b.day)
    || ((a.year, a.month, a.day) == (b.year, b.month, b.day) && a.HourKey? && b.HourKey? && a.hour < b.hour)
  }

  /** Key numbers order keys chronologically, and number distinct keys differently. */
  lemma KeyNumberOrder(g: Granularity, a: Key, b: Key)
    requires ValidKey(g, a) && ValidKey(g, b)
    ensures KeyBefore(a, b) <==> KeyNumber(a) < KeyNumber(b)
    ensures a == b <==> KeyNumber(a) == KeyNumber(b)
  {
    DayNumberOrder(a.year, a.month, a.day, b.year, b.month, b.day);
    DayNumberOrder(b.year, b.month, b.day, a.year, a.month, a.day);
  }

  /** A later instant never lies in an earlier unit. */
  lemma UnitOrder(g: Granularity, a: Instant, b: Instant)
    requires Valid(a) && Valid(b)
    ensures Before(a, b) ==> UnitNumber(g, a) <= UnitNumber(g, b)
  {
    DayNumberOrder(a.year, a.month, a.day, b.year, b.month, b.day);
  }

  /** `lo <= t` implies the unit of `lo` is not after the unit of `t`. */
  lemma NotAfterUnits(g: Granularity, a: Instant, b: Instant)
    requires Valid(a) && Valid(b) && NotAfter(a, b)
    ensures UnitNumber(g, a) <= UnitNumber(g, b)
  {
    BeforeIsStrictTotalOrder(a, b, a);
    UnitOrder(g, a, b);
  }

  /** The first instant the walk visits in a unit: minutes and seconds (and, by day, hours) zero. */
  predicate AtUnitStart(g: Granularity, t: Instant) {
    t.minute == 0 && t.second == 0 && (g == Daily ==> t.hour == 0)
  }

  /** The last second of a unit: `59:59`, and by day also hour 23. */
  predicate AtUnitEnd(g: Granularity, t: Instant) {
    t.minute == 59 && t.second == 59 && (g == Daily ==> t.hour == 23)
  }

  /**
    `setHours(0)` (by day), `setMinutes(0)`, `setSeconds(0)`: the start of
    the unit, with the milliseconds left as they were.
   */
  function Floor(g: Granularity, t: Instant): (r: Instant)
    requires Valid(t)
    ensures Valid(r) && AtUnitStart(g, r) && r.ms == t.ms
    ensures KeyOf(g, r) == KeyOf(g, t)
    ensures NotAfter(r, t)
  {
    match g
    case Daily => t.(hour := 0, minute := 0, second := 0)
    case Hourly => t.(minute := 0, second := 0)
  }

  /**
    `setHours(23)` (by day), `setMinutes(59)`, `setSeconds(59)`: the last
    second of the unit, with the milliseconds left as they were.
   */
  function Ceil(g: Granularity, t: Instant): (r: Instant)
    requires Valid(t)
    ensures Valid(r) && AtUnitEnd(g, r) && r.ms == t.ms
    ensures KeyOf(g, r) == KeyOf(g, t)
    ensures NotAfter(t, r)
  {
    match g
    case Daily => t.(hour := 23, minute := 59, second := 59)
    case Hourly => t.(minute := 59, second := 59)
  }

  /** `setDate(getDate() + 1)` or `setHours(getHours() + 1)`: the same place in the next unit. */
  function Step(g: Granularity, t: Instant): (r: Instant)
    requires Valid(t)
    ensures Valid(r) && UnitNumber(g, r) == UnitNumber(g, t) + 1
    ensures AtUnitStart(g, t) ==> AtUnitStart(g, r)
  {
    match g
    case Daily => NextDay(t)
    case Hourly => NextHour(t)
  }

  /**
    The loop test `cursor <= endDate` with the cursor at the start of a
    unit and the end at the last second of one: it holds exactly while
    the cursor's unit is not after the end's unit, whatever the
    milliseconds.
   */
  lemma CursorCondition(g: Granularity, c: Instant, e: Instant)
    requires Valid(c) && Valid(e) && AtUnitStart(g, c) && AtUnitEnd(g, e)
    ensures NotAfter(c, e) <==> UnitNumber(g, c) <= UnitNumber(g, e)
  {
    UnitOrder(g, c, e);
    UnitOrder(g, e, c);
    KeyNumberOrder(g, KeyOf(g, c), KeyOf(g, e));
    BeforeIsStrictTotalOrder(c, e, c);
  }

  /**
    The pre-fill loop: the key of every unit from the cursor's to the
    end's, one unit per step. No keys when the end's unit comes first.
   */
  function Walk(g: Granularity, cursor: Instant, last: Instant): (ks: seq<Key>)
    requires Valid(cursor) && Valid(last) && AtUnitStart(g, cursor) && AtUnitEnd(g, last)
    ensures |ks| == if UnitNumber(g, cursor) <= UnitNumber(g, last)
                    then UnitNumber(g, last) - UnitNumber(g, cursor) + 1 else 0
    ensures forall i :: 0 <= i < |ks| ==> ValidKey(g, ks[i]) && KeyNumber(ks[i]) == UnitNumber(g, cursor) + i
    decreases UnitNumber(g, last) + 1 - UnitNumber(g, cursor)
  {
    CursorCondition(g, cursor, last);
    if NotAfter(cursor, last) then [KeyOf(g, cursor)] + Walk(g, Step(g, cursor), last) else []
  }

  /** Keys numbered `n, n + 1, ...` are distinct. */
  lemma ConsecutiveKeysDistinct(g: Granularity, ks: seq<Key>, n: int)
    requires forall i :: 0 <= i < |ks| ==> ValidKey(g, ks[i]) && KeyNumber(ks[i]) == n + i
    ensures Distinct(ks)
  {
    forall i, j | 0 <= i < j < |ks|
      ensures ks[i] != ks[j]
    {
      KeyNumberOrder(g, ks[i], ks[j]);
    }
  }

  /** The walk reaches the unit of `t` exactly when it lies between the first unit and the last. */
  lemma WalkCovers(g: Granularity, lo: Instant, hi: Instant, t: Instant)
    requires Valid(lo) && Valid(hi) && AtUnitStart(g, lo) && AtUnitEnd(g, hi) && Valid(t)
    ensures KeyOf(g, t) in Walk(g, lo, hi) <==> UnitNumber(g, lo) <= UnitNumber(g, t) <= UnitNumber(g, hi)
  {
    var ks := Walk(g, lo, hi);
    if KeyOf(g, t) in ks {
      var i :| 0 <= i < |ks| && ks[i] == KeyOf(g, t);
    }
    if UnitNumber(g, lo) <= UnitNumber(g, t) <= UnitNumber(g, hi) {
      var i := UnitNumber(g, t) - UnitNumber(g, lo);
      KeyNumberOrder(g, ks[i], KeyOf(g, t));
    }
  }

  /** The reports inside `[lo, hi]`, in order, each paired with the key of its own unit. */
  function Keyed(g: Granularity, s: seq<Stamped>, lo: Instant, hi: Instant): (items: seq<(Key, AccessReport)>)
    requires forall i :: 0 <= i < |s| ==> Valid(s[i].at)
    ensures |items| <= |s|
    decreases |s|
  {
    if |s| == 0 then []
    else
      var last := s[|s| - 1];
      Keyed(g, s[..|s| - 1], lo, hi) + (if Within(last.at, lo, hi) then [(KeyOf(g, last.at), last.report)] else [])
  }

  /** An item is keyed exactly when it comes from an in-range report under that report's own key. */
  lemma {:induction false} KeyedMembership(g: Granularity, s: seq<Stamped>, lo: Instant, hi: Instant, p: (Key, AccessReport))
    requires forall i :: 0 <= i < |s| ==> Valid(s[i].at)
    ensures p in Keyed(g, s, lo, hi) <==>
      exists i :: 0 <= i < |s| && Within(s[i].at, lo, hi) && p == (KeyOf(g, s[i].at), s[i].report)
    decreases |s|
  {
    if |s| > 0 {
      var pre, last := s[..|s| - 1], s[|s| - 1];
      KeyedMembership(g, pre, lo, hi, p);
      if p in Keyed(g, s, lo, hi) && p !in Keyed(g, pre, lo, hi) {
        assert Within(last.at, lo, hi) && p == (KeyOf(g, last.at), last.report);
      }
      if i :| 0 <= i < |s| && Within(s[i].at, lo, hi) && p == (KeyOf(g, s[i].at), s[i].report) {
        if i < |s| - 1 {
          assert pre[i] == s[i];
        }
      }
    }
  }

  /** Exactly the in-range reports are keyed: as many as the range filter keeps. */
  lemma {:induction false} KeyedSize(g: Granularity, s: seq<Stamped>, lo: Instant, hi: Instant)
    requires forall i :: 0 <= i < |s| ==> Valid(s[i].at)
    ensures |Keyed(g, s, lo, hi)| == |KeepInRange(s, lo, hi)|
    decreases |s|
  {
    if |s| > 0 {
      KeyedSize(g, s[..|s| - 1], lo, hi);
    }
  }

  /** Every in-range report's key is one the walk created. */
  lemma KeyedKeysWalked(g: Granularity, s: seq<Stamped>, lo: Instant, hi: Instant)
    requires forall i :: 0 <= i < |s| ==> Valid(s[i].at)
    requires Valid(lo) && Valid(hi) && AtUnitStart(g, lo) && AtUnitEnd(g, hi)
    ensures forall j :: 0 <= j < |Keyed(g, s, lo, hi)| ==> Keyed(g, s, lo, hi)[j].0 in Walk(g, lo, hi)
  {
    var items := Keyed(g, s, lo, hi);
    forall j | 0 <= j < |items|
      ensures items[j].0 in Walk(g, lo, hi)
    {
      KeyedMembership(g, s, lo, hi, items[j]);
      var i :| 0 <= i < |s| && Within(s[i].at, lo, hi) && items[j] == (KeyOf(g, s[i].at), s[i].report);
      NotAfterUnits(g, lo, s[i].at);
      NotAfterUnits(g, s[i].at, hi);
      WalkCovers(g, lo, hi, s[i].at);
    }
  }

  /** The number of units from the unit of `a` to the unit of `b`, both included. */
  function Span(g: Granularity, a: Instant, b: Instant): nat
    requires Valid(a) && Valid(b)
  {
    if UnitNumber(g, a) <= UnitNumber(g, b) then UnitNumber(g, b) - UnitNumber(g, a) + 1 else 0
  }

  /** The reports the bucketer files, with their keys (defined when every timestamp parses). */
  function Assigned(g: Granularity, m: Collection, start: string, end: string): seq<(Key, AccessReport)>
    requires Parses(start) && Parses(end) && AllKeysParse(m)
  {
    Keyed(g, Stamp(m).value, Floor(g, InstantOf(start)), Ceil(g, InstantOf(end)))
  }

  /**
    `GetDailyReports` / `GetHourlyReports`. One bucket per unit from the
    start's to the end's, consecutive and in order, each holding the
    reports inside the widened interval whose own unit it is, in map
    order. A timestamp that does not parse aborts the call and is named
    in the error.
   */
  function Bucketize(g: Granularity, m: Collection, start: string, end: string)
    : (r: Result<seq<(Key, seq<AccessReport>)>, Error>)
    ensures r.Success? <==> Parses(start) && Parses(end) && AllKeysParse(m)
    ensures r.Failure? ==>
      !Parses(r.error.text) && (r.error.text == start || r.error.text == end || r.error.text in Keys(m))
    ensures r.Success? ==> DistinctKeys(r.value)
    ensures r.Success? ==> |r.value| == Span(g, InstantOf(start), InstantOf(end))
    ensures r.Success? ==> forall i :: 0 <= i < |r.value| ==>
      ValidKey(g, r.value[i].0) && KeyNumber(r.value[i].0) == UnitNumber(g, InstantOf(start)) + i
    ensures r.Success? ==> forall i :: 0 <= i < |r.value| ==>
      r.value[i].1 == Members(Assigned(g, m, start, end), r.value[i].0)
  {
    if !Parses(start) then Failure(MalformedTimestamp(start))
    else if !Parses(end) then Failure(MalformedTimestamp(end))
    else
      var lo, hi := Floor(g, InstantOf(start)), Ceil(g, InstantOf(end));
      var keys := Walk(g, lo, hi);
      var stamped :- Stamp(m);
      var items := Keyed(g, stamped, lo, hi);
      BucketsFilled(g, lo, hi, stamped);
      Success(Gather(Preset(keys), items))
  }

  /** The pre-filled buckets are the walk's keys, and filing adds no key. */
  lemma BucketsFilled(g: Granularity, lo: Instant, hi: Instant, s: seq<Stamped>)
    requires forall i :: 0 <= i < |s| ==> Valid(s[i].at)
    requires Valid(lo) && Valid(hi) && AtUnitStart(g, lo) && AtUnitEnd(g, hi)
    ensures var r := Gather(Preset(Walk(g, lo, hi)), Keyed(g, s, lo, hi));
      && Keys(r) == Walk(g, lo, hi)
      && forall i :: 0 <= i < |r| ==> r[i].1 == Members(Keyed(g, s, lo, hi), r[i].0)
  {
    var keys := Walk(g, lo, hi);
    var empty: seq<(Key, seq<AccessReport>)> := Preset(keys);
    ConsecutiveKeysDistinct(g, keys, UnitNumber(g, lo));
    DedupOfDistinct(keys);
    KeyedKeysWalked(g, s, lo, hi);
    var items := Keyed(g, s, lo, hi);
    GatherFromEmpty(empty, items);
    var r := Gather(empty, items);
    forall i | 0 <= i < |r|
      ensures r[i].1 == Members(items, r[i].0)
    {
      assert Keys(r)[i] == Keys(empty)[i];
    }
  }

  /** The defensive `set(key, [])` before each push never fires: the result's keys are the walk's. */
  lemma DefensiveInsertAddsNoKey(g: Granularity, m: Collection, start: string, end: string)
    requires Parses(start) && Parses(end) && AllKeysParse(m)
    ensures Keys(Bucketize(g, m, start, end).value) == Walk(g, Floor(g, InstantOf(start)), Ceil(g, InstantOf(end)))
  {
    BucketsFilled(g, Floor(g, InstantOf(start)), Ceil(g, InstantOf(end)), Stamp(m).value);
  }

  /**
    There is a bucket for the unit of `t` exactly when that unit lies
    between the start's unit and the end's unit, both included, and that
    bucket is the one at the unit's offset from the start.
   */
  lemma BucketForEveryUnit(g: Granularity, m: Collection, start: string, end: string, t: Instant)
    requires Parses(start) && Parses(end) && AllKeysParse(m) && Valid(t)
    ensures KeyOf(g, t) in Keys(Bucketize(g, m, start, end).value) <==>
      UnitNumber(g, InstantOf(start)) <= UnitNumber(g, t) <= UnitNumber(g, InstantOf(end))
    ensures var n := UnitNumber(g, t) - UnitNumber(g, InstantOf(start));
      KeyOf(g, t) in Keys(Bucketize(g, m, start, end).value) ==>
        0 <= n < |Bucketize(g, m, start, end).value| && Bucketize(g, m, start, end).value[n].0 == KeyOf(g, t)
  {
    var lo, hi := Floor(g, InstantOf(start)), Ceil(g, InstantOf(end));
    DefensiveInsertAddsNoKey(g, m, start, end);
    WalkCovers(g, lo, hi, t);
    var r := Bucketize(g, m, start, end).value;
    if KeyOf(g, t) in Keys(r) {
      KeyAtOffset(g, r, UnitNumber(g, InstantOf(start)), t);
    }
  }

  /** In consecutively numbered buckets, a present unit's bucket sits at its offset from the first. */
  lemma KeyAtOffset(g: Granularity, r: seq<(Key, seq<AccessReport>)>, first: int, t: Instant)
    requires Valid(t) && KeyOf(g, t) in Keys(r)
    requires forall i :: 0 <= i < |r| ==> ValidKey(g, r[i].0) && KeyNumber(r[i].0) == first + i
    ensures 0 <= UnitNumber(g, t) - first < |r| && r[UnitNumber(g, t) - first].0 == KeyOf(g, t)
  {
    var i :| 0 <= i < |r| && Keys(r)[i] == KeyOf(g, t);
    KeyNumberOrder(g, r[i].0, KeyOf(g, t));
  }

  /** Buckets come in chronological order, each unit directly after the previous one. */
  lemma BucketsChronological(g: Granularity, m: Collection, start: string, end: string, i: int, j: int)
    requires Parses(start) && Parses(end) && AllKeysParse(m)
    requires 0 <= i < j < Span(g, InstantOf(start), InstantOf(end))
    ensures KeyBefore(Bucketize(g, m, start, end).value[i].0, Bucketize(g, m, start, end).value[j].0)
    ensures KeyNumber(Bucketize(g, m, start, end).value[j].0) - KeyNumber(Bucketize(g, m, start, end).value[i].0) == j - i
  {
    var r := Bucketize(g, m, start, end).value;
    KeyNumberOrder(g, r[i].0, r[j].0);
  }

  /**
    A report is in a bucket exactly when some entry of the collection
    carries it, has a timestamp inside the widened interval, and lies in
    that bucket's unit. So every in-range report sits in the bucket of
    its own unit, and no out-of-range report is anywhere.
   */
  lemma BucketMembership(g: Granularity, m: Collection, start: string, end: string, i: int, x: AccessReport)
    requires Parses(start) && Parses(end) && AllKeysParse(m)
    requires 0 <= i < Span(g, InstantOf(start), InstantOf(end))
    ensures var lo, hi := Floor(g, InstantOf(start)), Ceil(g, InstantOf(end));
      x in Bucketize(g, m, start, end).value[i].1 <==>
      exists j :: 0 <= j < |m| && m[j].1 == x && Within(InstantOf(m[j].0), lo, hi)
        && KeyOf(g, InstantOf(m[j].0)) == Bucketize(g, m, start, end).value[i].0
  {
    var lo, hi := Floor(g, InstantOf(start)), Ceil(g, InstantOf(end));
    var r := Bucketize(g, m, start, end).value;
    var s := Stamp(m).value;
    var items := Keyed(g, s, lo, hi);
    var k := r[i].0;
    MembersMembership(items, k, x);
    KeyedMembership(g, s, lo, hi, (k, x));
    if x in r[i].1 {
      var q :| 0 <= q < |items| && items[q] == (k, x);
      assert items[q] in items;
      var j :| 0 <= j < |s| && Within(s[j].at, lo, hi) && (k, x) == (KeyOf(g, s[j].at), s[j].report);
      assert m[j].1 == x && Within(InstantOf(m[j].0), lo, hi) && KeyOf(g, InstantOf(m[j].0)) == k;
    }
    if j :| 0 <= j < |m| && m[j].1 == x && Within(InstantOf(m[j].0), lo, hi) && KeyOf(g, InstantOf(m[j].0)) == k {
      assert s[j] == Stamped(InstantOf(m[j].0), m[j].0, m[j].1);
      var q :| 0 <= q < |items| && items[q] == (k, x);
    }
  }

  /** No report is lost or duplicated: the buckets hold as many reports as lie in the widened interval. */
  lemma BucketTotal(g: Granularity, m: Collection, start: string, end: string)
    requires Parses(start) && Parses(end) && AllKeysParse(m)
    ensures TotalSize(Bucketize(g, m, start, end).value)
         == |KeepInRange(Stamp(m).value, Floor(g, InstantOf(start)), Ceil(g, InstantOf(end)))|
  {
    var lo, hi := Floor(g, InstantOf(start)), Ceil(g, InstantOf(end));
    var s := Stamp(m).value;
    DefensiveInsertAddsNoKey(g, m, start, end);
    KeyedKeysWalked(g, s, lo, hi);
    PartitionSize(Bucketize(g, m, start, end).value, Keyed(g, s, lo, hi));
    KeyedSize(g, s, lo, hi);
  }

  /**
    The widened interval holds every instant whose unit lies between the
    start's and the end's and whose milliseconds lie between theirs, and
    nothing outside those units.
   */
  lemma WidenedInterval(g: Granularity, a: Instant, b: Instant, t: Instant)
    requires Valid(a) && Valid(b) && Valid(t)
    ensures Within(t, Floor(g, a), Ceil(g, b)) ==> UnitNumber(g, a) <= UnitNumber(g, t) <= UnitNumber(g, b)
    ensures UnitNumber(g, a) <= UnitNumber(g, t) <= UnitNumber(g, b) && a.ms <= t.ms <= b.ms ==>
      Within(t, Floor(g, a), Ceil(g, b))
  {
    var lo, hi := Floor(g, a), Ceil(g, b);
    if Within(t, lo, hi) {
      NotAfterUnits(g, lo, t);
      NotAfterUnits(g, t, hi);
    }
    UnitOrder(g, t, lo);
    UnitOrder(g, hi, t);
    KeyNumberOrder(g, KeyOf(g, t), KeyOf(g, lo));
    KeyNumberOrder(g, KeyOf(g, t), KeyOf(g, hi));
  }

  /** The fields of a key as the text the source builds from `FormatTime`. */
  function KeyFields(k: Key): (parts: seq<string>)
    requires WellFormed(k)
    ensures forall i :: 0 <= i < |parts| ==> AllDigits(parts[i])
  {
    var date := [NatToString(k.year), PadTwo(k.month + 1), PadTwo(k.day)];
    if k.HourKey? then date + [PadTwo(k.hour)] else date
  }

  /**
    `${year}/${month}/${day}` or `${year}/${month}/${day}/${hour}`: the
    year unpadded, the 1-based month, the day and the hour two digits each.
   */
  function FormatKey(k: Key): (s: string)
    requires WellFormed(k)
    ensures Split(s, '/') == [NatToString(k.year), Digits(k.month + 1, 2), Digits(k.day, 2)]
                             + (if k.HourKey? then [Digits(k.hour, 2)] else [])
  {
    var parts := KeyFields(k);
    forall i | 0 <= i < |parts|
      ensures '/' !in parts[i]
    {
      DigitsHaveNo(parts[i], '/');
    }
    SplitJoin(parts, '/');
    Join(parts, '/')
  }

  /** The text built from `FormatTime(t)` is the formatted key of `t`'s unit. */
  lemma FormatKeyOfTime(g: Granularity, t: Instant)
    requires Valid(t)
    ensures var f := FormatTime(t);
      FormatKey(KeyOf(g, t)) == match g
        case Daily => Join([f.year, f.month, f.day], '/')
        case Hourly => Join([f.year, f.month, f.day, f.hour], '/')
  {
    var f := FormatTime(t);
    var k := KeyOf(g, t);
    assert FormatKey(k) == Join(KeyFields(k), '/');
    match g
    case Daily =>
      assert KeyFields(k) == [f.year, f.month, f.day];
    case Hourly =>
      assert KeyFields(k) == [f.year, f.month, f.day, f.hour];
  }

  lemma TwoDigitsInjective(n: nat, m: nat)
    requires n < 100 && m < 100 && Digits(n, 2) == Digits(m, 2)
    ensures n == m
  {
    assert Pow10(2) == 100;
    DigitsOrder(n, m, 2);
  }

  /** Two keys of one granularity share their text only when they are the same key. */
  lemma FormatKeyInjective(g: Granularity, a: Key, b: Key)
    requires ValidKey(g, a) && ValidKey(g, b)
    ensures FormatKey(a) == FormatKey(b) <==> a == b
  {
    if FormatKey(a) == FormatKey(b) {
      var pa := [NatToString(a.year), Digits(a.month + 1, 2), Digits(a.day, 2)]
                + (if a.HourKey? then [Digits(a.hour, 2)] else []);
      var pb := [NatToString(b.year), Digits(b.month + 1, 2), Digits(b.day, 2)]
                + (if b.HourKey? then [Digits(b.hour, 2)] else []);
      assert pa == Split(FormatKey(a), '/') == Split(FormatKey(b), '/') == pb;
      assert pa[0] == pb[0] && pa[1] == pb[1] && pa[2] == pb[2];
      NatToStringInjective(a.year, b.year);
      TwoDigitsInjective(a.month + 1, b.month + 1);
      TwoDigitsInjective(a.day, b.day);
      if g == Hourly {
        assert pa[3] == pb[3];
        TwoDigitsInjective(a.hour, b.hour);
      }
    }
  }

  /** The bucketer's result with every key rendered as text, as the source returns it. */
  function Render(b: seq<(Key, seq<AccessReport>)>, g: Granularity): (r: seq<(string, seq<AccessReport>)>)
    requires forall i :: 0 <= i < |b| ==> ValidKey(g, b[i].0)
    ensures |r| == |b|
    ensures forall i :: 0 <= i < |b| ==> ValidKey(g, b[i].0) && r[i] == (FormatKey(b[i].0), b[i].1)
    ensures DistinctKeys(b) ==> DistinctKeys(r)
  {
    var r := seq(|b|, i requires 0 <= i < |b| => assert ValidKey(g, b[i].0); (FormatKey(b[i].0), b[i].1));
    assert DistinctKeys(b) ==> DistinctKeys(r) by {
      if DistinctKeys(b) {
        forall i, j | 0 <= i < j < |r|
          ensures Keys(r)[i] != Keys(r)[j]
        {
          assert Keys(b)[i] != Keys(b)[j];
          FormatKeyInjective(g, b[i].0, b[j].0);
        }
      }
    }
    r
  }

  /**
    `entry` is the bucket `i` units after unit `first`: its text is the
    formatted key of that unit and it holds that key's members of `items`.
   */
  ghost predicate BucketAt(g: Granularity, first: int, items: seq<(Key, AccessReport)>, i: int,
                           entry: (string, seq<AccessReport>)) {
    exists k :: && ValidKey(g, k) && KeyNumber(k) == first + i
                && entry == (FormatKey(k), Members(items, k))
  }

  /** What the text-keyed result holds: bucket `i` is the rendered key `i` units after the start's. */
  lemma RenderedBuckets(g: Granularity, m: Collection, start: string, end: string)
    requires Parses(start) && Parses(end) && AllKeysParse(m)
    ensures var r := Render(Bucketize(g, m, start, end).value, g);
      && DistinctKeys(r)
      && |r| == Span(g, InstantOf(start), InstantOf(end))
      && forall i :: 0 <= i < |r| ==> BucketAt(g, UnitNumber(g, InstantOf(start)), Assigned(g, m, start, end), i, r[i])
  {
    var b := Bucketize(g, m, start, end).value;
    RenderedKeys(b, g, UnitNumber(g, InstantOf(start)), Assigned(g, m, start, end));
  }

  lemma RenderedKeys(b: seq<(Key, seq<AccessReport>)>, g: Granularity, first: int, items: seq<(Key, AccessReport)>)
    requires forall i :: 0 <= i < |b| ==> ValidKey(g, b[i].0) && KeyNumber(b[i].0) == first + i
    requires forall i :: 0 <= i < |b| ==> b[i].1 == Members(items, b[i].0)
    ensures forall i :: 0 <= i < |Render(b, g)| ==> BucketAt(g, first, items, i, Render(b, g)[i])
  {
    forall i | 0 <= i < |Render(b, g)|
      ensures BucketAt(g, first, items, i, Render(b, g)[i])
    {
      var k := b[i].0;
      assert ValidKey(g, k) && KeyNumber(k) == first + i;
      assert Render(b, g)[i] == (FormatKey(k), Members(items, k));
    }
  }

  /**
    `GetDailyReports`: one `YYYY/MM/DD` bucket for every calendar day
    from the start's day to the end's day, in order, each holding the
    reports of that day that lie between the start's midnight and the
    end's `23:59:59`.
   */
  function GetDailyReports(m: Collection, start: string, end: string): (r: Result<seq<(string, seq<AccessReport>)>, Error>)
    ensures r.Success? <==> Parses(start) && Parses(end) && AllKeysParse(m)
    ensures r.Success? ==> DistinctKeys(r.value)
    ensures r.Success? ==> var a, b := InstantOf(start), InstantOf(end);
      var first := DayNumber(a.year, a.month, a.day);
      && |r.value| == (if first <= DayNumber(b.year, b.month, b.day) then DayNumber(b.year, b.month, b.day) - first + 1 else 0)
      && forall i :: 0 <= i < |r.value| ==> BucketAt(Daily, first, Assigned(Daily, m, start, end), i, r.value[i])
  {
    var b :- Bucketize(Daily, m, start, end);
    RenderedBuckets(Daily, m, start, end);
    Success(Render(b, Daily))
  }

  /**
    `GetHourlyReports`: one `YYYY/MM/DD/HH` bucket for every hour from the
    start's hour to the end's hour, in order, each holding the reports of
    that hour that lie between the start's `HH:00:00` and the end's
    `HH:59:59`.
   */
  function GetHourlyReports(m: Collection, start: string, end: string): (r: Result<seq<(string, seq<AccessReport>)>, Error>)
    ensures r.Success? <==> Parses(start) && Parses(end) && AllKeysParse(m)
    ensures r.Success? ==> DistinctKeys(r.value)
    ensures r.Success? ==> var first, last := HourNumber(InstantOf(start)), HourNumber(InstantOf(end));
      && |r.value| == (if first <= last then last - first + 1 else 0)
      && forall i :: 0 <= i < |r.value| ==> BucketAt(Hourly, first, Assigned(Hourly, m, start, end), i, r.value[i])
  {
    var b :- Bucketize(Hourly, m, start, end);
    RenderedBuckets(Hourly, m, start, end);
    assert UnitNumber(Hourly, InstantOf(start)) == HourNumber(InstantOf(start));
    assert UnitNumber(Hourly, InstantOf(end)) == HourNumber(InstantOf(end));
    Success(Render(b, Hourly))
  }
}
