/**
  Access reports and the two record filters of `src/analytics.ts`: the
  per-visitor bot filter and the closed-interval range filter. A report
  collection is the `Map` from wire timestamp to report that the loader
  builds, as an insertion-ordered sequence of pairs.
 */
module Reports {
  import opened Wrappers
  import opened Calendar
  import opened Timestamp
  import opened OrderedMap

  /** One logged visit (`AccessReport`); `confirmed == 1` marks a confirmed human. */
  datatype AccessReport = AccessReport(
    timestamp: string,
    country: string,
    sourceIp: string,
    uuid: string,
    userAgent: string,
    deployTime: string,
    target: string,
    time: string,
    confirmed: int)

  type Collection = seq<(string, AccessReport)>

  /** Why an aggregation stopped: a timestamp the codec cannot parse. */
  datatype Error = MalformedTimestamp(text: string)

  function Values(m: Collection): (vs: seq<AccessReport>)
    ensures |vs| == |m|
    ensures forall i :: 0 <= i < |m| ==> vs[i] == m[i].1
  {
    seq(|m|, i requires 0 <= i < |m| => m[i].1)
  }

  /** `GetHumanUuids`: the visitors with at least one confirmed report. */
  function GetHumanUuids(reports: seq<AccessReport>): set<string>
    decreases |reports|
  {
    if |reports| == 0 then {}
    else
      var last := reports[|reports| - 1];
      GetHumanUuids(reports[..|reports| - 1]) + (if last.confirmed == 1 then {last.uuid} else {})
  }

  /** A visitor is human exactly when one of its reports is confirmed. */
  lemma {:induction false} GetHumanUuidsSpec(reports: seq<AccessReport>, u: string)
    ensures u in GetHumanUuids(reports) <==>
      exists i :: 0 <= i < |reports| && reports[i].confirmed == 1 && reports[i].uuid == u
    decreases |reports|
  {
    if |reports| > 0 {
      var pre := reports[..|reports| - 1];
      GetHumanUuidsSpec(pre, u);
      assert forall i :: 0 <= i < |pre| ==> pre[i] == reports[i];
    }
  }

  /** The entries whose report belongs to one of `uuids`, in their original order. */
  function KeepVisitors(m: Collection, uuids: set<string>): (r: Collection)
    ensures |r| <= |m|
    decreases |m|
  {
    if |m| == 0 then []
    else
      var kept := KeepVisitors(m[..|m| - 1], uuids);
      if m[|m| - 1].1.uuid in uuids then kept + [m[|m| - 1]] else kept
  }

  /** `KeepVisitors` keeps exactly the entries of the chosen visitors and no new keys. */
  lemma {:induction false} KeepVisitorsSpec(m: Collection, uuids: set<string>)
    ensures forall e :: e in KeepVisitors(m, uuids) <==> e in m && e.1.uuid in uuids
    ensures forall k :: k in Keys(KeepVisitors(m, uuids)) ==> k in Keys(m)
    ensures DistinctKeys(m) ==> DistinctKeys(KeepVisitors(m, uuids))
    decreases |m|
  {
    if |m| > 0 {
      var pre, last := m[..|m| - 1], m[|m| - 1];
      assert m == pre + [last];
      KeepVisitorsSpec(pre, uuids);
      var kept := KeepVisitors(pre, uuids);
      if last.1.uuid in uuids {
        assert KeepVisitors(m, uuids) == kept + [last];
        assert Keys(kept + [last]) == Keys(kept) + [last.0];
        assert Keys(m) == Keys(pre) + [last.0];
        assert DistinctKeys(m) ==> last.0 !in Keys(pre);
      } else {
        assert KeepVisitors(m, uuids) == kept;
        assert Keys(m) == Keys(pre) + [last.0];
      }
    }
  }

  /**
    `FilterBotReports`: keep an entry exactly when its visitor has at least
    one confirmed report anywhere in the collection, so a visitor's
    unconfirmed reports survive alongside a confirmed one.
   */
  function FilterBotReports(m: Collection): (r: Collection)
    ensures forall e :: e in r <==> e in m && e.1.uuid in GetHumanUuids(Values(m))
    ensures |r| <= |m|
    ensures DistinctKeys(m) ==> DistinctKeys(r)
  {
    KeepVisitorsSpec(m, GetHumanUuids(Values(m)));
    KeepVisitors(m, GetHumanUuids(Values(m)))
  }

  lemma {:induction false} KeepVisitorsKeepsAll(m: Collection, uuids: set<string>)
    requires forall i :: 0 <= i < |m| ==> m[i].1.uuid in uuids
    ensures KeepVisitors(m, uuids) == m
    decreases |m|
  {
    if |m| > 0 {
      KeepVisitorsKeepsAll(m[..|m| - 1], uuids);
    }
  }

  /** Appending one report adds its uuid exactly when it is confirmed. */
  lemma HumansAppend(reports: seq<AccessReport>, x: AccessReport)
    ensures GetHumanUuids(reports + [x]) == GetHumanUuids(reports) + (if x.confirmed == 1 then {x.uuid} else {})
  {
    assert (reports + [x])[..|reports|] == reports;
  }

  lemma ValuesAppend(m: Collection, e: (string, AccessReport))
    ensures Values(m + [e]) == Values(m) + [e.1]
  {
  }

  /** The human visitors among the kept entries are the human visitors of `m` that were kept. */
  lemma {:induction false} HumansOfKept(m: Collection, uuids: set<string>)
    ensures GetHumanUuids(Values(KeepVisitors(m, uuids))) == GetHumanUuids(Values(m)) * uuids
    decreases |m|
  {
    if |m| > 0 {
      HumansOfKept(m[..|m| - 1], uuids);
      HumansOfKeptStep(m, uuids);
    }
  }

  /** One more entry: the inductive step of `HumansOfKept`. */
  lemma HumansOfSnoc(m: Collection, entry: (string, AccessReport))
    ensures GetHumanUuids(Values(m + [entry])) ==
      GetHumanUuids(Values(m)) + (if entry.1.confirmed == 1 then {entry.1.uuid} else {})
  {
    ValuesAppend(m, entry);
    HumansAppend(Values(m), entry.1);
  }

  lemma HumansOfKeptStep(m: Collection, uuids: set<string>)
    requires |m| > 0
    requires GetHumanUuids(Values(KeepVisitors(m[..|m| - 1], uuids))) == GetHumanUuids(Values(m[..|m| - 1])) * uuids
    ensures GetHumanUuids(Values(KeepVisitors(m, uuids))) == GetHumanUuids(Values(m)) * uuids
  {
    var pre, last := m[..|m| - 1], m[|m| - 1];
    var added: set<string> := if last.1.confirmed == 1 then {last.1.uuid} else {};
    assert m == pre + [last];
    HumansOfSnoc(pre, last);
    KeptHumansOfSnoc(pre, last, uuids);
    IntersectUnion(GetHumanUuids(Values(pre)), added, uuids);
  }

  lemma KeptHumansOfSnoc(m: Collection, entry: (string, AccessReport), uuids: set<string>)
    ensures GetHumanUuids(Values(KeepVisitors(m + [entry], uuids))) ==
      GetHumanUuids(Values(KeepVisitors(m, uuids))) + (if entry.1.confirmed == 1 then {entry.1.uuid} else {}) * uuids
  {
    var kept := KeepVisitors(m, uuids);
    var added: set<string> := if entry.1.confirmed == 1 then {entry.1.uuid} else {};
    assert (m + [entry])[..|m|] == m;
    if entry.1.uuid in uuids {
      assert KeepVisitors(m + [entry], uuids) == kept + [entry];
      HumansOfSnoc(kept, entry);
      assert added * uuids == added;
    } else {
      assert KeepVisitors(m + [entry], uuids) == kept;
      assert added * uuids == {};
    }
  }

  lemma IntersectUnion(a: set<string>, b: set<string>, c: set<string>)
    ensures (a + b) * c == a * c + b * c
  {
  }

  /** Filtering keeps every confirmed report, so the human visitors are unchanged. */
  lemma FilterKeepsHumans(m: Collection)
    ensures GetHumanUuids(Values(FilterBotReports(m))) == GetHumanUuids(Values(m))
  {
    HumansOfKept(m, GetHumanUuids(Values(m)));
  }

  /** Filtering bots twice is filtering once. */
  lemma FilterBotReportsIdempotent(m: Collection)
    ensures FilterBotReports(FilterBotReports(m)) == FilterBotReports(m)
  {
    var r := FilterBotReports(m);
    FilterKeepsHumans(m);
    KeepVisitorsSpec(m, GetHumanUuids(Values(m)));
    forall i | 0 <= i < |r|
      ensures r[i].1.uuid in GetHumanUuids(Values(r))
    {
      assert r[i] in r;
    }
    KeepVisitorsKeepsAll(r, GetHumanUuids(Values(r)));
  }

  /**
    The filter is per visitor: any report, confirmed or not, survives when
    some report of the same visitor is confirmed; and a visitor none of
    whose reports is confirmed disappears entirely.
   */
  lemma BotFilterIsPerVisitor(m: Collection, i: int, j: int)
    requires 0 <= i < |m| && 0 <= j < |m|
    requires m[i].1.uuid == m[j].1.uuid
    ensures m[j].1.confirmed == 1 ==> m[i] in FilterBotReports(m)
    ensures (forall k :: 0 <= k < |m| && m[k].1.uuid == m[i].1.uuid ==> m[k].1.confirmed != 1)
              ==> m[i] !in FilterBotReports(m)
  {
    var u := m[i].1.uuid;
    GetHumanUuidsSpec(Values(m), u);
    assert Values(m)[j] == m[j].1;
    if m[i] in FilterBotReports(m) {
      var k :| 0 <= k < |m| && Values(m)[k].confirmed == 1 && Values(m)[k].uuid == u;
      assert m[k].1.uuid == u && m[k].1.confirmed == 1;
    }
  }

  predicate AllKeysParse(m: Collection) {
    forall i :: 0 <= i < |m| ==> Parses(m[i].0)
  }

  /** A report with its key and the instant the key parses to. */
  datatype Stamped = Stamped(at: Instant, key: string, report: AccessReport)

  /** The position of the first key that does not parse. */
  function FirstUnparsable(m: Collection): (i: nat)
    requires !AllKeysParse(m)
    ensures i < |m| && !Parses(m[i].0)
    ensures forall j :: 0 <= j < i ==> Parses(m[j].0)
    decreases |m|
  {
    if !Parses(m[0].0) then 0
    else
      assert forall j :: 0 <= j < |m| - 1 ==> m[1..][j] == m[j + 1];
      1 + FirstUnparsable(m[1..])
  }

  /**
    `ParseTimestamp(timestamp)` for every entry, in order; the first key
    that does not parse aborts with an error naming it.
   */
  function Stamp(m: Collection): (r: Result<seq<Stamped>, Error>)
    ensures r.Success? <==> AllKeysParse(m)
    ensures r.Success? ==> |r.value| == |m|
    ensures r.Success? ==> forall i :: 0 <= i < |m| ==> r.value[i] == Stamped(InstantOf(m[i].0), m[i].0, m[i].1)
    ensures r.Failure? ==> r.error.text in Keys(m) && !Parses(r.error.text)
  {
    if AllKeysParse(m) then
      Success(seq(|m|, i requires 0 <= i < |m| && Parses(m[i].0) => Stamped(InstantOf(m[i].0), m[i].0, m[i].1)))
    else
      var i := FirstUnparsable(m);
      assert Keys(m)[i] == m[i].0;
      Failure(MalformedTimestamp(m[i].0))
  }

  function Unstamp(s: seq<Stamped>): (m: Collection)
    ensures |m| == |s|
    ensures forall i :: 0 <= i < |s| ==> m[i] == (s[i].key, s[i].report)
  {
    seq(|s|, i requires 0 <= i < |s| => (s[i].key, s[i].report))
  }

  predicate DistinctStamps(s: seq<Stamped>) {
    forall i, j :: 0 <= i < j < |s| ==> s[i].key != s[j].key
  }

  /** `lo <= t <= hi` with both ends included. */
  predicate Within(t: Instant, lo: Instant, hi: Instant) {
    NotAfter(lo, t) && NotAfter(t, hi)
  }

  /** The stamped reports within `[lo, hi]`, in their original order. */
  function KeepInRange(s: seq<Stamped>, lo: Instant, hi: Instant): (r: seq<Stamped>)
    ensures |r| <= |s|
    decreases |s|
  {
    if |s| == 0 then []
    else
      var kept := KeepInRange(s[..|s| - 1], lo, hi);
      if Within(s[|s| - 1].at, lo, hi) then kept + [s[|s| - 1]] else kept
  }

  /** `KeepInRange` keeps exactly the stamps inside the interval, and no key twice. */
  lemma {:induction false} KeepInRangeSpec(s: seq<Stamped>, lo: Instant, hi: Instant)
    ensures forall x :: x in KeepInRange(s, lo, hi) <==> x in s && Within(x.at, lo, hi)
    ensures DistinctStamps(s) ==> DistinctStamps(KeepInRange(s, lo, hi))
    decreases |s|
  {
    if |s| > 0 {
      var pre, last := s[..|s| - 1], s[|s| - 1];
      assert s == pre + [last];
      KeepInRangeSpec(pre, lo, hi);
    }
  }

  lemma StampedKeysDistinct(m: Collection, s: seq<Stamped>)
    requires DistinctKeys(m) && |s| == |m|
    requires forall i :: 0 <= i < |m| ==> s[i].key == m[i].0
    ensures DistinctStamps(s)
  {
    assert forall i :: 0 <= i < |m| ==> Keys(m)[i] == s[i].key;
  }

  lemma UnstampedKeysDistinct(s: seq<Stamped>)
    requires DistinctStamps(s)
    ensures DistinctKeys(Unstamp(s))
  {
    assert forall i :: 0 <= i < |s| ==> Keys(Unstamp(s))[i] == s[i].key;
  }

  /**
    `GetReportsInRange`: the entries whose timestamp lies in the closed
    interval between the parsed `start` and `end`, both ends included. A
    timestamp that does not parse (either bound or any key) aborts the
    call and is named in the error.
   */
  function GetReportsInRange(m: Collection, start: string, end: string): (r: Result<Collection, Error>)
    ensures r.Success? <==> Parses(start) && Parses(end) && AllKeysParse(m)
    ensures r.Success? ==> forall e :: e in r.value <==>
      e in m && Within(InstantOf(e.0), InstantOf(start), InstantOf(end))
    ensures r.Success? && DistinctKeys(m) ==> DistinctKeys(r.value)
    ensures r.Failure? ==>
      !Parses(r.error.text) && (r.error.text == start || r.error.text == end || r.error.text in Keys(m))
  {
    if !Parses(start) then Failure(MalformedTimestamp(start))
    else if !Parses(end) then Failure(MalformedTimestamp(end))
    else
      var stamped :- Stamp(m);
      var kept := KeepInRange(stamped, InstantOf(start), InstantOf(end));
      KeepInRangeSpec(stamped, InstantOf(start), InstantOf(end));
      InRangeMembership(m, stamped, kept, InstantOf(start), InstantOf(end));
      Success(Unstamp(kept))
  }

  lemma InRangeMembership(m: Collection, stamped: seq<Stamped>, kept: seq<Stamped>, lo: Instant, hi: Instant)
    requires AllKeysParse(m) && |stamped| == |m|
    requires forall i :: 0 <= i < |m| ==> stamped[i] == Stamped(InstantOf(m[i].0), m[i].0, m[i].1)
    requires forall x :: x in kept <==> x in stamped && Within(x.at, lo, hi)
    requires DistinctStamps(stamped) ==> DistinctStamps(kept)
    ensures forall e :: e in Unstamp(kept) <==> e in m && Within(InstantOf(e.0), lo, hi)
    ensures DistinctKeys(m) ==> DistinctKeys(Unstamp(kept))
  {
    if DistinctKeys(m) {
      StampedKeysDistinct(m, stamped);
      UnstampedKeysDistinct(kept);
    }
    var r := Unstamp(kept);
    forall e | e in r
      ensures e in m && Within(InstantOf(e.0), lo, hi)
    {
      var j :| 0 <= j < |r| && r[j] == e;
      assert kept[j] in kept;
      var i :| 0 <= i < |stamped| && stamped[i] == kept[j];
      assert m[i] == e;
    }
    forall e | e in m && Within(InstantOf(e.0), lo, hi)
      ensures e in r
    {
      var i :| 0 <= i < |m| && m[i] == e;
      assert stamped[i] in stamped;
      var j :| 0 <= j < |kept| && kept[j] == stamped[i];
      assert r[j] == e;
    }
  }

  lemma {:induction false} KeepInRangeKeepsAll(s: seq<Stamped>, lo: Instant, hi: Instant)
    requires forall i :: 0 <= i < |s| ==> Within(s[i].at, lo, hi)
    ensures KeepInRange(s, lo, hi) == s
    decreases |s|
  {
    if |s| > 0 {
      KeepInRangeKeepsAll(s[..|s| - 1], lo, hi);
    }
  }

  /** Every stamp carries the instant its own key parses to. */
  predicate Faithful(s: seq<Stamped>) {
    forall i :: 0 <= i < |s| ==> Parses(s[i].key) && InstantOf(s[i].key) == s[i].at
  }

  lemma StampUnstamp(s: seq<Stamped>)
    requires Faithful(s)
    ensures Stamp(Unstamp(s)) == Success(s)
  {
    var m := Unstamp(s);
    assert AllKeysParse(m);
    var r := Stamp(m).value;
    assert |r| == |s|;
    assert forall i :: 0 <= i < |s| ==> r[i] == s[i];
    assert r == s;
    assert Stamp(m) == Success(r);
  }

  /** Selecting a range from its own result changes nothing. */
  lemma GetReportsInRangeIdempotent(m: Collection, start: string, end: string)
    requires Parses(start) && Parses(end) && AllKeysParse(m)
    ensures GetReportsInRange(GetReportsInRange(m, start, end).value, start, end)
         == GetReportsInRange(m, start, end)
  {
    var lo, hi := InstantOf(start), InstantOf(end);
    var stamped := Stamp(m).value;
    var kept := KeepInRange(stamped, lo, hi);
    KeepInRangeSpec(stamped, lo, hi);
    assert GetReportsInRange(m, start, end).value == Unstamp(kept);
    assert Faithful(stamped);
    forall i | 0 <= i < |kept|
      ensures Parses(kept[i].key) && InstantOf(kept[i].key) == kept[i].at
      ensures Within(kept[i].at, lo, hi)
    {
      assert kept[i] in kept;
    }
    StampUnstamp(kept);
    KeepInRangeKeepsAll(kept, lo, hi);
  }
}
