/**
  Worked examples of the analytics code on concrete inputs: parsing a
  wire timestamp, the number of hourly and daily buckets for a two- and
  three-day range, and the bot filter on a small collection.
 */
module Scenarios {
  import opened Wrappers
  import opened Text
  import opened Calendar
  import opened Timestamp
  import opened OrderedMap
  import opened Reports
  import opened Buckets

  lemma JoinStep(p: string, rest: seq<string>, sep: char)
    requires 1 <= |rest|
    ensures Join([p] + rest, sep) == p + [sep] + Join(rest, sep)
  {
    assert ([p] + rest)[1..] == rest;
  }

  /** Seven colon-free fields joined by ':' split back into those fields. */
  lemma SplitSeven(f0: string, f1: string, f2: string, f3: string, f4: string, f5: string, f6: string)
    requires ':' !in f0 && ':' !in f1 && ':' !in f2 && ':' !in f3
    requires ':' !in f4 && ':' !in f5 && ':' !in f6
    ensures Split(f0 + ":" + (f1 + ":" + (f2 + ":" + (f3 + ":" + (f4 + ":" + (f5 + ":" + f6))))), ':')
         == [f0, f1, f2, f3, f4, f5, f6]
  {
    var parts := [f0, f1, f2, f3, f4, f5, f6];
    JoinStep(f5, [f6], ':');
    JoinStep(f4, [f5, f6], ':');
    JoinStep(f3, [f4, f5, f6], ':');
    JoinStep(f2, [f3, f4, f5, f6], ':');
    JoinStep(f1, [f2, f3, f4, f5, f6], ':');
    JoinStep(f0, [f1, f2, f3, f4, f5, f6], ':');
    assert [f1, f2, f3, f4, f5, f6] == [f1] + [f2, f3, f4, f5, f6];
    assert [f2, f3, f4, f5, f6] == [f2] + [f3, f4, f5, f6];
    assert [f3, f4, f5, f6] == [f3] + [f4, f5, f6];
    assert [f4, f5, f6] == [f4] + [f5, f6];
    assert [f5, f6] == [f5] + [f6];
    assert parts == [f0] + [f1, f2, f3, f4, f5, f6];
    SplitJoin(parts, ':');
  }

  lemma SplitStart()
    ensures Split("2024:1:1:0:00:00.:0", ':') == ["2024", "1", "1", "0", "00", "00.", "0"]
  {
    SplitSeven("2024", "1", "1", "0", "00", "00.", "0");
    assert "2024" + ":" + ("1" + ":" + ("1" + ":" + ("0" + ":" + ("00" + ":" + ("00." + ":" + "0"))))) == "2024:1:1:0:00:00.:0";
  }

  lemma SplitEnd(day: string)
    requires day == "2" || day == "3"
    ensures Split("2024:1:" + day + ":23:59:59.:0", ':') == ["2024", "1", day, "23", "59", "59.", "0"]
  {
    SplitSeven("2024", "1", day, "23", "59", "59.", "0");
    assert "2024" + ":" + ("1" + ":" + (day + ":" + ("23" + ":" + ("59" + ":" + ("59." + ":" + "0"))))) == "2024:1:" + day + ":23:59:59.:0";
  }

  lemma YearNumber()
    ensures ToNumber("2024") == Some(2024)
  {
    assert "2024"[..3] == "202" && "202"[..2] == "20" && "20"[..1] == "2" && "2"[..0] == "";
  }

  lemma SmallNumbers()
    ensures ToNumber("0") == Some(0) && ToNumber("1") == Some(1)
    ensures ToNumber("00") == Some(0) && ToNumber("") == Some(0)
  {
    assert "00"[..1] == "0" && "0"[..0] == "" && "1"[..0] == "";
  }

  lemma LateNumbers()
    ensures ToNumber("23") == Some(23) && ToNumber("59") == Some(59)
  {
    assert "23"[..1] == "2" && "59"[..1] == "5" && "5"[..0] == "" && "2"[..0] == "";
  }

  lemma DayNumberText(day: string, d: nat)
    requires (day, d) == ("2", 2) || (day, d) == ("3", 3)
    ensures ToNumber(day) == Some(d)
  {
    assert "2"[..0] == "" && "3"[..0] == "";
  }

  lemma StartNumbers()
    ensures ToNumber("2024") == Some(2024) && ToNumber("1") == Some(1)
    ensures ToNumber("0") == Some(0) && ToNumber("00") == Some(0) && ToNumber("") == Some(0)
  {
    assert "2024"[..3] == "202" && "202"[..2] == "20" && "20"[..1] == "2" && "2"[..0] == "";
    assert "00"[..1] == "0" && "0"[..0] == "" && "1"[..0] == "";
  }

  lemma EndNumbers(day: string, d: nat)
    requires (day, d) == ("2", 2) || (day, d) == ("3", 3)
    ensures ToNumber("2024") == Some(2024) && ToNumber("1") == Some(1) && ToNumber(day) == Some(d)
    ensures ToNumber("23") == Some(23) && ToNumber("59") == Some(59) && ToNumber("0") == Some(0)
    ensures ToNumber("") == Some(0)
  {
    YearNumber();
    SmallNumbers();
    LateNumbers();
    DayNumberText(day, d);
  }

  lemma SplitSeconds(s: string)
    requires s == "00" || s == "59"
    ensures Split(s + ".", '.') == [s, ""]
  {
    SplitAtFirstSeparator(s, '.', "");
    assert s + ['.'] + "" == s + ".";
    assert Split("", '.') == [""];
  }

  /** A text whose colon sections and second field read as the given numbers parses to them. */
  lemma ParseOfSections(text: string, f0: string, f1: string, f2: string, f3: string, f4: string, f5: string,
                        f6: string, sec: string, y: nat, mo: nat, d: nat, h: nat, mi: nat, s: nat)
    requires Split(text, ':') == [f0, f1, f2, f3, f4, f5, f6] && Split(f5, '.') == [sec, ""]
    requires ToNumber(f0) == Some(y) && ToNumber(f1) == Some(mo) && ToNumber(f2) == Some(d)
    requires ToNumber(f3) == Some(h) && ToNumber(f4) == Some(mi) && ToNumber(sec) == Some(s)
    ensures ParseTimestamp(text) == MakeDate(y, mo - 1, d, h, mi, s, 0)
  {
  }

  /** The wire text `2024:1:1:0:00:00.:0` is midnight of 1 January 2024 (month 0). */
  lemma ParseStart()
    ensures ParseTimestamp("2024:1:1:0:00:00.:0") == Some(Instant(2024, 0, 1, 0, 0, 0, 0))
  {
    SplitStart();
    StartNumbers();
    SplitSeconds("00");
    ParseOfSections("2024:1:1:0:00:00.:0", "2024", "1", "1", "0", "00", "00.", "0", "00", 2024, 1, 1, 0, 0, 0);
    assert MakeDate(2024, 0, 1, 0, 0, 0, 0) == Some(Instant(2024, 0, 1, 0, 0, 0, 0));
  }

  /** `2024:1:2:23:59:59.:0` and `2024:1:3:23:59:59.:0` are the last second of 2 and 3 January. */
  lemma ParseEnd(day: string, d: nat)
    requires (day, d) == ("2", 2) || (day, d) == ("3", 3)
    ensures ParseTimestamp("2024:1:" + day + ":23:59:59.:0") == Some(Instant(2024, 0, d, 23, 59, 59, 0))
  {
    SplitEnd(day);
    EndNumbers(day, d);
    SplitSeconds("59");
    ParseOfSections("2024:1:" + day + ":23:59:59.:0", "2024", "1", day, "23", "59", "59.", "0", "59", 2024, 1, d, 23, 59, 59);
    assert MakeDate(2024, 0, d, 23, 59, 59, 0) == Some(Instant(2024, 0, d, 23, 59, 59, 0));
  }

  /** From midnight of 1 January to 23:00 on 2 January of any year: 47 hours on. */
  lemma TwoDaysOfHours(y: nat)
    ensures HourNumber(Instant(y, 0, 2, 23, 59, 59, 0)) == HourNumber(Instant(y, 0, 1, 0, 0, 0, 0)) + 47
    ensures DayNumber(y, 0, 3) == DayNumber(y, 0, 1) + 2
  {
  }

  lemma StartInstant()
    ensures Parses("2024:1:1:0:00:00.:0") && InstantOf("2024:1:1:0:00:00.:0") == Instant(2024, 0, 1, 0, 0, 0, 0)
  {
    ParseStart();
  }

  lemma EndOfSecondDay()
    ensures Parses("2024:1:2:23:59:59.:0") && InstantOf("2024:1:2:23:59:59.:0") == Instant(2024, 0, 2, 23, 59, 59, 0)
  {
    var text := "2024:1:" + "2" + ":23:59:59.:0";
    ParseEnd("2", 2);
    assert text == "2024:1:2:23:59:59.:0";
  }

  lemma EndOfThirdDay()
    ensures Parses("2024:1:3:23:59:59.:0") && InstantOf("2024:1:3:23:59:59.:0") == Instant(2024, 0, 3, 23, 59, 59, 0)
  {
    var text := "2024:1:" + "3" + ":23:59:59.:0";
    ParseEnd("3", 3);
    assert text == "2024:1:3:23:59:59.:0";
  }

  /**
    Two calendar days by the hour: 48 buckets, whatever the reports. With
    `StartInstant` and `EndOfSecondDay` this covers the call from
    `2024:1:1:0:00:00.:0` to `2024:1:2:23:59:59.:0`.
   */
  lemma HourlyTwoDays(m: Collection, start: string, end: string, y: nat)
    requires AllKeysParse(m)
    requires Parses(start) && InstantOf(start) == Instant(y, 0, 1, 0, 0, 0, 0)
    requires Parses(end) && InstantOf(end) == Instant(y, 0, 2, 23, 59, 59, 0)
    ensures GetHourlyReports(m, start, end).Success?
    ensures |GetHourlyReports(m, start, end).value| == 48
  {
    TwoDaysOfHours(y);
  }

  /** With no reports, every day's bucket is present and empty. */
  lemma NoReportsEmptyDays(start: string, end: string)
    requires GetDailyReports([], start, end).Success?
    ensures forall i :: 0 <= i < |GetDailyReports([], start, end).value| ==> GetDailyReports([], start, end).value[i].1 == []
  {
    assert Stamp([]) == Success([]);
    assert Assigned(Daily, [], start, end) == [];
    var r := GetDailyReports([], start, end).value;
    forall i | 0 <= i < |r|
      ensures r[i].1 == []
    {
      var k :| ValidKey(Daily, k) && r[i] == (FormatKey(k), Members(Assigned(Daily, [], start, end), k));
    }
  }

  /**
    Three days with no reports at all: three buckets, each present and
    empty. With `StartInstant` and `EndOfThirdDay` this covers the call
    from `2024:1:1:0:00:00.:0` to `2024:1:3:23:59:59.:0`.
   */
  lemma DailyEmptyBuckets(start: string, end: string, y: nat)
    requires Parses(start) && InstantOf(start) == Instant(y, 0, 1, 0, 0, 0, 0)
    requires Parses(end) && InstantOf(end) == Instant(y, 0, 3, 23, 59, 59, 0)
    ensures GetDailyReports([], start, end).Success?
    ensures |GetDailyReports([], start, end).value| == 3
    ensures forall i :: 0 <= i < 3 ==> GetDailyReports([], start, end).value[i].1 == []
  {
    TwoDaysOfHours(y);
    NoReportsEmptyDays(start, end);
  }

  function Visit(uuid: string, confirmed: int): AccessReport {
    AccessReport("", "JP", "10.0.0.1", uuid, "", "", "", "", confirmed)
  }

  /**
    A visitor confirmed once keeps its unconfirmed report too; a visitor
    never confirmed disappears.
   */
  lemma BotFilterExample()
    ensures FilterBotReports([("t1", Visit("a", 0)), ("t2", Visit("a", 1)), ("t3", Visit("b", 0))])
         == [("t1", Visit("a", 0)), ("t2", Visit("a", 1))]
  {
    var m := [("t1", Visit("a", 0)), ("t2", Visit("a", 1)), ("t3", Visit("b", 0))];
    var vs := Values(m);
    assert vs == [Visit("a", 0), Visit("a", 1), Visit("b", 0)];
    assert vs[..2] == [Visit("a", 0), Visit("a", 1)] && vs[..2][..1] == [Visit("a", 0)];
    assert GetHumanUuids(vs[..2][..1]) == {};
    assert GetHumanUuids(vs[..2]) == {"a"};
    assert GetHumanUuids(vs) == {"a"};
    assert m[..2] == [("t1", Visit("a", 0)), ("t2", Visit("a", 1))];
    assert m[..2][..1] == [("t1", Visit("a", 0))];
  }
}
