/**
  The three group-bys of `src/analytics.ts` (`GetCountryReports`,
  `GetReportsByUniqueVisitor`, `GetReportsByUniqueIP`). Each one first
  creates an empty list under every value of the grouping field, in order
  of first appearance, then appends every report to the list of its value.
 */
module Grouping {
  import opened Reports
  import opened OrderedMap

  /** The report field a group-by keys on. */
  datatype Field = Country | Visitor | SourceIp

  function FieldOf(f: Field, r: AccessReport): string {
    match f
    case Country => r.country
    case Visitor => r.uuid
    case SourceIp => r.sourceIp
  }

  /** Every report paired with its grouping value, in input order. */
  function Tag(rs: seq<AccessReport>, f: Field): (items: seq<(string, AccessReport)>)
    ensures |items| == |rs|
    ensures forall j :: 0 <= j < |rs| ==> items[j] == (FieldOf(f, rs[j]), rs[j])
  {
    seq(|rs|, j requires 0 <= j < |rs| => (FieldOf(f, rs[j]), rs[j]))
  }

  /** The first pass: an empty list under every grouping value, in first-seen order. */
  function Prefill(rs: seq<AccessReport>, f: Field): (m: seq<(string, seq<AccessReport>)>)
    ensures DistinctKeys(m)
    ensures Keys(m) == Dedup(Keys(Tag(rs, f)))
    ensures forall i :: 0 <= i < |m| ==> m[i].1 == []
  {
    Preset(Keys(Tag(rs, f)))
  }

  /**
    Group `rs` by field `f`: one entry per distinct value in first-seen
    order, holding exactly the reports with that value, in input order.
   */
  function GroupBy(rs: seq<AccessReport>, f: Field): (groups: seq<(string, seq<AccessReport>)>)
    ensures DistinctKeys(groups)
    ensures Keys(groups) == Dedup(Keys(Tag(rs, f)))
    ensures forall i :: 0 <= i < |groups| ==> groups[i].1 == Members(Tag(rs, f), groups[i].0)
  {
    var m := Prefill(rs, f);
    var items := Tag(rs, f);
    assert forall j :: 0 <= j < |items| ==> items[j].0 in Keys(m) by {
      forall j | 0 <= j < |items|
        ensures items[j].0 in Keys(m)
      {
        assert Keys(items)[j] == items[j].0;
        DedupMembers(Keys(items), items[j].0);
      }
    }
    GatherFromEmpty(m, items);
    var r := Gather(m, items);
    assert forall i :: 0 <= i < |r| ==> r[i].0 == m[i].0 by {
      forall i | 0 <= i < |r|
        ensures r[i].0 == m[i].0
      {
        assert Keys(r)[i] == Keys(m)[i];
      }
    }
    r
  }

  /** A report sits in a group exactly when it is one of the input reports with that group's value. */
  lemma GroupByMembership(rs: seq<AccessReport>, f: Field, i: int, x: AccessReport)
    requires 0 <= i < |GroupBy(rs, f)|
    ensures x in GroupBy(rs, f)[i].1 <==> x in rs && FieldOf(f, x) == GroupBy(rs, f)[i].0
  {
    var items := Tag(rs, f);
    var k := GroupBy(rs, f)[i].0;
    MembersMembership(items, k, x);
    if x in rs && FieldOf(f, x) == k {
      var j :| 0 <= j < |rs| && rs[j] == x;
      assert items[j] == (k, x);
    }
  }

  /** The group keys are exactly the values the field takes on the input. */
  lemma GroupByKeys(rs: seq<AccessReport>, f: Field, k: string)
    ensures k in Keys(GroupBy(rs, f)) <==> exists j :: 0 <= j < |rs| && FieldOf(f, rs[j]) == k
  {
    var items := Tag(rs, f);
    DedupMembers(Keys(items), k);
    if k in Keys(items) {
      var j :| 0 <= j < |items| && Keys(items)[j] == k;
      assert FieldOf(f, rs[j]) == k;
    }
    if j :| 0 <= j < |rs| && FieldOf(f, rs[j]) == k {
      assert Keys(items)[j] == k;
    }
  }

  /** The groups come in the order in which their values first occur in the input. */
  lemma GroupByFirstSeen(rs: seq<AccessReport>, f: Field, i: int, j: int)
    requires 0 <= i < j < |GroupBy(rs, f)|
    ensures GroupBy(rs, f)[i].0 in Keys(Tag(rs, f)) && GroupBy(rs, f)[j].0 in Keys(Tag(rs, f))
    ensures IndexOf(Keys(Tag(rs, f)), GroupBy(rs, f)[i].0) < IndexOf(Keys(Tag(rs, f)), GroupBy(rs, f)[j].0)
  {
    var g := GroupBy(rs, f);
    assert g[i].0 == Keys(g)[i] && g[j].0 == Keys(g)[j];
    DedupFirstSeen(Keys(Tag(rs, f)), i, j);
  }

  /** No report is lost or duplicated: the group sizes add up to the input size. */
  lemma GroupBySize(rs: seq<AccessReport>, f: Field)
    ensures TotalSize(GroupBy(rs, f)) == |rs|
  {
    var g := GroupBy(rs, f);
    var items := Tag(rs, f);
    forall j | 0 <= j < |items|
      ensures items[j].0 in Keys(g)
    {
      GroupByKeys(rs, f, items[j].0);
    }
    PartitionSize(g, items);
  }

  /** `GetCountryReports`: the reports grouped by country. */
  function GetCountryReports(rs: seq<AccessReport>): (groups: seq<(string, seq<AccessReport>)>)
    ensures DistinctKeys(groups)
    ensures forall c :: c in Keys(groups) <==> exists j :: 0 <= j < |rs| && rs[j].country == c
    ensures forall i :: 0 <= i < |groups| ==> groups[i].1 == Members(Tag(rs, Country), groups[i].0)
  {
    var g := GroupBy(rs, Country);
    assert forall c :: c in Keys(g) <==> exists j :: 0 <= j < |rs| && rs[j].country == c by {
      forall c
        ensures c in Keys(g) <==> exists j :: 0 <= j < |rs| && rs[j].country == c
      {
        GroupByKeys(rs, Country, c);
      }
    }
    g
  }

  /** `GetReportsByUniqueVisitor`: the reports grouped by visitor uuid. */
  function GetReportsByUniqueVisitor(rs: seq<AccessReport>): (groups: seq<(string, seq<AccessReport>)>)
    ensures DistinctKeys(groups)
    ensures forall u :: u in Keys(groups) <==> exists j :: 0 <= j < |rs| && rs[j].uuid == u
    ensures forall i :: 0 <= i < |groups| ==> groups[i].1 == Members(Tag(rs, Visitor), groups[i].0)
  {
    var g := GroupBy(rs, Visitor);
    assert forall u :: u in Keys(g) <==> exists j :: 0 <= j < |rs| && rs[j].uuid == u by {
      forall u
        ensures u in Keys(g) <==> exists j :: 0 <= j < |rs| && rs[j].uuid == u
      {
        GroupByKeys(rs, Visitor, u);
      }
    }
    g
  }

  /** `GetReportsByUniqueIP`: the reports grouped by source address. */
  function GetReportsByUniqueIP(rs: seq<AccessReport>): (groups: seq<(string, seq<AccessReport>)>)
    ensures DistinctKeys(groups)
    ensures forall a :: a in Keys(groups) <==> exists j :: 0 <= j < |rs| && rs[j].sourceIp == a
    ensures forall i :: 0 <= i < |groups| ==> groups[i].1 == Members(Tag(rs, SourceIp), groups[i].0)
  {
    var g := GroupBy(rs, SourceIp);
    assert forall a :: a in Keys(g) <==> exists j :: 0 <= j < |rs| && rs[j].sourceIp == a by {
      forall a
        ensures a in Keys(g) <==> exists j :: 0 <= j < |rs| && rs[j].sourceIp == a
      {
        GroupByKeys(rs, SourceIp, a);
      }
    }
    g
  }
}
