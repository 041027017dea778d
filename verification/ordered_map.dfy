/**
  JavaScript `Map` as the analytics code uses it: a sequence of key/value
  pairs with distinct keys, iterated in insertion order.
 */
module OrderedMap {

  function Keys<K, V>(m: seq<(K, V)>): (ks: seq<K>)
    ensures |ks| == |m|
    ensures forall i :: 0 <= i < |m| ==> ks[i] == m[i].0
  {
    seq(|m|, i requires 0 <= i < |m| => m[i].0)
  }

  predicate Distinct<K(==)>(ks: seq<K>) {
    forall i, j :: 0 <= i < j < |ks| ==> ks[i] != ks[j]
  }

  /** The invariant of every `Map`: no key occurs twice. */
  predicate DistinctKeys<K(==), V>(m: seq<(K, V)>) {
    Distinct(Keys(m))
  }

  function IndexOf<K(==)>(ks: seq<K>, k: K): (i: nat)
    requires k in ks
    ensures i < |ks| && ks[i] == k
    ensures forall j :: 0 <= j < i ==> ks[j] != k
  {
    if ks[0] == k then 0 else 1 + IndexOf(ks[1..], k)
  }

  /** `map.get(k) ?? fallback`. */
  function GetOr<K(==), V>(m: seq<(K, V)>, k: K, fallback: V): (v: V)
    requires DistinctKeys(m)
    ensures forall i :: 0 <= i < |m| && m[i].0 == k ==> v == m[i].1
    ensures k !in Keys(m) ==> v == fallback
  {
    if k in Keys(m) then m[IndexOf(Keys(m), k)].1 else fallback
  }

  /**
    `map.set(k, v)`: a present key keeps its position and takes the new
    value; an absent key is appended at the end.
   */
  function Set<K(==), V>(m: seq<(K, V)>, k: K, v: V): (r: seq<(K, V)>)
    requires DistinctKeys(m)
    ensures DistinctKeys(r)
    ensures Keys(r) == if k in Keys(m) then Keys(m) else Keys(m) + [k]
    ensures forall i :: 0 <= i < |r| ==> r[i].1 == if r[i].0 == k then v else m[i].1
  {
    if k in Keys(m) then m[IndexOf(Keys(m), k) := (k, v)] else m + [(k, v)]
  }

  /** `map.get(k)!.push(x)`: the key must be present. */
  function Push<K(==), V>(m: seq<(K, seq<V>)>, k: K, x: V): (r: seq<(K, seq<V>)>)
    requires DistinctKeys(m) && k in Keys(m)
    ensures Keys(r) == Keys(m)
    ensures forall i :: 0 <= i < |r| ==> r[i].1 == if r[i].0 == k then m[i].1 + [x] else m[i].1
  {
    var i := IndexOf(Keys(m), k);
    m[i := (k, m[i].1 + [x])]
  }

  /**
    `if (!map.has(k)) map.set(k, []); map.get(k)!.push(x)`: get-or-create,
    then append.
   */
  function AppendUnder<K(==), V>(m: seq<(K, seq<V>)>, k: K, x: V): (r: seq<(K, seq<V>)>)
    requires DistinctKeys(m)
    ensures DistinctKeys(r)
    ensures Keys(r) == if k in Keys(m) then Keys(m) else Keys(m) + [k]
    ensures forall i :: 0 <= i < |r| ==> r[i].1 == if r[i].0 == k then GetOr(m, k, []) + [x] else m[i].1
  {
    if k in Keys(m) then Push(m, k, x) else Push(Set(m, k, []), k, x)
  }

  /** The values filed under `k`, in the order the pairs occur. */
  function Members<K(==), V>(items: seq<(K, V)>, k: K): seq<V>
    decreases |items|
  {
    if |items| == 0 then []
    else
      var last := items[|items| - 1];
      Members(items[..|items| - 1], k) + (if last.0 == k then [last.1] else [])
  }

  lemma {:induction false} MembersMembership<K, V>(items: seq<(K, V)>, k: K, x: V)
    ensures x in Members(items, k) <==> exists j :: 0 <= j < |items| && items[j] == (k, x)
    decreases |items|
  {
    if |items| > 0 {
      var pre := items[..|items| - 1];
      MembersMembership(pre, k, x);
      if x in Members(items, k) && x !in Members(pre, k) {
        assert items[|items| - 1] == (k, x);
      }
      if j :| 0 <= j < |items| && items[j] == (k, x) {
        if j < |items| - 1 {
          assert pre[j] == (k, x);
        }
      }
    }
  }

  /** The number of values held in all entries together. */
  function TotalSize<K, V>(m: seq<(K, seq<V>)>): nat
    decreases |m|
  {
    if |m| == 0 then 0 else TotalSize(m[..|m| - 1]) + |m[|m| - 1].1|
  }

  function Count<K(==)>(ks: seq<K>, k: K): nat
    decreases |ks|
  {
    if |ks| == 0 then 0 else Count(ks[..|ks| - 1], k) + (if ks[|ks| - 1] == k then 1 else 0)
  }

  lemma {:induction false} CountDistinct<K>(ks: seq<K>, k: K)
    requires Distinct(ks)
    ensures Count(ks, k) == if k in ks then 1 else 0
    decreases |ks|
  {
    if |ks| > 0 {
      var pre := ks[..|ks| - 1];
      CountDistinct(pre, k);
      assert ks == pre + [ks[|ks| - 1]];
      if ks[|ks| - 1] == k {
        assert k !in pre;
      }
    }
  }

  /** The sizes of the member lists of every key in `ks`, added up. */
  function SumMembers<K(==), V>(ks: seq<K>, items: seq<(K, V)>): nat
    decreases |ks|
  {
    if |ks| == 0 then 0 else SumMembers(ks[..|ks| - 1], items) + |Members(items, ks[|ks| - 1])|
  }

  lemma {:induction false} SumMembersAppend<K, V>(ks: seq<K>, items: seq<(K, V)>, item: (K, V))
    ensures SumMembers(ks, items + [item]) == SumMembers(ks, items) + Count(ks, item.0)
    decreases |ks|
  {
    assert (items + [item])[..|items|] == items;
    if |ks| > 0 {
      SumMembersAppend(ks[..|ks| - 1], items, item);
    }
  }

  lemma {:induction false} SumMembersCoversAll<K, V>(ks: seq<K>, items: seq<(K, V)>)
    requires Distinct(ks)
    requires forall j :: 0 <= j < |items| ==> items[j].0 in ks
    ensures SumMembers(ks, items) == |items|
    decreases |items|
  {
    if |items| == 0 {
      SumMembersEmpty(ks, items);
    } else {
      var pre, last := items[..|items| - 1], items[|items| - 1];
      assert items == pre + [last];
      SumMembersCoversAll(ks, pre);
      SumMembersAppend(ks, pre, last);
      CountDistinct(ks, last.0);
    }
  }

  lemma {:induction false} SumMembersEmpty<K, V>(ks: seq<K>, items: seq<(K, V)>)
    requires |items| == 0
    ensures SumMembers(ks, items) == 0
    decreases |ks|
  {
    if |ks| > 0 {
      SumMembersEmpty(ks[..|ks| - 1], items);
    }
  }

  lemma {:induction false} TotalSizeOfMembers<K, V>(m: seq<(K, seq<V>)>, items: seq<(K, V)>)
    requires forall i :: 0 <= i < |m| ==> m[i].1 == Members(items, m[i].0)
    ensures TotalSize(m) == SumMembers(Keys(m), items)
    decreases |m|
  {
    if |m| > 0 {
      var pre := m[..|m| - 1];
      TotalSizeOfMembers(pre, items);
      assert Keys(m)[..|m| - 1] == Keys(pre);
    }
  }

  /**
    When every entry holds exactly the members of its key, the keys are
    distinct and every item's key has an entry, each item is counted
    exactly once: the entries' sizes add up to the number of items.
   */
  lemma PartitionSize<K, V>(m: seq<(K, seq<V>)>, items: seq<(K, V)>)
    requires DistinctKeys(m)
    requires forall j :: 0 <= j < |items| ==> items[j].0 in Keys(m)
    requires forall i :: 0 <= i < |m| ==> m[i].1 == Members(items, m[i].0)
    ensures TotalSize(m) == |items|
  {
    TotalSizeOfMembers(m, items);
    SumMembersCoversAll(Keys(m), items);
  }

  /** The distinct elements of `ks`, each at the place it first occurs. */
  function Dedup<K(==)>(ks: seq<K>): (d: seq<K>)
    ensures Distinct(d)
    decreases |ks|
  {
    if |ks| == 0 then []
    else
      var d := Dedup(ks[..|ks| - 1]);
      var last := ks[|ks| - 1];
      if last in d then d else d + [last]
  }

  /** `Dedup` drops repetitions only: it keeps every element and adds none. */
  lemma {:induction false} DedupMembers<K>(ks: seq<K>, k: K)
    ensures k in Dedup(ks) <==> k in ks
    decreases |ks|
  {
    if |ks| > 0 {
      var pre, last := ks[..|ks| - 1], ks[|ks| - 1];
      assert ks == pre + [last];
      DedupMembers(pre, k);
      DedupMembers(pre, last);
    }
  }

  /** A sequence without repetitions is its own `Dedup`. */
  lemma {:induction false} DedupOfDistinct<K>(ks: seq<K>)
    requires Distinct(ks)
    ensures Dedup(ks) == ks
    decreases |ks|
  {
    if |ks| > 0 {
      var pre, last := ks[..|ks| - 1], ks[|ks| - 1];
      assert ks == pre + [last];
      DedupOfDistinct(pre);
      DedupMembers(pre, last);
    }
  }

  lemma IndexOfExtend<K>(ks: seq<K>, y: K, k: K)
    requires k in ks
    ensures IndexOf(ks + [y], k) == IndexOf(ks, k)
  {
    assert (ks + [y])[IndexOf(ks, k)] == k;
  }

  /** `Dedup` lists the elements in the order of their first occurrence. */
  lemma {:induction false} DedupFirstSeen<K>(ks: seq<K>, i: int, j: int)
    requires 0 <= i < j < |Dedup(ks)|
    ensures Dedup(ks)[i] in ks && Dedup(ks)[j] in ks
    ensures IndexOf(ks, Dedup(ks)[i]) < IndexOf(ks, Dedup(ks)[j])
    decreases |ks|
  {
    var pre, last := ks[..|ks| - 1], ks[|ks| - 1];
    assert ks == pre + [last];
    var d := Dedup(pre);
    var a, b := Dedup(ks)[i], Dedup(ks)[j];
    DedupMembers(ks, a);
    DedupMembers(ks, b);
    DedupMembers(pre, last);
    if j < |d| {
      DedupFirstSeen(pre, i, j);
      assert a == d[i] && b == d[j];
      IndexOfExtend(pre, last, a);
      IndexOfExtend(pre, last, b);
    } else {
      assert b == last && a == d[i];
      DedupMembers(pre, a);
      IndexOfExtend(pre, last, a);
      assert (pre + [last])[|pre|] == last;
      assert forall t :: 0 <= t < |pre| ==> (pre + [last])[t] == pre[t];
    }
  }

  /**
    `for (const k of ks) map.set(k, [])` on a new map: an empty list under
    every distinct key, in first-seen order.
   */
  function Preset<K(==), V>(ks: seq<K>): (m: seq<(K, seq<V>)>)
    ensures DistinctKeys(m)
    ensures Keys(m) == Dedup(ks)
    ensures forall i :: 0 <= i < |m| ==> m[i].1 == []
    decreases |ks|
  {
    if |ks| == 0 then []
    else
      var pre, last := ks[..|ks| - 1], ks[|ks| - 1];
      DedupMembers(pre, last);
      Set(Preset(pre), last, [])
  }

  /** `AppendUnder` under a present key touches that key's entry only, and only at its end. */
  lemma AppendUnderPresent<K, V>(m: seq<(K, seq<V>)>, k: K, x: V, i: int)
    requires DistinctKeys(m) && k in Keys(m) && 0 <= i < |m|
    ensures |AppendUnder(m, k, x)| == |m|
    ensures AppendUnder(m, k, x)[i] == (m[i].0, m[i].1 + if m[i].0 == k then [x] else [])
  {
    var w := IndexOf(Keys(m), k);
    assert AppendUnder(m, k, x) == m[w := (k, m[w].1 + [x])];
    if i != w {
      assert Keys(m)[i] != Keys(m)[w];
      assert m[i].1 + [] == m[i].1;
    }
  }

  /**
    `AppendUnder` for every item in turn. The keys stay distinct; what the
    entries hold is stated by `GatherEntry`.
   */
  function Gather<K(==), V>(m: seq<(K, seq<V>)>, items: seq<(K, V)>): (r: seq<(K, seq<V>)>)
    requires DistinctKeys(m)
    ensures DistinctKeys(r)
    decreases |items|
  {
    if |items| == 0 then m
    else AppendUnder(Gather(m, items[..|items| - 1]), items[|items| - 1].0, items[|items| - 1].1)
  }

  lemma ConcatAssociative<T>(a: seq<T>, b: seq<T>, c: seq<T>)
    ensures (a + b) + c == a + (b + c)
  {
  }

  /** When every item's key is already present, `Gather` keeps the keys as they are. */
  lemma {:induction false} GatherKeys<K, V>(m: seq<(K, seq<V>)>, items: seq<(K, V)>)
    requires DistinctKeys(m)
    requires forall j :: 0 <= j < |items| ==> items[j].0 in Keys(m)
    ensures Keys(Gather(m, items)) == Keys(m)
    decreases |items|
  {
    if |items| > 0 {
      var pre := items[..|items| - 1];
      assert forall j :: 0 <= j < |pre| ==> pre[j] == items[j];
      GatherKeys(m, pre);
    }
  }

  /**
    When every item's key is already present, entry `i` of `Gather` ends
    with the members of its key appended, in item order.
   */
  lemma {:induction false} GatherEntry<K, V>(m: seq<(K, seq<V>)>, items: seq<(K, V)>, i: int)
    requires DistinctKeys(m)
    requires forall j :: 0 <= j < |items| ==> items[j].0 in Keys(m)
    requires 0 <= i < |m|
    ensures |Gather(m, items)| == |m|
    ensures Gather(m, items)[i] == (m[i].0, m[i].1 + Members(items, m[i].0))
    decreases |items|
  {
    GatherKeys(m, items);
    assert Keys(Gather(m, items))[i] == Keys(m)[i];
    if |items| > 0 {
      var pre, last := items[..|items| - 1], items[|items| - 1];
      assert forall j :: 0 <= j < |pre| ==> pre[j] == items[j];
      var r := Gather(m, pre);
      GatherKeys(m, pre);
      GatherEntry(m, pre, i);
      AppendUnderPresent(r, last.0, last.1, i);
      ConcatAssociative(m[i].1, Members(pre, m[i].0), if last.0 == m[i].0 then [last.1] else []);
    } else {
      assert m[i].1 + [] == m[i].1;
    }
  }

  /**
    Starting from empty lists under keys that cover every item, `Gather`
    leaves each key holding exactly its members, in item order.
   */
  lemma GatherFromEmpty<K, V>(m: seq<(K, seq<V>)>, items: seq<(K, V)>)
    requires DistinctKeys(m)
    requires forall j :: 0 <= j < |items| ==> items[j].0 in Keys(m)
    requires forall i :: 0 <= i < |m| ==> m[i].1 == []
    ensures Keys(Gather(m, items)) == Keys(m)
    ensures forall i :: 0 <= i < |m| ==> Gather(m, items)[i].1 == Members(items, m[i].0)
  {
    GatherKeys(m, items);
    forall i | 0 <= i < |m|
      ensures Gather(m, items)[i].1 == Members(items, m[i].0)
    {
      GatherEntry(m, items, i);
      ConcatEmpty(m[i].1, Members(items, m[i].0));
    }
  }

  lemma ConcatEmpty<T>(a: seq<T>, b: seq<T>)
    requires a == []
    ensures a + b == b
  {
  }
}
