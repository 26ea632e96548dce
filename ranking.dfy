/** Exclusion, ranking and top-N: drop the excluded tags, sort the rest by the chosen
    metric in descending order (a stable sort, so ties keep insertion order) and keep
    the first N. */
module Ranking {
  import opened Aggregation

  /** The two "Rank by" choices: `Count` and `Total Amount Raised`. */
  datatype Metric = ByCount | ByTotalAmount

  /** One dictionary item `(tag, {count, total_amount})`. */
  datatype Entry = Entry(tag: string, stats: Stats)

  function Value(e: Entry, m: Metric): int {
    match m
    case ByCount => e.stats.count
    case ByTotalAmount => e.stats.totalAmount
  }

  /** The entries for the keys `order`, in that order. */
  function EntriesOf(order: seq<string>, stats: map<string, Stats>): (r: seq<Entry>)
    requires forall k :: k in order ==> k in stats
    ensures |r| == |order|
    ensures forall i :: 0 <= i < |r| ==> r[i] == Entry(order[i], stats[order[i]])
    decreases |order|
  {
    if order == [] then [] else [Entry(order[0], stats[order[0]])] + EntriesOf(order[1..], stats)
  }

  /** The dictionary's items in insertion order (`dict.items()`). */
  function Items(t: TagTable): (r: seq<Entry>)
    requires Valid(t)
  {
    EntriesOf(t.order, t.stats)
  }

  function Labels(s: seq<Entry>): (r: seq<string>)
    ensures |r| == |s|
  {
    seq(|s|, i requires 0 <= i < |s| => s[i].tag)
  }

  // ---------------------------------------------------------------- exclusion

  /** `s` with the elements of `excluded` left out, in the same order. */
  function Without(s: seq<string>, excluded: set<string>): (r: seq<string>)
    decreases |s|
  {
    if s == [] then []
    else if s[0] in excluded then Without(s[1..], excluded)
    else [s[0]] + Without(s[1..], excluded)
  }

  /** `a` is `b` with some elements left out. */
  predicate Subsequence(a: seq<string>, b: seq<string>)
    decreases |b|
  {
    if a == [] then true
    else if b == [] then false
    else if a[0] == b[0] then Subsequence(a[1..], b[1..])
    else Subsequence(a, b[1..])
  }

  lemma {:induction false} WithoutSpec(s: seq<string>, excluded: set<string>)
    ensures forall k :: k in Without(s, excluded) <==> k in s && k !in excluded
    ensures Subsequence(Without(s, excluded), s)
    ensures NoDuplicates(s) ==> NoDuplicates(Without(s, excluded))
    decreases |s|
  {
    if s != [] {
      WithoutSpec(s[1..], excluded);
      var r := Without(s, excluded);
      var rest := Without(s[1..], excluded);
      if s[0] !in excluded {
        assert r[1..] == rest;
        if NoDuplicates(s) {
          assert forall i :: 0 < i < |s| ==> s[i] != s[0];
          assert s[0] !in s[1..];
          assert s[0] !in rest;
          assert NoDuplicates(rest) by {
            assert forall i, j :: 0 <= i < j < |s| - 1 ==> s[1..][i] == s[i + 1] && s[1..][j] == s[j + 1];
          }
        }
      } else {
        if NoDuplicates(s) {
          assert forall i, j :: 0 <= i < j < |s| - 1 ==> s[1..][i] == s[i + 1] && s[1..][j] == s[j + 1];
        }
      }
    }
  }

  /** Every element kept by `Without` is an element of `s`. */
  lemma {:induction false} WithoutIndex(s: seq<string>, excluded: set<string>, q: nat)
    requires q < |Without(s, excluded)|
    ensures exists j :: 0 <= j < |s| && s[j] == Without(s, excluded)[q]
    decreases |s|
  {
    var w := Without(s, excluded);
    var rest := Without(s[1..], excluded);
    if s[0] !in excluded && q == 0 {
      assert s[0] == w[q];
    } else {
      var q' := if s[0] !in excluded then q - 1 else q;
      assert w[q] == rest[q'];
      WithoutIndex(s[1..], excluded, q');
      var j :| 0 <= j < |s[1..]| && s[1..][j] == rest[q'];
      assert s[j + 1] == w[q];
    }
  }

  /** Elements in order after the exclusion were in that order before it. */
  lemma {:induction false} WithoutKeepsOrder(s: seq<string>, excluded: set<string>, p: nat, q: nat)
    requires p < q < |Without(s, excluded)|
    ensures InOrder(s, Without(s, excluded)[p], Without(s, excluded)[q])
    decreases |s|
  {
    var w := Without(s, excluded);
    var rest := Without(s[1..], excluded);
    if s[0] !in excluded && p == 0 {
      assert w[q] == rest[q - 1];
      WithoutIndex(s[1..], excluded, q - 1);
      var j :| 0 <= j < |s[1..]| && s[1..][j] == rest[q - 1];
      assert s[0] == w[p] && s[j + 1] == w[q];
    } else {
      var d := if s[0] !in excluded then 1 else 0;
      assert w[p] == rest[p - d] && w[q] == rest[q - d];
      WithoutKeepsOrder(s[1..], excluded, p - d, q - d);
      var i, j :| 0 <= i < j < |s[1..]| && s[1..][i] == rest[p - d] && s[1..][j] == rest[q - d];
      assert s[i + 1] == w[p] && s[j + 1] == w[q];
    }
  }

  /** The dict comprehension `{k: v for k, v in data.items() if k not in excluded}`. */
  function Exclude(t: TagTable, excluded: set<string>): (r: TagTable)
    requires Valid(t)
    ensures Valid(r)
    ensures forall k :: k in r.stats <==> k in t.stats && k !in excluded
    ensures forall k :: k in r.stats ==> r.stats[k] == t.stats[k]
    ensures Subsequence(r.order, t.order)
  {
    WithoutSpec(t.order, excluded);
    TagTable(map k | k in t.stats && k !in excluded :: t.stats[k], Without(t.order, excluded))
  }

  // ---------------------------------------------------------------- stable sort

  /** Non-increasing in the metric. */
  predicate Descending(s: seq<Entry>, m: Metric) {
    forall i, j :: 0 <= i < j < |s| ==> Value(s[i], m) >= Value(s[j], m)
  }

  /** The entries of `s` whose metric is `v`, in their order in `s`. */
  function WithValue(s: seq<Entry>, m: Metric, v: int): seq<Entry>
    decreases |s|
  {
    if s == [] then []
    else if Value(s[0], m) == v then [s[0]] + WithValue(s[1..], m, v)
    else WithValue(s[1..], m, v)
  }

  /** `r` orders equal-metric entries as `s` does: what a stable sort guarantees. */
  ghost predicate SameTies(r: seq<Entry>, s: seq<Entry>, m: Metric) {
    forall v :: WithValue(r, m, v) == WithValue(s, m, v)
  }

  /** Puts `e` in front of the first entry of `s` whose metric is not larger. */
  function Insert(e: Entry, s: seq<Entry>, m: Metric): (r: seq<Entry>)
    ensures |r| == |s| + 1 && multiset(r) == multiset(s) + multiset{e}
    decreases |s|
  {
    if s == [] || Value(s[0], m) <= Value(e, m) then [e] + s
    else
      assert s == [s[0]] + s[1..];
      [s[0]] + Insert(e, s[1..], m)
  }

  lemma {:induction false} InsertDescending(e: Entry, s: seq<Entry>, m: Metric)
    requires Descending(s, m)
    ensures Descending(Insert(e, s, m), m)
    ensures s != [] ==> Insert(e, s, m)[0] == e || Insert(e, s, m)[0] == s[0]
    decreases |s|
  {
    if !(s == [] || Value(s[0], m) <= Value(e, m)) {
      var rest := Insert(e, s[1..], m);
      DescendingTail(s, m);
      InsertDescending(e, s[1..], m);
      assert |s| > 1 ==> s[1..][0] == s[1];
      assert Value(rest[0], m) <= Value(s[0], m);
      ConsDescending(s[0], rest, m);
    }
  }

  /** Putting in front an entry no smaller than the head keeps a sequence descending. */
  lemma ConsDescending(x: Entry, s: seq<Entry>, m: Metric)
    requires Descending(s, m)
    requires s != [] ==> Value(s[0], m) <= Value(x, m)
    ensures Descending([x] + s, m)
  {
    var r := [x] + s;
    forall i, j | 0 <= i < j < |r|
      ensures Value(r[i], m) >= Value(r[j], m)
    {
      if i == 0 {
        assert r[j] == s[j - 1];
        assert Value(s[0], m) >= Value(s[j - 1], m);
      } else {
        assert r[i] == s[i - 1] && r[j] == s[j - 1];
      }
    }
  }

  lemma WithValueCons(x: Entry, s: seq<Entry>, m: Metric, v: int)
    ensures WithValue([x] + s, m, v) == (if Value(x, m) == v then [x] else []) + WithValue(s, m, v)
  {
    assert ([x] + s)[1..] == s;
  }

  lemma {:induction false} InsertTies(e: Entry, s: seq<Entry>, m: Metric, v: int)
    ensures WithValue(Insert(e, s, m), m, v) == (if Value(e, m) == v then [e] else []) + WithValue(s, m, v)
    decreases |s|
  {
    if s == [] || Value(s[0], m) <= Value(e, m) {
      WithValueCons(e, s, m, v);
    } else {
      var rest := Insert(e, s[1..], m);
      InsertTies(e, s[1..], m, v);
      WithValueCons(s[0], rest, m, v);
      WithValueCons(s[0], s[1..], m, v);
      assert [s[0]] + s[1..] == s;
      if Value(e, m) == v {
        assert Value(s[0], m) != v;
      }
    }
  }

  /** `sorted(items, key=metric, reverse=True)`: an insertion sort, which is stable. */
  function SortDesc(s: seq<Entry>, m: Metric): (r: seq<Entry>)
    ensures |r| == |s| && multiset(r) == multiset(s)
    ensures Descending(r, m)
    ensures SameTies(r, s, m)
    decreases |s|
  {
    if s == [] then []
    else
      var rest := SortDesc(s[1..], m);
      InsertStep(s, rest, m);
      Insert(s[0], rest, m)
  }

  /** Inserting the head into the sorted tail sorts the whole sequence. */
  lemma InsertStep(s: seq<Entry>, rest: seq<Entry>, m: Metric)
    requires s != []
    requires |rest| == |s| - 1 && multiset(rest) == multiset(s[1..])
    requires Descending(rest, m) && SameTies(rest, s[1..], m)
    ensures var r := Insert(s[0], rest, m);
      |r| == |s| && multiset(r) == multiset(s) && Descending(r, m) && SameTies(r, s, m)
  {
    assert s == [s[0]] + s[1..];
    InsertDescending(s[0], rest, m);
    forall v
      ensures WithValue(Insert(s[0], rest, m), m, v) == WithValue(s, m, v)
    {
      InsertTies(s[0], rest, m, v);
    }
  }

  lemma DescendingTail(s: seq<Entry>, m: Metric)
    requires s != [] && Descending(s, m)
    ensures Descending(s[1..], m)
  {
    assert forall i :: 0 <= i < |s| - 1 ==> s[1..][i] == s[i + 1];
  }

  /** In a descending sequence nothing after the head has a larger metric. */
  lemma {:induction false} HeadIsLargest(s: seq<Entry>, m: Metric, v: int)
    requires Descending(s, m) && WithValue(s, m, v) != []
    ensures Value(s[0], m) >= v
    decreases |s|
  {
    if Value(s[0], m) != v {
      DescendingTail(s, m);
      HeadIsLargest(s[1..], m, v);
    }
  }

  /** A non-empty sequence has at least one entry with its head's metric. */
  lemma HeadHasGroup(s: seq<Entry>, m: Metric)
    ensures s == [] || WithValue(s, m, Value(s[0], m)) != []
  {
  }

  /** The stable descending order is unique: two descending sequences that order every
      group of equal-metric entries alike are equal. So `SortDesc` is the only possible
      result of a stable descending sort. */
  lemma {:induction false} StableSortUnique(a: seq<Entry>, b: seq<Entry>, m: Metric)
    requires Descending(a, m) && Descending(b, m)
    requires SameTies(a, b, m)
    ensures a == b
    decreases |a|
  {
    if a != [] {
      var v := Value(a[0], m);
      assert WithValue(a, m, v) == [a[0]] + WithValue(a[1..], m, v);
      assert WithValue(b, m, v) != [];
      HeadIsLargest(b, m, v);
      var w := Value(b[0], m);
      assert WithValue(b, m, w) == [b[0]] + WithValue(b[1..], m, w);
      assert WithValue(a, m, w) != [];
      HeadIsLargest(a, m, w);
      assert v == w;
      assert WithValue(a, m, v) == WithValue(b, m, v);
      assert WithValue(a, m, v)[0] == a[0];
      assert WithValue(b, m, v)[0] == b[0];
      DescendingTail(a, m);
      DescendingTail(b, m);
      assert SameTies(a[1..], b[1..], m) by {
        forall u ensures WithValue(a[1..], m, u) == WithValue(b[1..], m, u) {
          assert WithValue(a, m, u) == WithValue(b, m, u);
          assert a == [a[0]] + a[1..] && b == [b[0]] + b[1..];
          WithValueCons(a[0], a[1..], m, u);
          WithValueCons(b[0], b[1..], m, u);
          if u == v {
            assert WithValue(a[1..], m, u) == WithValue(a, m, u)[1..];
            assert WithValue(b[1..], m, u) == WithValue(b, m, u)[1..];
          } else {
            assert WithValue(a[1..], m, u) == WithValue(a, m, u);
            assert WithValue(b[1..], m, u) == WithValue(b, m, u);
          }
        }
      }
      StableSortUnique(a[1..], b[1..], m);
      assert a == [a[0]] + a[1..] && b == [b[0]] + b[1..];
    } else {
      HeadHasGroup(b, m);
    }
  }

  /** `SortDesc` gives the same result for any input with the same ties — in particular,
      sorting an already stably sorted sequence leaves it unchanged. */
  lemma SortDescOfSorted(s: seq<Entry>, m: Metric)
    requires Descending(s, m)
    ensures SortDesc(s, m) == s
  {
    StableSortUnique(SortDesc(s, m), s, m);
  }

  // ---------------------------------------------------------------- ties keep their order

  /** `x` occurs before `y` in `s`. */
  predicate InOrder<T(==)>(s: seq<T>, x: T, y: T) {
    exists p, q :: 0 <= p < q < |s| && s[p] == x && s[q] == y
  }

  lemma {:induction false} WithValueMembers(s: seq<Entry>, m: Metric, v: int)
    ensures forall e :: e in WithValue(s, m, v) <==> e in s && Value(e, m) == v
    decreases |s|
  {
    if s != [] {
      WithValueMembers(s[1..], m, v);
      assert s == [s[0]] + s[1..];
    }
  }

  lemma {:induction false} WithValueAppend(a: seq<Entry>, b: seq<Entry>, m: Metric, v: int)
    ensures WithValue(a + b, m, v) == WithValue(a, m, v) + WithValue(b, m, v)
    decreases |a|
  {
    if a != [] {
      assert (a + b)[1..] == a[1..] + b;
      WithValueAppend(a[1..], b, m, v);
    } else {
      assert a + b == b;
    }
  }

  /** An entry of metric `v` sits in `s`'s group of `v` right after the group's entries before it. */
  lemma WithValueAt(s: seq<Entry>, m: Metric, v: int, j: nat)
    requires j < |s| && Value(s[j], m) == v
    ensures WithValue(s, m, v) == WithValue(s[..j], m, v) + [s[j]] + WithValue(s[j + 1..], m, v)
  {
    assert s == s[..j] + ([s[j]] + s[j + 1..]);
    WithValueAppend(s[..j], [s[j]] + s[j + 1..], m, v);
    WithValueCons(s[j], s[j + 1..], m, v);
  }

  /** Two entries of metric `v`, in this order in `s`, keep that order in `s`'s group of `v`. */
  lemma WithValueKeepsPair(s: seq<Entry>, m: Metric, v: int, i: nat, j: nat)
    requires i < j < |s| && Value(s[i], m) == v && Value(s[j], m) == v
    ensures InOrder(WithValue(s, m, v), s[i], s[j])
  {
    var w := WithValue(s, m, v);
    WithValueAt(s, m, v, i);
    WithValueAt(s, m, v, j);
    var t := s[..j];
    assert t[i] == s[i] && i < |t|;
    WithValueAt(t, m, v, i);
    assert t[..i] == s[..i];
    var p := |WithValue(s[..i], m, v)|;
    var q := |WithValue(s[..j], m, v)|;
    assert w[p] == s[i];
    assert w[q] == s[j];
  }

  /** Every entry of `s`'s group of `v` is an entry of `s`. */
  lemma {:induction false} WithValueIndex(s: seq<Entry>, m: Metric, v: int, q: nat)
    requires q < |WithValue(s, m, v)|
    ensures exists j :: 0 <= j < |s| && s[j] == WithValue(s, m, v)[q]
    decreases |s|
  {
    var w := WithValue(s, m, v);
    var rest := WithValue(s[1..], m, v);
    if Value(s[0], m) == v && q == 0 {
      assert s[0] == w[q];
    } else {
      var q' := if Value(s[0], m) == v then q - 1 else q;
      assert w[q] == rest[q'];
      WithValueIndex(s[1..], m, v, q');
      var j :| 0 <= j < |s[1..]| && s[1..][j] == rest[q'];
      assert s[j + 1] == w[q];
    }
  }

  /** Conversely, entries in order in `s`'s group of `v` are in that order in `s`. */
  lemma {:induction false} WithValuePairFrom(s: seq<Entry>, m: Metric, v: int, p: nat, q: nat)
    requires p < q < |WithValue(s, m, v)|
    ensures InOrder(s, WithValue(s, m, v)[p], WithValue(s, m, v)[q])
    decreases |s|
  {
    var w := WithValue(s, m, v);
    var rest := WithValue(s[1..], m, v);
    if Value(s[0], m) == v && p == 0 {
      assert w[q] == rest[q - 1];
      WithValueIndex(s[1..], m, v, q - 1);
      var j :| 0 <= j < |s[1..]| && s[1..][j] == rest[q - 1];
      assert s[0] == w[p] && s[j + 1] == w[q];
    } else {
      var d := if Value(s[0], m) == v then 1 else 0;
      assert w[p] == rest[p - d] && w[q] == rest[q - d];
      WithValuePairFrom(s[1..], m, v, p - d, q - d);
      var i, j :| 0 <= i < j < |s[1..]| && s[1..][i] == rest[p - d] && s[1..][j] == rest[q - d];
      assert s[i + 1] == w[p] && s[j + 1] == w[q];
    }
  }

  /** A stable sort leaves equal-metric entries in their input order. */
  lemma SortDescStable(s: seq<Entry>, m: Metric, i: nat, j: nat)
    requires i < j < |SortDesc(s, m)|
    requires Value(SortDesc(s, m)[i], m) == Value(SortDesc(s, m)[j], m)
    ensures InOrder(s, SortDesc(s, m)[i], SortDesc(s, m)[j])
  {
    var r := SortDesc(s, m);
    var v := Value(r[i], m);
    WithValueKeepsPair(r, m, v, i, j);
    var p, q :| 0 <= p < q < |WithValue(r, m, v)| && WithValue(r, m, v)[p] == r[i] && WithValue(r, m, v)[q] == r[j];
    assert WithValue(r, m, v) == WithValue(s, m, v);
    WithValuePairFrom(s, m, v, p, q);
  }

  // ---------------------------------------------------------------- no entry twice

  lemma {:induction false} DistinctMultiplicity<T>(s: seq<T>, x: T)
    requires NoDuplicates(s)
    ensures multiset(s)[x] <= 1
    decreases |s|
  {
    if s != [] {
      assert s == [s[0]] + s[1..];
      assert forall i, j :: 0 <= i < j < |s| - 1 ==> s[1..][i] == s[i + 1] && s[1..][j] == s[j + 1];
      DistinctMultiplicity(s[1..], x);
      if x == s[0] {
        assert forall i :: 0 <= i < |s| - 1 ==> s[1..][i] == s[i + 1] != s[0];
        assert x !in s[1..];
      }
    }
  }

  lemma RepeatMultiplicity<T>(s: seq<T>, i: nat, j: nat)
    requires i < j < |s| && s[i] == s[j]
    ensures multiset(s)[s[i]] >= 2
  {
    assert s == s[..i] + [s[i]] + s[i + 1..j] + [s[j]] + s[j + 1..];
  }

  /** A rearrangement of a sequence without repeats has none either. */
  lemma PermutationDistinct<T>(a: seq<T>, b: seq<T>)
    requires multiset(a) == multiset(b) && NoDuplicates(b)
    ensures NoDuplicates(a)
  {
    forall i, j | 0 <= i < j < |a|
      ensures a[i] != a[j]
    {
      if a[i] == a[j] {
        RepeatMultiplicity(a, i, j);
        DistinctMultiplicity(b, a[i]);
      }
    }
  }

  /** Entries of the table are told apart by their tags. */
  predicate FromTable(s: seq<Entry>, t: TagTable) {
    forall i :: 0 <= i < |s| ==> s[i].tag in t.stats && s[i].stats == t.stats[s[i].tag]
  }

  lemma DistinctTags(s: seq<Entry>, t: TagTable)
    requires FromTable(s, t) && NoDuplicates(s)
    ensures NoDuplicates(Labels(s))
  {
    forall i, j | 0 <= i < j < |s|
      ensures s[i].tag != s[j].tag
    {
      assert s[i] != s[j];
    }
  }

  /** Sorting the items keeps every entry once and only entries of the table. */
  lemma SortedItems(t: TagTable, m: Metric)
    requires Valid(t)
    ensures FromTable(SortDesc(Items(t), m), t)
    ensures NoDuplicates(SortDesc(Items(t), m))
    ensures NoDuplicates(Labels(SortDesc(Items(t), m)))
  {
    var items := Items(t);
    var r := SortDesc(items, m);
    assert NoDuplicates(items) by {
      forall i, j | 0 <= i < j < |items| ensures items[i] != items[j] {
        assert items[i].tag == t.order[i] && items[j].tag == t.order[j];
      }
    }
    forall i | 0 <= i < |r|
      ensures r[i].tag in t.stats && r[i].stats == t.stats[r[i].tag]
    {
      assert r[i] in multiset(items);
      var k :| 0 <= k < |items| && items[k] == r[i];
    }
    PermutationDistinct(r, items);
    DistinctTags(r, t);
  }

  // ---------------------------------------------------------------- ranking and top-N

  function Min(a: nat, b: nat): nat {
    if a < b then a else b
  }

  /** Python's slice `s[:n]`, the whole of `s` when `n` exceeds its length. */
  function Take<T>(s: seq<T>, n: nat): (r: seq<T>)
    ensures |r| == Min(n, |s|)
    ensures forall i :: 0 <= i < |r| ==> r[i] == s[i]
  {
    if n < |s| then s[..n] else s
  }

  /** `sorted(data.keys(), key=metric, reverse=True)`: every tag, best first; the
      options offered for exclusion. */
  function Ranked(t: TagTable, m: Metric): (r: seq<string>)
    requires Valid(t)
    ensures |r| == |t.order|
  {
    Labels(SortDesc(Items(t), m))
  }

  /** `sorted(data.items(), key=metric, reverse=True)[:n]`. */
  function TopN(t: TagTable, m: Metric, n: nat): (r: seq<Entry>)
    requires Valid(t)
    ensures |r| == Min(n, |t.order|)
  {
    Take(SortDesc(Items(t), m), n)
  }

  /** The metric of key `k` of the dictionary. */
  function MetricOf(t: TagTable, k: string, m: Metric): int
    requires k in t.stats
  {
    Value(Entry(k, t.stats[k]), m)
  }

  /** The ranking lists every key of the dictionary exactly once, by non-increasing metric. */
  lemma RankedSpec(t: TagTable, m: Metric)
    requires Valid(t)
    ensures var r := Ranked(t, m);
      && |r| == |t.order|
      && NoDuplicates(r)
      && (forall k :: k in r <==> k in t.stats)
      && (forall i, j :: 0 <= i < j < |r| ==> r[i] in t.stats && r[j] in t.stats && MetricOf(t, r[i], m) >= MetricOf(t, r[j], m))
  {
    var sorted := SortDesc(Items(t), m);
    var r := Labels(sorted);
    SortedItems(t, m);
    forall k | k in t.stats
      ensures k in r
    {
      KeyRanked(t, m, k);
    }
    forall i, j | 0 <= i < j < |r|
      ensures r[i] in t.stats && r[j] in t.stats && MetricOf(t, r[i], m) >= MetricOf(t, r[j], m)
    {
      assert r[i] == sorted[i].tag && r[j] == sorted[j].tag;
    }
  }

  /** Every key of the dictionary is somewhere in the ranking. */
  lemma KeyRanked(t: TagTable, m: Metric, k: string)
    requires Valid(t) && k in t.stats
    ensures k in Ranked(t, m)
  {
    var items := Items(t);
    var sorted := SortDesc(items, m);
    var p :| 0 <= p < |t.order| && t.order[p] == k;
    assert items[p] in multiset(sorted);
    var q :| 0 <= q < |sorted| && sorted[q] == items[p];
    assert Labels(sorted)[q] == k;
  }

  /** The top-N list: `min(n, |dictionary|)` entries of the dictionary with their values,
      no tag twice, by non-increasing metric. */
  lemma TopNSpec(t: TagTable, m: Metric, n: nat)
    requires Valid(t)
    ensures var r := TopN(t, m, n);
      && |r| == Min(n, |t.order|)
      && FromTable(r, t)
      && NoDuplicates(Labels(r))
      && Descending(r, m)
  {
    SortedItems(t, m);
    TakeKeeps(SortDesc(Items(t), m), t, m, n);
  }

  /** A prefix keeps what the whole sequence has: entries of the table, distinct tags, descent. */
  lemma TakeKeeps(s: seq<Entry>, t: TagTable, m: Metric, n: nat)
    requires FromTable(s, t) && NoDuplicates(Labels(s)) && Descending(s, m)
    ensures FromTable(Take(s, n), t) && NoDuplicates(Labels(Take(s, n))) && Descending(Take(s, n), m)
  {
    var r := Take(s, n);
    assert forall i :: 0 <= i < |r| ==> Labels(r)[i] == Labels(s)[i];
  }

  /** Equal metrics keep insertion order (Python's `sorted` is stable). */
  lemma TopNTies(t: TagTable, m: Metric, n: nat, i: nat, j: nat)
    requires Valid(t)
    requires i < j < |TopN(t, m, n)|
    requires Value(TopN(t, m, n)[i], m) == Value(TopN(t, m, n)[j], m)
    ensures InOrder(t.order, TopN(t, m, n)[i].tag, TopN(t, m, n)[j].tag)
  {
    var items := Items(t);
    var sorted := SortDesc(items, m);
    assert TopN(t, m, n)[i] == sorted[i] && TopN(t, m, n)[j] == sorted[j];
    SortDescStable(items, m, i, j);
    ItemsInOrder(t, sorted[i], sorted[j]);
  }

  /** Items in order in `dict.items()` have their keys in insertion order. */
  lemma ItemsInOrder(t: TagTable, x: Entry, y: Entry)
    requires Valid(t) && InOrder(Items(t), x, y)
    ensures InOrder(t.order, x.tag, y.tag)
  {
    var items := Items(t);
    var p, q :| 0 <= p < q < |items| && items[p] == x && items[q] == y;
    assert t.order[p] == x.tag && t.order[q] == y.tag;
  }

  /** The top N really are the top: a key left out has a metric no larger than any kept. */
  lemma TopNIsTop(t: TagTable, m: Metric, n: nat, k: string, i: nat)
    requires Valid(t)
    requires k in t.stats && k !in Labels(TopN(t, m, n))
    requires i < |TopN(t, m, n)|
    ensures MetricOf(t, k, m) <= Value(TopN(t, m, n)[i], m)
  {
    var items := Items(t);
    var sorted := SortDesc(items, m);
    var r := TopN(t, m, n);
    var p :| 0 <= p < |t.order| && t.order[p] == k;
    assert items[p] == Entry(k, t.stats[k]);
    assert items[p] in multiset(sorted);
    var q :| 0 <= q < |sorted| && sorted[q] == items[p];
    assert forall x :: 0 <= x < |r| ==> Labels(r)[x] == sorted[x].tag;
    assert |r| <= q;
    assert r[i] == sorted[i];
  }

  // ---------------------------------------------------------------- exclusion and ranking

  /** The entries of `s` whose tag is not excluded, in the same order. */
  function FilterOut(s: seq<Entry>, excluded: set<string>): seq<Entry>
    decreases |s|
  {
    if s == [] then []
    else if s[0].tag in excluded then FilterOut(s[1..], excluded)
    else [s[0]] + FilterOut(s[1..], excluded)
  }

  /** Filtering the entries is filtering their tags with `Without`. */
  lemma {:induction false} FilterOutLabels(s: seq<Entry>, excluded: set<string>)
    ensures Labels(FilterOut(s, excluded)) == Without(Labels(s), excluded)
    decreases |s|
  {
    if s != [] {
      FilterOutLabels(s[1..], excluded);
      assert Labels(s)[1..] == Labels(s[1..]);
      assert Labels(s)[0] == s[0].tag;
      if s[0].tag !in excluded {
        assert Labels([s[0]] + FilterOut(s[1..], excluded)) == [s[0].tag] + Labels(FilterOut(s[1..], excluded));
      }
    }
  }

  lemma {:induction false} FilterOutMembers(s: seq<Entry>, excluded: set<string>)
    ensures forall e :: e in FilterOut(s, excluded) <==> e in s && e.tag !in excluded
    decreases |s|
  {
    if s != [] {
      FilterOutMembers(s[1..], excluded);
      assert s == [s[0]] + s[1..];
    }
  }

  lemma {:induction false} FilterOutDescending(s: seq<Entry>, excluded: set<string>, m: Metric)
    requires Descending(s, m)
    ensures Descending(FilterOut(s, excluded), m)
    decreases |s|
  {
    if s != [] {
      DescendingTail(s, m);
      FilterOutDescending(s[1..], excluded, m);
      if s[0].tag !in excluded {
        var rest := FilterOut(s[1..], excluded);
        FilterOutMembers(s[1..], excluded);
        forall j | 0 <= j < |rest|
          ensures Value(rest[j], m) <= Value(s[0], m)
        {
          assert rest[j] in s[1..];
        }
      }
    }
  }

  lemma {:induction false} FilterOutWithValue(s: seq<Entry>, excluded: set<string>, m: Metric, v: int)
    ensures WithValue(FilterOut(s, excluded), m, v) == FilterOut(WithValue(s, m, v), excluded)
    decreases |s|
  {
    if s != [] {
      FilterOutWithValue(s[1..], excluded, m, v);
      var rest := FilterOut(s[1..], excluded);
      if s[0].tag !in excluded {
        WithValueCons(s[0], rest, m, v);
      }
      if Value(s[0], m) == v {
        assert ([s[0]] + WithValue(s[1..], m, v))[1..] == WithValue(s[1..], m, v);
      }
    }
  }

  /** Excluding tags and then sorting is sorting and then excluding: the stable sort of
      the filtered items is the full ranking with the excluded tags taken out. */
  lemma SortAfterExclusion(s: seq<Entry>, excluded: set<string>, m: Metric)
    ensures SortDesc(FilterOut(s, excluded), m) == FilterOut(SortDesc(s, m), excluded)
  {
    var a := SortDesc(FilterOut(s, excluded), m);
    var b := FilterOut(SortDesc(s, m), excluded);
    FilterOutDescending(SortDesc(s, m), excluded, m);
    forall v
      ensures WithValue(a, m, v) == WithValue(b, m, v)
    {
      FilterOutWithValue(s, excluded, m, v);
      FilterOutWithValue(SortDesc(s, m), excluded, m, v);
    }
    StableSortUnique(a, b, m);
  }

  lemma {:induction false} EntriesWithout(order: seq<string>, stats: map<string, Stats>,
                                          kept: map<string, Stats>, excluded: set<string>)
    requires forall k :: k in order ==> k in stats
    requires forall k :: k in order && k !in excluded ==> k in kept && kept[k] == stats[k]
    ensures forall k :: k in Without(order, excluded) ==> k in kept
    ensures EntriesOf(Without(order, excluded), kept) == FilterOut(EntriesOf(order, stats), excluded)
    decreases |order|
  {
    WithoutSpec(order, excluded);
    if order != [] {
      EntriesWithout(order[1..], stats, kept, excluded);
      var e := EntriesOf(order, stats);
      assert e[1..] == EntriesOf(order[1..], stats);
      if order[0] !in excluded {
        assert Without(order, excluded)[1..] == Without(order[1..], excluded);
      }
    }
  }

  /** The dictionary's items after the exclusion comprehension are its items minus the
      excluded ones, values and order unchanged. */
  lemma ExcludedItems(t: TagTable, excluded: set<string>)
    requires Valid(t)
    ensures Items(Exclude(t, excluded)) == FilterOut(Items(t), excluded)
  {
    EntriesWithout(t.order, t.stats, Exclude(t, excluded).stats, excluded);
  }

  /** The chart's bars are the first N tags of the full ranking (the exclusion options, in
      their order) once the excluded ones are taken out; no excluded tag is ever shown; and
      there are exactly N bars when `1 <= N <= |filtered|`, the bounds of the number input. */
  lemma TopNAfterExclusion(t: TagTable, excluded: set<string>, m: Metric, n: nat)
    requires Valid(t)
    ensures TopN(Exclude(t, excluded), m, n) == Take(FilterOut(SortDesc(Items(t), m), excluded), n)
    ensures forall i :: 0 <= i < |TopN(Exclude(t, excluded), m, n)| ==>
      TopN(Exclude(t, excluded), m, n)[i].tag !in excluded
    ensures 1 <= n <= |Exclude(t, excluded).order| ==> |TopN(Exclude(t, excluded), m, n)| == n
  {
    var f := Exclude(t, excluded);
    ExcludedItems(t, excluded);
    SortAfterExclusion(Items(t), excluded, m);
    TopNSpec(f, m, n);
  }
}
