/** The tag aggregator: one pass over the rows that builds, in place, the dictionary
    from tag to its mention count and summed amount, keyed in first-seen order. */
module Aggregation {
  import opened Wrappers
  import opened Tags

  /** One table row as the aggregator reads it: the industries and buzzwords cells and
      the amount cell, each `None` when the cell is missing (NaN). */
  datatype Row = Row(industries: Option<string>, buzzwords: Option<string>, amount: Option<int>)

  /** A dictionary value `{count, total_amount}`. */
  datatype Stats = Stats(count: nat, totalAmount: int)

  /** An insertion-ordered dictionary from tag to `Stats`: the map and the order in
      which its keys were first inserted. */
  datatype TagTable = TagTable(stats: map<string, Stats>, order: seq<string>)

  predicate NoDuplicates<T(==)>(s: seq<T>) {
    forall i, j :: 0 <= i < j < |s| ==> s[i] != s[j]
  }

  /** The order lists each key of the map exactly once. */
  predicate Valid(t: TagTable) {
    && (forall k :: k in t.stats ==> k in t.order)
    && (forall k :: k in t.order ==> k in t.stats)
    && NoDuplicates(t.order)
  }

  // ---------------------------------------------------------------- specification

  function RowTagsOf(row: Row): seq<string> {
    RowTags(row.industries, row.buzzwords)
  }

  /** The amount a row adds per mention: its amount cell, or 0 when the table has no
      amount column or the cell is missing. */
  function RowAmount(row: Row, hasAmount: bool): (r: int)
    ensures hasAmount && row.amount.Some? ==> r == row.amount.value
    ensures r != 0 ==> hasAmount && row.amount == Some(r)
  {
    if hasAmount && row.amount.Some? then row.amount.value else 0
  }

  /** How many times `t` occurs in `s`. */
  function Count(s: seq<string>, t: string): nat
    decreases |s|
  {
    if s == [] then 0
    else Count(s[..|s| - 1], t) + (if s[|s| - 1] == t then 1 else 0)
  }

  /** A row as the inner loop sees it: its combined tag list and the amount each mention adds. */
  datatype RowMentions = RowMentions(tags: seq<string>, amount: int)

  function Mentions(rows: seq<Row>, hasAmount: bool): (rs: seq<RowMentions>)
    ensures |rs| == |rows|
  {
    seq(|rows|, i requires 0 <= i < |rows| => RowMentions(RowTagsOf(rows[i]), RowAmount(rows[i], hasAmount)))
  }

  /** All rows' combined tag lists, one after the other. */
  function AllTags(rs: seq<RowMentions>): seq<string>
    decreases |rs|
  {
    if rs == [] then []
    else AllTags(rs[..|rs| - 1]) + rs[|rs| - 1].tags
  }

  /** The sum, over the rows, of the row's amount times the number of times the row mentions `t`. */
  function TagAmount(rs: seq<RowMentions>, t: string): int
    decreases |rs|
  {
    if rs == [] then 0
    else
      var last := rs[|rs| - 1];
      TagAmount(rs[..|rs| - 1], t) + last.amount * Count(last.tags, t)
  }

  /** The distinct elements of `s` in order of first occurrence. */
  function FirstSeen(s: seq<string>): seq<string>
    decreases |s|
  {
    if s == [] then []
    else
      var before := FirstSeen(s[..|s| - 1]);
      if s[|s| - 1] in before then before else before + [s[|s| - 1]]
  }

  /** The dictionary the aggregator builds, stated directly: a key for every tag that is
      mentioned, holding its mention count and summed amount, in first-seen order. */
  ghost function Table(rows: seq<Row>, hasAmount: bool): (t: TagTable)
    ensures Valid(t)
  {
    TableOf(Mentions(rows, hasAmount))
  }

  ghost function TableOf(rs: seq<RowMentions>): (t: TagTable)
    ensures Valid(t)
  {
    var tags := AllTags(rs);
    FirstSeenMembers(tags);
    FirstSeenDistinct(tags);
    TagTable(
      map t | t in FirstSeen(tags) :: Stats(Count(tags, t), TagAmount(rs, t)),
      FirstSeen(tags))
  }

  // ---------------------------------------------------------------- the loop

  /** The value for `k` after `n` more mentions of it, each adding `amount`. */
  function Bumped(stats: map<string, Stats>, k: string, n: nat, amount: int): Stats {
    var prev := if k in stats then stats[k] else Stats(0, 0);
    Stats(prev.count + n, prev.totalAmount + amount * n)
  }

  /** The inner loop's invariant: `cur` and `order` are the dictionary after the mentions
      `done` of the current row, starting from `stats`, the dictionary after `seen`. */
  ghost predicate RowProgress(stats: map<string, Stats>, seen: seq<string>, amount: int,
                              cur: map<string, Stats>, order: seq<string>, done: seq<string>)
  {
    && order == FirstSeen(seen + done)
    && (forall k :: k in cur <==> k in order)
    && (forall k :: k in cur ==> cur[k] == Bumped(stats, k, Count(done, k), amount))
  }

  /** The inner loop over one row's tags: each mention creates the entry
      `{count: 0, total_amount: 0}` if the tag is new, then adds 1 to its count and the
      row's amount to its total. `seen` is every tag mentioned before this row. */
  method AddMentions(stats: map<string, Stats>, order: seq<string>, ghost seen: seq<string>,
                     items: seq<string>, amount: int)
    returns (stats': map<string, Stats>, order': seq<string>)
    requires order == FirstSeen(seen)
    requires forall k :: k in stats <==> k in order
    ensures order' == FirstSeen(seen + items)
    ensures forall k :: k in stats' <==> k in order'
    ensures forall k :: k in stats' ==> stats'[k] == Bumped(stats, k, Count(items, k), amount)
  {
    stats', order' := stats, order;
    var j := 0;
    ghost var done: seq<string> := [];
    assert seen + done == seen;
    while j < |items|
      invariant 0 <= j <= |items|
      invariant done == items[..j]
      invariant RowProgress(stats, seen, amount, stats', order', done)
    {
      var item := items[j];
      ghost var cur, curOrder := stats', order';
      if item !in stats' {
        stats' := stats'[item := Stats(0, 0)];
        order' := order' + [item];
      }
      CreateThenCount(cur, stats', item, amount);
      stats' := stats'[item := Stats(stats'[item].count + 1, stats'[item].totalAmount + amount)];
      OneMention(stats, order, seen, amount, cur, curOrder, done, item);
      assert items[..j + 1] == done + [item];
      done := done + [item];
      j := j + 1;
    }
    assert done == items;
  }

  /** The aggregation loop over the rows. */
  method Aggregate(rows: seq<Row>, hasAmount: bool) returns (t: TagTable)
    ensures t == Table(rows, hasAmount)
    ensures Valid(t)
    ensures var tags := AllTags(Mentions(rows, hasAmount));
      && (forall k :: k in t.stats <==> Count(tags, k) > 0)
      && (forall k :: k in t.stats ==>
            t.stats[k].count == Count(tags, k) >= 1 &&
            t.stats[k].totalAmount == TagAmount(Mentions(rows, hasAmount), k))
      && t.order == FirstSeen(tags)
  {
    ghost var rs := Mentions(rows, hasAmount);
    var stats: map<string, Stats> := map[];
    var order: seq<string> := [];
    var i := 0;
    while i < |rows|
      invariant 0 <= i <= |rows|
      invariant order == FirstSeen(AllTags(rs[..i]))
      invariant forall k :: k in stats <==> k in order
      invariant forall k :: k in stats ==>
        stats[k] == Stats(Count(AllTags(rs[..i]), k), TagAmount(rs[..i], k))
    {
      ghost var seen := AllTags(rs[..i]);
      ghost var before := stats;
      var row := rows[i];
      var items := RowTags(row.industries, row.buzzwords);
      var amount := RowAmount(row, hasAmount);
      assert rs[i] == RowMentions(items, amount);
      stats, order := AddMentions(stats, order, seen, items, amount);
      AfterRow(rs, i, before, stats);
      i := i + 1;
    }
    assert rs[..i] == rs;
    t := TagTable(stats, order);
    FirstSeenMembers(AllTags(rs));
    FirstSeenDistinct(AllTags(rs));
    IsTable(t, rs);
  }

  /** A dictionary with the right keys, values and order is `TableOf(rs)`. */
  lemma IsTable(t: TagTable, rs: seq<RowMentions>)
    requires t.order == FirstSeen(AllTags(rs))
    requires forall k :: k in t.stats <==> k in t.order
    requires forall k :: k in t.stats ==> t.stats[k] == Stats(Count(AllTags(rs), k), TagAmount(rs, k))
    ensures t == TableOf(rs)
  {
    var spec := TableOf(rs);
    assert t.stats.Keys == spec.stats.Keys;
    assert t.stats == spec.stats;
  }

  // ---------------------------------------------------------------- lemmas

  lemma {:induction false} CountAppend(a: seq<string>, b: seq<string>, t: string)
    ensures Count(a + b, t) == Count(a, t) + Count(b, t)
    decreases |b|
  {
    if b == [] {
      assert a + b == a;
    } else {
      assert (a + b)[..|a + b| - 1] == a + b[..|b| - 1];
      CountAppend(a, b[..|b| - 1], t);
    }
  }

  /** The loop invariant of the aggregation is kept by one more row. */
  lemma AfterRow(rs: seq<RowMentions>, i: nat, before: map<string, Stats>, after: map<string, Stats>)
    requires i < |rs|
    requires forall k :: k in before <==> k in FirstSeen(AllTags(rs[..i]))
    requires forall k :: k in before ==> before[k] == Stats(Count(AllTags(rs[..i]), k), TagAmount(rs[..i], k))
    requires forall k :: k in after ==> after[k] == Bumped(before, k, Count(rs[i].tags, k), rs[i].amount)
    ensures AllTags(rs[..i + 1]) == AllTags(rs[..i]) + rs[i].tags
    ensures forall k :: k in after ==>
      after[k] == Stats(Count(AllTags(rs[..i + 1]), k), TagAmount(rs[..i + 1], k))
  {
    assert rs[..i + 1] == rs[..i] + [rs[i]];
    FirstSeenMembers(AllTags(rs[..i]));
    forall k | k in after
      ensures after[k] == Stats(Count(AllTags(rs[..i + 1]), k), TagAmount(rs[..i + 1], k))
    {
      if k !in before {
        AmountWithoutMention(rs[..i], k);
      }
      NextRow(rs[..i], rs[i], k, if k in before then before[k] else Stats(0, 0));
    }
  }

  /** The dictionary value of `k` after one more row, from its value before it. */
  lemma NextRow(init: seq<RowMentions>, r: RowMentions, k: string, prev: Stats)
    requires prev == Stats(Count(AllTags(init), k), TagAmount(init, k))
    ensures Stats(prev.count + Count(r.tags, k), prev.totalAmount + r.amount * Count(r.tags, k))
      == Stats(Count(AllTags(init + [r]), k), TagAmount(init + [r], k))
  {
    assert (init + [r])[..|init|] == init;
    CountAppend(AllTags(init), r.tags, k);
  }

  /** The dictionary after one mention of `item`: its entry, created as `{0, 0}` when
      new, counts one more mention and adds `amount`. */
  function Mention(cur: map<string, Stats>, item: string, amount: int): map<string, Stats> {
    cur[item := Bumped(cur, item, 1, amount)]
  }

  /** Creating the entry when new and then counting the mention is `Mention`. */
  lemma CreateThenCount(cur: map<string, Stats>, created: map<string, Stats>, item: string, amount: int)
    requires created == if item in cur then cur else cur[item := Stats(0, 0)]
    ensures created[item := Stats(created[item].count + 1, created[item].totalAmount + amount)]
      == Mention(cur, item, amount)
  {
  }

  /** One mention of `item` keeps the inner loop's invariant. */
  lemma OneMention(stats: map<string, Stats>, order: seq<string>, seen: seq<string>, amount: int,
                   cur: map<string, Stats>, curOrder: seq<string>, done: seq<string>, item: string)
    requires order == FirstSeen(seen)
    requires forall k :: k in stats <==> k in order
    requires RowProgress(stats, seen, amount, cur, curOrder, done)
    ensures (if item in cur then curOrder else curOrder + [item]) == FirstSeen(seen + (done + [item]))
    ensures forall k :: k in Mention(cur, item, amount) <==> k in (if item in cur then curOrder else curOrder + [item])
    ensures forall k :: k in Mention(cur, item, amount) ==>
      Mention(cur, item, amount)[k] == Bumped(stats, k, Count(done + [item], k), amount)
  {
    OrderAfterMention(seen, done, item, amount, cur, curOrder);
    if item !in cur {
      NewTag(seen, done, item);
    }
    MentionCounted(stats, amount, cur, done, item);
  }

  /** A new tag is appended to the key order; a known one leaves it as it is. */
  lemma OrderAfterMention(seen: seq<string>, done: seq<string>, item: string, amount: int,
                          cur: map<string, Stats>, curOrder: seq<string>)
    requires curOrder == FirstSeen(seen + done)
    requires forall k :: k in cur <==> k in curOrder
    ensures (if item in cur then curOrder else curOrder + [item]) == FirstSeen(seen + (done + [item]))
    ensures forall k :: k in Mention(cur, item, amount) <==> k in (if item in cur then curOrder else curOrder + [item])
  {
    assert seen + (done + [item]) == (seen + done) + [item];
    FirstSeenSnoc(seen + done, item);
  }

  /** The value stored for each key after one more mention of `item`. */
  lemma MentionCounted(stats: map<string, Stats>, amount: int, cur: map<string, Stats>, done: seq<string>, item: string)
    requires forall k :: k in cur ==> cur[k] == Bumped(stats, k, Count(done, k), amount)
    requires item !in cur ==> item !in stats && Count(done, item) == 0
    ensures forall k :: k in Mention(cur, item, amount) ==>
      Mention(cur, item, amount)[k] == Bumped(stats, k, Count(done + [item], k), amount)
  {
    var after := Mention(cur, item, amount);
    forall k | k in after
      ensures after[k] == Bumped(stats, k, Count(done + [item], k), amount)
    {
      CountSnoc(done, item, k);
      if k == item {
        var prev := if item in cur then cur[item] else Stats(0, 0);
        assert prev == Bumped(stats, k, Count(done, k), amount);
        MoreMentions(amount, Count(done, k));
      } else {
        assert after[k] == cur[k];
      }
    }
  }

  /** A tag not yet in the first-seen order of `seen + prefix` occurs in neither part. */
  lemma NewTag(seen: seq<string>, prefix: seq<string>, t: string)
    requires t !in FirstSeen(seen + prefix)
    ensures Count(prefix, t) == 0 && t !in FirstSeen(seen)
  {
    FirstSeenMembers(seen + prefix);
    FirstSeenMembers(seen);
    CountAppend(seen, prefix, t);
  }

  lemma MoreMentions(amount: int, n: nat)
    ensures amount * (n + 1) == amount * n + amount
  {
  }

  lemma CountSnoc(s: seq<string>, x: string, t: string)
    ensures Count(s + [x], t) == Count(s, t) + (if x == t then 1 else 0)
  {
    assert (s + [x])[..|s|] == s;
  }

  lemma FirstSeenSnoc(s: seq<string>, x: string)
    ensures FirstSeen(s + [x]) == if x in FirstSeen(s) then FirstSeen(s) else FirstSeen(s) + [x]
  {
    assert (s + [x])[..|s|] == s;
  }

  /** A tag that is never mentioned has a summed amount of 0. */
  lemma {:induction false} AmountWithoutMention(rs: seq<RowMentions>, t: string)
    requires Count(AllTags(rs), t) == 0
    ensures TagAmount(rs, t) == 0
    decreases |rs|
  {
    if rs != [] {
      var init := rs[..|rs| - 1];
      CountAppend(AllTags(init), rs[|rs| - 1].tags, t);
      AmountWithoutMention(init, t);
    }
  }

  /** The first-seen order holds exactly the elements of the sequence. */
  lemma {:induction false} FirstSeenMembers(s: seq<string>)
    ensures forall k :: k in FirstSeen(s) <==> Count(s, k) > 0
    decreases |s|
  {
    if s != [] {
      FirstSeenMembers(s[..|s| - 1]);
    }
  }

  /** The first-seen order has no repeats. */
  lemma {:induction false} FirstSeenDistinct(s: seq<string>)
    ensures NoDuplicates(FirstSeen(s))
    decreases |s|
  {
    if s != [] {
      FirstSeenDistinct(s[..|s| - 1]);
    }
  }

  // ---------------------------------------------------------------- properties of the dictionary

  lemma {:induction false} CountZero(s: seq<string>, t: string)
    requires Count(s, t) == 0
    ensures forall p :: 0 <= p < |s| ==> s[p] != t
    decreases |s|
  {
    if s != [] {
      CountZero(s[..|s| - 1], t);
      assert forall p :: 0 <= p < |s| - 1 ==> s[p] == s[..|s| - 1][p];
    }
  }

  /** The position of the first occurrence of `t` in `s`. */
  function FirstIndex(s: seq<string>, t: string): (p: nat)
    requires Count(s, t) > 0
    ensures p < |s| && s[p] == t
    decreases |s|
  {
    if Count(s[..|s| - 1], t) > 0 then FirstIndex(s[..|s| - 1], t) else |s| - 1
  }

  lemma {:induction false} FirstIndexIsFirst(s: seq<string>, t: string)
    requires Count(s, t) > 0
    ensures forall p :: 0 <= p < FirstIndex(s, t) ==> s[p] != t
    decreases |s|
  {
    var init := s[..|s| - 1];
    if Count(init, t) > 0 {
      FirstIndexIsFirst(init, t);
    } else {
      CountZero(init, t);
    }
  }

  /** Insertion order is first-occurrence order: a key comes before another exactly when
      its first mention comes before the other's. */
  lemma {:induction false} FirstSeenOrder(s: seq<string>)
    ensures forall k :: k in FirstSeen(s) ==> Count(s, k) > 0
    ensures forall i, j :: 0 <= i < j < |FirstSeen(s)| ==>
      FirstIndex(s, FirstSeen(s)[i]) < FirstIndex(s, FirstSeen(s)[j])
    decreases |s|
  {
    FirstSeenMembers(s);
    if s != [] {
      var init := s[..|s| - 1];
      var f := FirstSeen(init);
      FirstSeenOrder(init);
      FirstSeenMembers(init);
      forall k | k in f
        ensures FirstIndex(s, k) == FirstIndex(init, k)
      {
      }
    }
  }

  lemma {:induction false} AllTagsAppend(a: seq<RowMentions>, b: seq<RowMentions>)
    ensures AllTags(a + b) == AllTags(a) + AllTags(b)
    decreases |b|
  {
    if b == [] {
      assert a + b == a;
    } else {
      assert (a + b)[..|a + b| - 1] == a + b[..|b| - 1];
      AllTagsAppend(a, b[..|b| - 1]);
    }
  }

  lemma {:induction false} TagAmountAppend(a: seq<RowMentions>, b: seq<RowMentions>, t: string)
    ensures TagAmount(a + b, t) == TagAmount(a, t) + TagAmount(b, t)
    decreases |b|
  {
    if b == [] {
      assert a + b == a;
    } else {
      assert (a + b)[..|a + b| - 1] == a + b[..|b| - 1];
      TagAmountAppend(a, b[..|b| - 1], t);
    }
  }

  lemma MentionsAppend(a: seq<Row>, b: seq<Row>, hasAmount: bool)
    ensures Mentions(a + b, hasAmount) == Mentions(a, hasAmount) + Mentions(b, hasAmount)
  {
  }

  /** Taking one row out of the middle of the rows takes its mentions and its amounts out
      of every count and total. */
  lemma RowOut(pre: seq<Row>, x: Row, post: seq<Row>, hasAmount: bool, k: string)
    ensures Count(AllTags(Mentions(pre + [x] + post, hasAmount)), k)
         == Count(AllTags(Mentions(pre + post, hasAmount)), k) + Count(AllTags(Mentions([x], hasAmount)), k)
    ensures TagAmount(Mentions(pre + [x] + post, hasAmount), k)
         == TagAmount(Mentions(pre + post, hasAmount), k) + TagAmount(Mentions([x], hasAmount), k)
  {
    var mp, mx, mq := Mentions(pre, hasAmount), Mentions([x], hasAmount), Mentions(post, hasAmount);
    MentionsAppend(pre + [x], post, hasAmount);
    MentionsAppend(pre, [x], hasAmount);
    MentionsAppend(pre, post, hasAmount);
    AllTagsAppend(mp + mx, mq);
    AllTagsAppend(mp, mx);
    AllTagsAppend(mp, mq);
    CountAppend(AllTags(mp) + AllTags(mx), AllTags(mq), k);
    CountAppend(AllTags(mp), AllTags(mx), k);
    CountAppend(AllTags(mp), AllTags(mq), k);
    TagAmountAppend(mp + mx, mq, k);
    TagAmountAppend(mp, mx, k);
    TagAmountAppend(mp, mq, k);
  }

  lemma MultisetOut<T>(init: seq<T>, x: T, pre: seq<T>, post: seq<T>)
    requires multiset(init + [x]) == multiset(pre + [x] + post)
    ensures multiset(init) == multiset(pre + post)
  {
    assert multiset(init + [x]) == multiset(init) + multiset{x};
    assert multiset(pre + [x] + post) == multiset(pre) + multiset{x} + multiset(post);
    assert multiset(pre + post) == multiset(pre) + multiset(post);
    assert multiset(init) == multiset(init + [x]) - multiset{x};
    assert multiset(pre + post) == multiset(pre + [x] + post) - multiset{x};
  }

  /** An element of a sequence splits it around one of its occurrences. */
  lemma Occurrence<T>(s: seq<T>, x: T) returns (pre: seq<T>, post: seq<T>)
    requires x in multiset(s)
    ensures s == pre + [x] + post
  {
    var j :| 0 <= j < |s| && s[j] == x;
    pre, post := s[..j], s[j + 1..];
    assert s == pre + [x] + post;
  }

  /** One more row adds its mentions and its amounts to every count and total. */
  lemma RowLast(init: seq<Row>, x: Row, hasAmount: bool, k: string)
    ensures Count(AllTags(Mentions(init + [x], hasAmount)), k)
         == Count(AllTags(Mentions(init, hasAmount)), k) + Count(AllTags(Mentions([x], hasAmount)), k)
    ensures TagAmount(Mentions(init + [x], hasAmount), k)
         == TagAmount(Mentions(init, hasAmount), k) + TagAmount(Mentions([x], hasAmount), k)
  {
    var mi, mx := Mentions(init, hasAmount), Mentions([x], hasAmount);
    MentionsAppend(init, [x], hasAmount);
    AllTagsAppend(mi, mx);
    CountAppend(AllTags(mi), AllTags(mx), k);
    TagAmountAppend(mi, mx, k);
  }

  /** Adding the same row to two row lists with equal counts and totals keeps them equal. */
  lemma PermutedStep(init: seq<Row>, x: Row, pre: seq<Row>, post: seq<Row>, hasAmount: bool, k: string)
    requires Count(AllTags(Mentions(init, hasAmount)), k) == Count(AllTags(Mentions(pre + post, hasAmount)), k)
    requires TagAmount(Mentions(init, hasAmount), k) == TagAmount(Mentions(pre + post, hasAmount), k)
    ensures Count(AllTags(Mentions(init + [x], hasAmount)), k) == Count(AllTags(Mentions(pre + [x] + post, hasAmount)), k)
    ensures TagAmount(Mentions(init + [x], hasAmount), k) == TagAmount(Mentions(pre + [x] + post, hasAmount), k)
  {
    RowLast(init, x, hasAmount, k);
    RowOut(pre, x, post, hasAmount, k);
  }

  /** Rows that are a reordering of each other give every tag the same count and total. */
  lemma {:induction false} PermutedRows(rows: seq<Row>, rows': seq<Row>, hasAmount: bool, k: string)
    requires multiset(rows) == multiset(rows')
    ensures Count(AllTags(Mentions(rows, hasAmount)), k) == Count(AllTags(Mentions(rows', hasAmount)), k)
    ensures TagAmount(Mentions(rows, hasAmount), k) == TagAmount(Mentions(rows', hasAmount), k)
    decreases |rows|
  {
    if rows == [] {
      assert |rows'| == |multiset(rows')| == 0;
    } else {
      var init, x := rows[..|rows| - 1], rows[|rows| - 1];
      assert init + [x] == rows;
      assert x in multiset(rows');
      var pre, post := Occurrence(rows', x);
      MultisetOut(init, x, pre, post);
      PermutedRows(init, pre + post, hasAmount, k);
      PermutedStep(init, x, pre, post, hasAmount, k);
    }
  }

  /** The dictionary's keys and values do not depend on the order of the rows (only the
      key order does): aggregation is a commutative reduction. */
  lemma RowOrderIrrelevant(rows: seq<Row>, rows': seq<Row>, hasAmount: bool)
    requires multiset(rows) == multiset(rows')
    ensures Table(rows, hasAmount).stats == Table(rows', hasAmount).stats
  {
    var a, b := AllTags(Mentions(rows, hasAmount)), AllTags(Mentions(rows', hasAmount));
    FirstSeenMembers(a);
    FirstSeenMembers(b);
    forall k
      ensures Count(a, k) == Count(b, k)
      ensures TagAmount(Mentions(rows, hasAmount), k) == TagAmount(Mentions(rows', hasAmount), k)
    {
      PermutedRows(rows, rows', hasAmount, k);
    }
    assert Table(rows, hasAmount).stats.Keys == Table(rows', hasAmount).stats.Keys;
  }

  lemma {:induction false} AmountsNonNegative(rs: seq<RowMentions>, t: string)
    requires forall i :: 0 <= i < |rs| ==> rs[i].amount >= 0
    ensures TagAmount(rs, t) >= 0
    decreases |rs|
  {
    if rs != [] {
      var init := rs[..|rs| - 1];
      assert forall i :: 0 <= i < |init| ==> init[i] == rs[i];
      AmountsNonNegative(init, t);
    }
  }

  /** With non-negative amounts every total is non-negative. */
  lemma TotalsNonNegative(rows: seq<Row>, hasAmount: bool, t: string)
    requires forall i :: 0 <= i < |rows| && rows[i].amount.Some? ==> rows[i].amount.value >= 0
    ensures TagAmount(Mentions(rows, hasAmount), t) >= 0
  {
    AmountsNonNegative(Mentions(rows, hasAmount), t);
  }
}
