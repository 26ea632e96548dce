/** The pipeline behind the chart: resolve the columns, aggregate the rows, drop the
    excluded tags, keep the top N by the chosen metric and format each bar's value. */
module Chart {
  import opened Wrappers
  import opened Columns
  import opened Aggregation
  import opened Ranking
  import opened Format

  /** One bar of the chart: its label, its length (the metric) and the text at its end. */
  datatype Bar = Bar(tag: string, value: int, text: Shown)

  /** The values are written as amounts exactly when ranking by "Total Amount Raised". */
  function IsAmount(m: Metric): bool {
    m == ByTotalAmount
  }

  /** The bars for the top-N entries, in rank order. */
  function Bars(top: seq<Entry>, m: Metric): (r: seq<Bar>)
    ensures |r| == |top|
    ensures forall i :: 0 <= i < |r| ==>
      r[i] == Bar(top[i].tag, Value(top[i], m), FormatValue(Value(top[i], m), IsAmount(m)))
  {
    seq(|top|, i requires 0 <= i < |top| => Bar(top[i].tag, Value(top[i], m), FormatValue(Value(top[i], m), IsAmount(m))))
  }

  /** The bars the chart would show, stated directly. */
  ghost function Expected(columns: Columns, rows: seq<Row>, m: Metric, excluded: set<string>, n: nat): seq<Bar> {
    var t := Table(rows, columns.amount.Some?);
    Bars(TopN(Exclude(t, excluded), m, n), m)
  }

  /** One run of the script for an uploaded table: `rows` are its rows read through the
      resolved columns (the amount cells only count when the amount column exists). A
      header without the tag columns is reported; otherwise the bars come out in rank
      order, none of them excluded, each as long as its tag's count or summed amount,
      exactly `n` of them when `1 <= n <= |filtered|`. */
  method BuildChart(header: set<string>, rows: seq<Row>, m: Metric, excluded: set<string>, n: nat)
    returns (r: Result<seq<Bar>, MissingColumns>)
    ensures r.Failure? <==> Resolve(header).Failure?
    ensures r.Success? ==> r.value == Expected(Resolve(header).value, rows, m, excluded, n)
    ensures r.Success? ==> forall i :: 0 <= i < |r.value| ==> r.value[i].tag !in excluded
    ensures r.Success? ==> forall i, j :: 0 <= i < j < |r.value| ==> r.value[i].value >= r.value[j].value
    ensures r.Success? ==>
      var hasAmount := AmountGbp in header;
      var tags := AllTags(Mentions(rows, hasAmount));
      forall i :: 0 <= i < |r.value| ==>
        && Count(tags, r.value[i].tag) >= 1
        && r.value[i].value == (match m
             case ByCount => Count(tags, r.value[i].tag)
             case ByTotalAmount => TagAmount(Mentions(rows, hasAmount), r.value[i].tag))
    ensures r.Success? ==>
      var t := Table(rows, AmountGbp in header);
      1 <= n <= |Exclude(t, excluded).order| ==> |r.value| == n
  {
    var columns := Resolve(header);
    if columns.Failure? {
      return Failure(MissingColumns);
    }
    var hasAmount := columns.value.amount.Some?;
    var t := Aggregate(rows, hasAmount);
    var filtered := Exclude(t, excluded);
    var top := TopN(filtered, m, n);
    r := Success(Bars(top, m));
    TopNSpec(filtered, m, n);
    TopNAfterExclusion(t, excluded, m, n);
  }

  /** Tags with equal metrics appear in the order in which the rows first mention them. */
  lemma TiesByFirstMention(rows: seq<Row>, hasAmount: bool, excluded: set<string>, m: Metric, n: nat, i: nat, j: nat)
    requires i < j < |TopN(Exclude(Table(rows, hasAmount), excluded), m, n)|
    requires Value(TopN(Exclude(Table(rows, hasAmount), excluded), m, n)[i], m)
          == Value(TopN(Exclude(Table(rows, hasAmount), excluded), m, n)[j], m)
    ensures var tags := AllTags(Mentions(rows, hasAmount));
      var top := TopN(Exclude(Table(rows, hasAmount), excluded), m, n);
      Count(tags, top[i].tag) > 0 && Count(tags, top[j].tag) > 0 &&
      FirstIndex(tags, top[i].tag) < FirstIndex(tags, top[j].tag)
  {
    var t := Table(rows, hasAmount);
    TiesInFirstSeenOrder(t, AllTags(Mentions(rows, hasAmount)), excluded, m, n, i, j);
  }

  /** The same for any dictionary whose keys are in first-seen order of `tags`. */
  lemma TiesInFirstSeenOrder(t: TagTable, tags: seq<string>, excluded: set<string>, m: Metric, n: nat, i: nat, j: nat)
    requires Valid(t) && t.order == FirstSeen(tags)
    requires i < j < |TopN(Exclude(t, excluded), m, n)|
    requires Value(TopN(Exclude(t, excluded), m, n)[i], m) == Value(TopN(Exclude(t, excluded), m, n)[j], m)
    ensures var top := TopN(Exclude(t, excluded), m, n);
      Count(tags, top[i].tag) > 0 && Count(tags, top[j].tag) > 0 &&
      FirstIndex(tags, top[i].tag) < FirstIndex(tags, top[j].tag)
  {
    var f := Exclude(t, excluded);
    var top := TopN(f, m, n);
    TopNTies(f, m, n, i, j);
    var p, q :| 0 <= p < q < |f.order| && f.order[p] == top[i].tag && f.order[q] == top[j].tag;
    WithoutKeepsOrder(t.order, excluded, p, q);
    var p', q' :| 0 <= p' < q' < |t.order| && t.order[p'] == top[i].tag && t.order[q'] == top[j].tag;
    FirstSeenOrder(tags);
  }
}
