/** A worked run of the pipeline on two companies: the first tagged with industries
    "Fintech, AI" and buzzword "Growth" and £1,000,000 raised, the second with industry
    "AI", an empty buzzwords cell and £500,000 raised. */
module Example {
  import opened Wrappers
  import opened Tags
  import opened Aggregation
  import opened Ranking

  const Rows: seq<Row> := [
    Row(Some("Fintech, AI"), Some("Growth"), Some(1000000)),
    Row(Some("AI"), Some(""), Some(500000))]

  /** The same rows as the inner loop sees them. */
  const Mentioned: seq<RowMentions> := [
    RowMentions(["Fintech", "AI", "Growth"], 1000000),
    RowMentions(["AI"], 500000)]

  /** The dictionary the aggregator ends with. */
  const Aggregated: TagTable := TagTable(
    map["Fintech" := Stats(1, 1000000), "AI" := Stats(2, 1500000), "Growth" := Stats(1, 1000000)],
    ["Fintech", "AI", "Growth"])

  const Fintech: Entry := Entry("Fintech", Stats(1, 1000000))
  const AI: Entry := Entry("AI", Stats(2, 1500000))
  const Growth: Entry := Entry("Growth", Stats(1, 1000000))

  // ---------------------------------------------------------------- the cells

  lemma SplitFirstIndustries()
    ensures Split("Fintech, AI", Comma) == ["Fintech", " AI"]
  {
    assert "Fintech, AI" == Join(["Fintech", " AI"], Comma);
    SplitJoin(["Fintech", " AI"], Comma);
  }

  lemma StripSpaced()
    ensures Strip(" AI") == "AI"
  {
  }

  lemma StripPlain()
    ensures Strip("Fintech") == "Fintech" && Strip("Growth") == "Growth" && Strip("AI") == "AI"
  {
  }

  lemma FirstIndustries()
    ensures Tidy(Pieces(Some("Fintech, AI"))) == ["Fintech", "AI"]
  {
    SplitFirstIndustries();
    StripSpaced();
    StripPlain();
    assert Tidy([" AI"]) == ["AI"] + Tidy([]);
    assert ["Fintech", " AI"][1..] == [" AI"];
    assert Tidy(["Fintech", " AI"]) == ["Fintech"] + Tidy([" AI"]);
  }

  lemma FirstBuzzwords()
    ensures Tidy(Pieces(Some("Growth"))) == ["Growth"]
  {
    SplitFree("Growth", Comma);
    StripPlain();
    assert Tidy(["Growth"]) == ["Growth"] + Tidy([]);
  }

  lemma FirstRowTags()
    ensures RowTags(Some("Fintech, AI"), Some("Growth")) == ["Fintech", "AI", "Growth"]
  {
    FirstIndustries();
    FirstBuzzwords();
    RowTagsOrder(Some("Fintech, AI"), Some("Growth"));
  }

  /** The empty buzzwords cell splits to one empty piece, which is dropped. */
  lemma SecondRowTags()
    ensures RowTags(Some("AI"), Some("")) == ["AI"]
  {
    SplitFree("AI", Comma);
    StripPlain();
    assert Strip("") == "";
    assert Split("", Comma) == [""];
    assert Tidy(["AI", ""]) == ["AI"];
  }
  lemma RowsMentions()
    ensures Mentions(Rows, true) == Mentioned
  {
    FirstRowTags();
    SecondRowTags();
  }

  // ---------------------------------------------------------------- aggregation

  lemma AllMentions()
    ensures AllTags(Mentioned) == ["Fintech", "AI", "Growth", "AI"]
  {
    assert Mentioned[..1] == [Mentioned[0]];
    assert AllTags([Mentioned[0]]) == AllTags([]) + Mentioned[0].tags;
  }

  lemma KeyOrder()
    ensures FirstSeen(["Fintech", "AI", "Growth", "AI"]) == ["Fintech", "AI", "Growth"]
  {
    var s := ["Fintech", "AI", "Growth", "AI"];
    assert s[..3] == ["Fintech", "AI", "Growth"];
    assert s[..3][..2] == ["Fintech", "AI"];
    assert s[..3][..2][..1] == ["Fintech"];
    assert FirstSeen(["Fintech"]) == ["Fintech"];
  }

  lemma FirstRowCounts(t: string)
    ensures Count(["Fintech", "AI", "Growth"], t) == (if t == "AI" || t == "Fintech" || t == "Growth" then 1 else 0)
  {
    var s := ["Fintech", "AI", "Growth"];
    assert s[..2] == ["Fintech", "AI"];
    assert s[..2][..1] == ["Fintech"];
    assert ["Fintech"][..0] == [];
  }

  lemma MentionCounts(t: string)
    ensures Count(["Fintech", "AI", "Growth", "AI"], t) == (if t == "AI" then 2 else if t == "Fintech" || t == "Growth" then 1 else 0)
  {
    var s := ["Fintech", "AI", "Growth", "AI"];
    FirstRowCounts(t);
    assert s[..3] == ["Fintech", "AI", "Growth"];
  }

  lemma Totals(t: string)
    ensures TagAmount(Mentioned, t) == (if t == "AI" then 1500000 else if t == "Fintech" || t == "Growth" then 1000000 else 0)
  {
    FirstRowCounts(t);
    assert Count(["AI"], t) == (if t == "AI" then 1 else 0) by {
      assert ["AI"][..0] == [];
    }
    assert Mentioned[..1] == [Mentioned[0]];
    assert [Mentioned[0]][..0] == [];
  }

  lemma AggregatedValue(t: string)
    requires t in Aggregated.stats
    ensures Stats(Count(AllTags(Mentioned), t), TagAmount(Mentioned, t)) == Aggregated.stats[t]
  {
    AllMentions();
    MentionCounts(t);
    Totals(t);
  }

  lemma AggregatedKeys()
    ensures TableOf(Mentioned).stats.Keys == Aggregated.stats.Keys
    ensures TableOf(Mentioned).order == Aggregated.order
  {
    AllMentions();
    KeyOrder();
  }

  lemma AggregatedMentions()
    ensures TableOf(Mentioned) == Aggregated
  {
    AggregatedKeys();
    var st := TableOf(Mentioned).stats;
    forall t | t in st
      ensures st[t] == Aggregated.stats[t]
    {
      AggregatedValue(t);
    }
  }

  /** "AI" is mentioned twice and raised £1.5m in total; "Fintech" and "Growth" once
      each with £1m; the keys come in the order the rows first mention them. */
  lemma ExampleTable()
    ensures Table(Rows, true) == Aggregated
  {
    RowsMentions();
    AggregatedMentions();
  }

  // ---------------------------------------------------------------- ranking

  lemma AggregatedValid()
    ensures Valid(Aggregated)
  {
    var o := Aggregated.order;
    assert o[0] != o[1] && o[0] != o[2] && o[1] != o[2];
  }

  lemma SortedLastTwo()
    ensures SortDesc([AI, Growth], ByCount) == [AI, Growth]
  {
    assert [AI, Growth][1..] == [Growth];
    assert [Growth][1..] == [];
    assert SortDesc([Growth], ByCount) == [Growth];
  }

  lemma InsertFintech()
    ensures Insert(Fintech, [AI, Growth], ByCount) == [AI, Fintech, Growth]
  {
    assert [AI, Growth][1..] == [Growth];
  }

  /** "AI" (2 mentions) goes before "Fintech" (1), which goes before "Growth" (1) only
      because the sort keeps equal counts in dictionary order. */
  lemma SortedByCount()
    ensures SortDesc([Fintech, AI, Growth], ByCount) == [AI, Fintech, Growth]
  {
    assert [Fintech, AI, Growth][1..] == [AI, Growth];
    SortedLastTwo();
    InsertFintech();
  }

  lemma AggregatedItems()
    ensures Valid(Aggregated) && Items(Aggregated) == [Fintech, AI, Growth]
  {
    AggregatedValid();
  }

  lemma ExampleSortedItems()
    ensures Valid(Aggregated) && SortDesc(Items(Aggregated), ByCount) == [AI, Fintech, Growth]
  {
    AggregatedItems();
    SortedByCount();
  }

  lemma TakeTwo()
    ensures Take([AI, Fintech, Growth], 2) == [AI, Fintech]
  {
    assert [AI, Fintech, Growth][..2] == [AI, Fintech];
  }

  lemma TopTwoItems()
    ensures Valid(Aggregated) && TopN(Aggregated, ByCount, 2) == [AI, Fintech]
  {
    ExampleSortedItems();
    TakeTwo();
  }

  lemma TopTwoLabels()
    ensures Labels([AI, Fintech]) == ["AI", "Fintech"]
  {
  }

  /** Ranking by "Count" and keeping the top 2 gives "AI", then "Fintech":
      "Fintech" and "Growth" tie, and "Fintech" was mentioned first. */
  lemma ExampleTopTwo()
    ensures Labels(TopN(Table(Rows, true), ByCount, 2)) == ["AI", "Fintech"]
  {
    ExampleTable();
    TopTwoItems();
    TopTwoLabels();
  }
}
