# Top Industries/Buzzwords chart — a verified model of its data pipeline

The Streamlit app `app.py` reads a CSV of companies, each tagged with free-text
"industries" and "buzzwords" and, optionally, an amount raised in pounds. It counts
how often each tag is mentioned (or sums the amounts of the companies that mention
it), lets the user exclude tags and pick N, and draws the top N as a bar chart.
This project models the deterministic pipeline inside the script and proves what it
computes:

- `columns.dfy` — the column resolver: `Industries` is preferred over
  `(Company) Industries`, `Buzzwords` over `(Company) Buzzwords`, each tag column on
  its own, and the `Amount raised (converted to GBP)` column is optional.
- `tags.dfy` — one row's tag list: Python's `str.split(',')` and `str.strip()`,
  dropping pieces that strip to nothing, industries before buzzwords.
- `aggregation.dfy` — the aggregation loop: an imperative loop over the rows whose body
  calls the inner-loop method `AddMentions`, which returns the updated dictionary (a `map`
  plus the `seq` of its keys in insertion order). `AddMentions` states the dictionary
  after one row, and the row loop is proved equal to a direct definition: each tag's count is its number of mentions, its total is the sum of the
  amounts of the rows mentioning it (once per mention), and the key order is
  first-mention order.
- `ranking.dfy` — the exclusion comprehension, Python's stable `sorted(...,
  reverse=True)` as an insertion sort, and the `[:top_n]` slice.
- `format.dfy` — `format_value`: the scale and precision of an amount, and the
  thousands separators of a count.
- `chart.dfy` — one run of the script, from the header and rows to the bars.
- `example.dfy` — the pipeline worked through on two concrete rows.

## Model

| member | source | states |
|---|---|---|
| `Columns.Pick` | app.py:23-31 | The preferred name is chosen when present, the fallback only when the preferred one is absent, nothing when neither is present |
| `Columns.Resolve` | app.py:19-38 | Fails exactly when a tag column is missing under both names; otherwise each tag column is the preferred name if present, else the prefixed one, and the amount column is present exactly when the header has it |
| `Columns.ChosenNameUnique` | app.py:23-31 | The chosen column is determined by the header: two columns satisfying the preference rule are equal |
| `Columns.MixedSchemesAccepted` | app.py:23-31 | A header with `Industries` and `(Company) Buzzwords` only is accepted with those two columns |
| `Tags.Split` | app.py:46-47 | `str.split(',')` always yields at least one piece |
| `Tags.SplitPiecesFree` | app.py:46-47 | No piece contains the comma |
| `Tags.JoinSplit` | app.py:46-47 | Joining the pieces with commas gives back the cell text |
| `Tags.SplitJoin` | app.py:46-47 | Splitting a comma-join of comma-free pieces gives back those pieces, so the split is the unique such decomposition |
| `Tags.TrimStartSpec` | app.py:48 | Left strip removes a whitespace prefix and keeps a suffix that does not start with whitespace |
| `Tags.TrimEndSpec` | app.py:48 | Right strip removes a whitespace suffix and keeps a prefix that does not end with whitespace |
| `Tags.StripSpec` | app.py:48 | `strip()` keeps a slice of the input, removing only whitespace at both ends, and the result neither starts nor ends with whitespace |
| `Tags.StripEmpty` | app.py:48 | A piece strips to the empty string exactly when it is all whitespace |
| `Tags.StripIdempotent` | app.py:48 | Stripping twice equals stripping once |
| `Tags.TidyTags` | app.py:48 | Every kept piece is non-empty with no surrounding whitespace |
| `Tags.Tidy` | app.py:48 | The comprehension `[p.strip() for p in pieces if p.strip()]`: never longer than the pieces; its tags, their order and concatenation are stated by `Tags.TidyTags`, `Tags.TidyMembers` and `Tags.TidyAppend` |
| `Tags.TidyAppend` | app.py:48 | The strip-and-drop filter distributes over concatenation |
| `Tags.RowTagsOrder` | app.py:46-48 | A row's tags are the industries tags followed by the buzzwords tags; a missing cell contributes nothing |
| `Tags.RowTags` | app.py:46-48 | A row's `all_items`: every element is a proper tag (non-empty, no surrounding whitespace); the industries-then-buzzwords order is stated by `Tags.RowTagsOrder` |
| `Tags.NoTagsFromEmptyCells` | app.py:46-48 | A row whose cells are missing or hold only commas and whitespace contributes no tags |
| `Tags.TidyMembers` | app.py:48 | A string is a row tag exactly when it is non-empty and is the stripped form of some piece |
| `Aggregation.AddMentions` | app.py:52-56 | The inner loop: each mention creates the entry if new (appending it to the key order) and adds 1 to its count and the row amount to its total; other keys are untouched |
| `Aggregation.Aggregate` | app.py:44-56 | The dictionary built by the loop equals the direct definition: keys are exactly the mentioned tags, count = number of mentions (duplicates in a row included) and at least 1, total = sum of row amounts over mentions (0 without amount column or cell), key order = first-mention order |
| `Aggregation.RowAmount` | app.py:50 | The amount one mention adds is the amount cell whenever the column exists and the cell is present, and it is non-zero only when it comes from such a cell; its effect on totals is stated by `Aggregation.Aggregate` and `Aggregation.AmountWithoutMention` |
| `Aggregation.Table` | app.py:44-56 | The directly defined dictionary is well formed: its key order lists each key exactly once |
| `Aggregation.FirstSeenMembers` | app.py:53-54 | The insertion order holds exactly the tags mentioned at least once |
| `Aggregation.FirstSeenDistinct` | app.py:53-54 | No key is inserted twice |
| `Aggregation.FirstSeenOrder` | app.py:53-54 | Keys come in the order of their first mention |
| `Aggregation.AmountWithoutMention` | app.py:56 | A tag never mentioned has total 0 |
| `Aggregation.RowOrderIrrelevant` | app.py:44-56 | Any reordering of the rows (equal multisets of rows) gives the same keys, counts and totals; only the key order can change |
| `Aggregation.TotalsNonNegative` | app.py:50-56 | With non-negative amount cells every total is non-negative |
| `Ranking.Exclude` | app.py:72 | Filtered keys are the original keys minus the excluded ones, values unchanged, order a subsequence of the original |
| `Ranking.SortDesc` | app.py:59-62 | The sort is a permutation, non-increasing in the metric, and keeps every group of equal-metric entries in input order |
| `Ranking.StableSortUnique` | app.py:59-62 | Two non-increasing sequences with the same groups of equal-metric entries are equal, so the stable descending sort has one result |
| `Ranking.SortDescOfSorted` | app.py:59-62 | Sorting an already descending sequence leaves it unchanged |
| `Ranking.SortDescStable` | app.py:85 | Two equal-metric entries of the sorted output appear in that order in the input |
| `Ranking.RankedSpec` | app.py:59-62 | The ranked key list holds every key exactly once, by non-increasing metric |
| `Ranking.Ranked` | app.py:59-62 | `sorted(data.keys(), …, reverse=True)`: one name per key; that it lists every key once by non-increasing metric is stated by `Ranking.RankedSpec` |
| `Ranking.TopNSpec` | app.py:84-91 | The top-N list has `min(N, #keys)` entries, each a key with its own value, no tag twice, by non-increasing metric |
| `Ranking.TopN` | app.py:84-91 | The `[:top_n]` slice of the stable descending sort of the items: `min(N, #keys)` entries; stated in full by `Ranking.TopNSpec`, `Ranking.TopNIsTop`, `Ranking.TopNTies` and `Ranking.TopNAfterExclusion` |
| `Ranking.TopNTies` | app.py:85-89 | Equal-metric entries of the top-N list keep dictionary insertion order |
| `Ranking.TopNIsTop` | app.py:85-89 | Every key left out of the top N has a metric no larger than any key kept |
| `Ranking.SortAfterExclusion` | app.py:72 | Sorting the filtered items equals removing the excluded tags from the sorted items |
| `Ranking.ExcludedItems` | app.py:72 | The filtered dictionary's items are the original items minus the excluded ones, in the same order |
| `Ranking.TopNAfterExclusion` | app.py:72-91 | The top N of the filtered dictionary is the first N non-excluded tags of the full ranking, contains no excluded tag, and has exactly N entries when `1 <= N <= #filtered` |
| `Format.FormatValue` | app.py:96-120 | Count mode writes the integer with thousands separators; currency mode writes `£0` for 0; otherwise the scale is the largest of units/k/m/b whose unit the value reaches, and the decimals are 0, 1 or 2 as the scaled value, as a real number, is at least 100, at least 10, or below |
| `Format.ScaledTiers` | app.py:100-118 | Comparing the scaled value with 100 and 10 is comparing the whole-number value with 100 and 10 units |
| `Format.ThreeSignificantFigures` | app.py:95-118 | From £1 to below £1000b, digits before the point of the scaled amount plus decimals make three |
| `Format.Examples` | app.py:96-120 | 0 → `£0`, 999 → units with 0 decimals, 1500 → k with 2, 12000 → k with 1, 250000000 → m with 0, count 1234 → `1,234` |
| `Format.DecimalRoundTrip` | app.py:120 | The decimal numeral has only digits, no leading zero, and reads back as the number |
| `Format.GroupedDigits` | app.py:120 | Taking the commas out of the grouped form gives the plain decimal numeral |
| `Format.GroupedShape` | app.py:120 | Between commas the first group has 1 to 3 digits and every other group exactly 3 |
| `Format.WithSeparators` | app.py:120 | `f'{int(v):,}'`: taking the commas out gives the plain decimal numeral, with a leading minus for negative values; the group sizes are stated by `Format.GroupedShape` |
| `Chart.BuildChart` | app.py:15-91 | Fails exactly when the resolver fails; otherwise the bars are the top N of the filtered aggregation: no excluded tag, non-increasing values, each value the tag's mention count or summed amount, exactly N bars when `1 <= N <= #filtered` |
| `Chart.Bars` | app.py:86-91 | One bar per top-N entry in rank order: its tag, its count or total as the value, and the text `format_value` gives that value (app.py:149), as an amount exactly when ranking by total |
| `Ranking.WithoutKeepsOrder` | app.py:72 | Tags in order in the filtered key list are in that order in the original key list |
| `Ranking.FilterOutLabels` | app.py:72 | Filtering the items by tag and filtering the key list give the same tags, so the two exclusion filters agree |
| `Chart.TiesByFirstMention` | app.py:53-55 | In the chart, equal-metric tags appear in the order the rows first mention them |
| `Example.ExampleTable` | app.py:44-56 | Rows ("Fintech, AI", "Growth", £1,000,000) and ("AI", "", £500,000) aggregate to AI: 2 mentions, £1,500,000; Fintech and Growth: 1 mention, £1,000,000 each; keys in the order Fintech, AI, Growth |
| `Example.ExampleTopTwo` | app.py:59-91 | On those rows the top 2 by mentions are AI then Fintech, Fintech winning its tie with Growth by being mentioned first |

## Left out

- The Streamlit interface (uploader, radio, multiselect, number input, text input, error
  message, chart display, download button) is presentation; its effect is kept as
  parameters: the metric, the excluded set, N, and the header.
- Reading the CSV with pandas, NaN detection and `str()` coercion of non-text cells are
  library behaviour: cells arrive already parsed, `None` standing for NaN, and the rows
  arrive already read through the resolved columns.
- Amounts are whole numbers (`int`); pandas reads them as floats, so fractional amounts
  and float rounding of large sums are not modelled.
- Format.FormatValue: in currency mode it gives the scale and the number of decimals,
  not the digit string, because the digits come from Python's float formatting and
  rounding (so a value that rounds up, such as 99996 shown as `£100.0k`, is not
  captured); for values above 2^53 the float division can differ from the exact one used here.
- `N` is any natural number and the slice clamps it, as Python's does; the number
  input's bounds appear only as the hypothesis `1 <= N <= #filtered` of
  `Ranking.TopNAfterExclusion` and `Chart.BuildChart`. An empty chart (everything
  excluded), where `max(values)` would fail, is not modelled.
- The chart title default (app.py:93), Matplotlib drawing, colours, font settings,
  label offsets, SVG export and the timestamped file name are rendering, floating point
  and the wall clock.
- The error message at app.py:38 names the two column schemes as pairs, but lines 23-31
  resolve each tag column on its own, so a header that mixes the schemes is accepted;
  the model follows the code, and `Columns.MixedSchemesAccepted` proves it.
- Equal-metric tags are ordered by nothing explicit in app.py; Python's stable `sorted`
  leaves them in dictionary insertion order, which is first-mention order, and the model
  proves that order (`Ranking.TopNTies`, `Chart.TiesByFirstMention`).
- `Aggregation.TotalsNonNegative` assumes non-negative amount cells, because app.py:56 adds
  whatever the cell holds.
