# Election dashboard core, in Dafny

This project models the computations behind an election-results dashboard. The
dashboard reads US presidential and Senate results, one row per candidate per
state per year, into two tables. It then draws several views from them:

- per-state winners and the number of times each state's winning party flips
  inside a year range, with a ranking of the most-flipping states
  (`graphs/flip_chart.py`);
- the state vote split: Democratic, Republican and other votes per state and
  the leading party (`graphs/state_split_chart.py`);
- the turnout explorer: votes per (year, state) (`graphs/turnout_chart.py`);
- the app's own logic (`app.py`): party-name normalisation, column-name
  cleanup and the party-column lookup of the loader, plus the callbacks that
  fill the year dropdowns, write the coverage text and choose which map and
  flip figures to draw.

A table is a `Table.Frame`: a list of column names and a list of rows. Each row
maps a column name to a `Cell` that is text, an integer, or `Missing` (pandas'
NaN). pandas pipelines become functions on these sequences. The loops of the
source keep their form as methods with loop invariants, each proved equal to a
specification function:

- `count_flips` is `FlipChart.CountFlips`;
- the column searches are `Table.FindFirst` and the methods built on it;
- the per-state loop of the split chart is `StateSplitChart.SplitStates`.

Modules, one per file:

- `wrappers.dfy` (`Wrappers`): `Option` and `Result`.
- `strings.dfy` (`Strings`): the Python string operations used, namely `lower`,
  `upper`, `title`, `strip` and `str(int)`.
- `table.dfy` (`Table`): frames, cells, the first-match column search, state
  columns, sorted unique years.
- `flip_chart.dfy` (`FlipChart`): winners, flip counting, ranking.
- `app.dfy` (`App`): loader helpers and callbacks.
- `state_split_chart.dfy` (`StateSplitChart`): the vote-split chart.
- `turnout_chart.dfy` (`TurnoutChart`): the turnout explorer.

## Model

| member | source | states |
|---|---|---|
| Strings.Title | app.py:87 | `str.title`: same length; characters other than letters are kept; a letter that follows a letter comes out lower-case, any other letter upper-case |
| Strings.LowerOfTitle | app.py:87 | lower-casing a title-cased string gives the lower-cased input |
| Strings.TitleIsIdempotent | app.py:87 | title-casing twice equals title-casing once |
| Strings.StripBy | app.py:56 | the result is a contiguous part of the input, and every character outside it is a dropped one; the result has no dropped character at either end; a string already clean at both ends is returned unchanged |
| Strings.LowerOfUpper | graphs/state_split_chart.py:52 | upper-casing changes only the case of letters |
| Strings.UpperIsIdempotent | graphs/state_split_chart.py:52 | upper-casing twice equals upper-casing once |
| Table.FirstIndex | graphs/turnout_chart.py:9-12 | the index found is accepted by the predicate and no earlier column is; none is found exactly when no column is accepted |
| Table.FindFirst | graphs/turnout_chart.py:9-12 | the `for ... break` scan returns the first accepted column (loop invariant: no column before the cursor is accepted) |
| Table.StateColumn | app.py:316-325 | the first column named `state_po` in any case wins; failing that, the first named `state` in any case; none exactly when neither name occurs |
| Table.FindStateColumn | app.py:316-325 | the two search loops return exactly `StateColumn` |
| Table.SortedDistinct | graphs/flip_chart.py:43 | `sorted(set(...))`: strictly increasing, with exactly the input's members |
| Table.SortedYears | app.py:294 | `sorted(df["year"].unique())`: strictly increasing, with exactly the years present in the rows |
| Table.RowsOfYear | graphs/state_split_chart.py:22 | a row is kept exactly when its year equals the selected year, as often as it occurs in the table |
| FlipChart.GroupColumn | graphs/flip_chart.py:9-22 | the first preference present exactly wins; failing that, the first column whose lower-cased name is `state_po` or `state`; none exactly when no column qualifies |
| FlipChart.ResolveGroupColumn | graphs/flip_chart.py:9-22 | the preference loop followed by the case-insensitive loop returns exactly `GroupColumn` |
| FlipChart.BestRows | graphs/flip_chart.py:26-27 | every chosen index is a row of its own (state, year) group that has votes |
| FlipChart.BestRowsCoversGroups | graphs/flip_chart.py:26-27 | a (state, year) has a chosen row exactly when one of its rows has non-null votes |
| FlipChart.BestRowsIsFirstMaximum | graphs/flip_chart.py:27 | `idxmax`: the chosen row has votes at least those of every row of its group, and strictly more than every earlier one, so ties go to the first row |
| FlipChart.WinnersByStateYear | graphs/flip_chart.py:6-32 | fails ("No state column found") exactly when no state column resolves; otherwise the winners over the resolved column (their properties: `WinnersCoverGroups`, `WinnerRow`, `WinnerIsFirstMaximum`) |
| FlipChart.Winners | graphs/flip_chart.py:25-31 | the winners map has exactly the keys of the `idxmax` fold (their meaning: `WinnersCoverGroups`, `WinnerRow`, `WinnerIsFirstMaximum`) |
| FlipChart.WinnersCoverGroups | graphs/flip_chart.py:26-28 | a (state, year) has a winner exactly when one of its rows has a non-null vote count |
| FlipChart.WinnerRow | graphs/flip_chart.py:27-28 | the winner of a key comes from a row of that key and carries that row's party and vote count |
| FlipChart.WinnerIsFirstMaximum | graphs/flip_chart.py:24-27 | the winner's votes are at least every same-key row's votes, and earlier rows of the key have strictly fewer (`idxmax` keeps the first maximum) |
| FlipChart.Changes | graphs/flip_chart.py:57-73 | the number of adjacent pairs that are both present and differ; at most max(0, length - 1) |
| FlipChart.CountFlips | graphs/flip_chart.py:57-73 | the `prev`/`flips` loop returns exactly `Changes` of the party sequence |
| FlipChart.ChangesAppend | graphs/flip_chart.py:62-72 | counting over a concatenation is the two counts plus the one boundary pair |
| FlipChart.GapResetsBaseline | graphs/flip_chart.py:63-69 | a no-race year splits the count: flips before and after it add up, and no flip is counted across it |
| FlipChart.OnePartyNoFlips | graphs/flip_chart.py:57-73 | a sequence with at most one party present has no flips |
| FlipChart.AlternatingFlipsEveryYear | graphs/flip_chart.py:70-72 | a fully present sequence whose neighbours always differ has length - 1 flips |
| FlipChart.OhioFlipsFiveTimes | graphs/flip_chart.py:57-73 | Ohio's twelve presidential winners of 1976-2020 (D, R, R, R, D, D, R, R, D, D, R, R) give five flips |
| FlipChart.GapBetweenPartiesIsNotAFlip | graphs/flip_chart.py:63-69 | D, no race, R gives zero flips |
| FlipChart.WinnerYears | graphs/flip_chart.py:43 | the winner years are strictly increasing |
| FlipChart.WinnerYearsAreIndexYears | graphs/flip_chart.py:43 | a year is a winner year exactly when some (state, year) key has a winner |
| FlipChart.YearsInRange | graphs/flip_chart.py:51 | keeps exactly the years in the inclusive range, never more than the input; a reversed range gives nothing |
| FlipChart.YearsInRangeKeepsOrder | graphs/flip_chart.py:51 | the years walked stay in increasing order |
| FlipChart.FlipYears | graphs/flip_chart.py:46-51 | a year is walked exactly when it is a winner year at or after the start (the first winner year when `None`) and at or before the end (the last winner year when `None`) |
| FlipChart.PartySeq | graphs/flip_chart.py:58 | one value per walked year: the winner's party of that (state, year), or no race when there is no winner or its party is NaN |
| FlipChart.StateFlips | graphs/flip_chart.py:57-78 | a state's count is 0 or fewer than the years walked (its value is `Changes`, so the `Changes` lemmas apply) |
| FlipChart.DefaultRangeIsAllYears | graphs/flip_chart.py:46-51 | with both endpoints `None`, the walked years are all winner years |
| FlipChart.AllInRange | graphs/flip_chart.py:51 | filtering a sorted list to a range that covers it changes nothing |
| FlipChart.ComputeFlipCounts | graphs/flip_chart.py:35-80 | fails exactly when no state column resolves; no winners gives an empty table; otherwise one entry per display state, in display order, whose count is that state's `Changes` over its winners' parties in the walked years (0 or fewer than the years walked) |
| FlipChart.ReversedRangeHasNoFlips | graphs/flip_chart.py:51 | start after end: the range is not swapped and every state gets 0 flips |
| FlipChart.StateWithoutWinnersHasNoFlips | graphs/flip_chart.py:76-78 | a display state with no winner in the walked years gets 0 |
| FlipChart.InsertByCount | graphs/flip_chart.py:104 | inserting into a non-increasing list keeps it non-increasing and adds exactly the entry |
| FlipChart.SortByCount | graphs/flip_chart.py:104 | the result is non-increasing in flip count and a permutation of the input |
| FlipChart.HeadLength | graphs/flip_chart.py:104 | `head(n)` keeps min(n, rows) rows for n >= 0, and drops the last -n rows (all of them if there are fewer) for n < 0 |
| FlipChart.PrefixOfSortedKeepsLargest | graphs/flip_chart.py:104 | in a non-increasing list, nothing after the cut outranks anything kept |
| FlipChart.RankStates | graphs/flip_chart.py:104 | keeps `head(top_n)` many states, non-increasing, a sub-multiset of the input, and no dropped state has more flips than a kept one |
| FlipChart.CreateFlipBar | graphs/flip_chart.py:101-104 | fails exactly when the flip table fails; otherwise a non-increasing selection of the flip table of length `head(top_n)`, and no state left out has more flips than a kept one |
| App.NormParty | app.py:81-87 | "Democrat" exactly for any casing of "democrat", "Republican" exactly for any casing of "republican", otherwise title case; the result lower-cases to the input lower-cased |
| App.NormPartyIsIdempotent | app.py:81-89 | normalising a normalised party changes nothing |
| App.CleanColumnName | app.py:56 | the cleaned name is a contiguous part of the raw name and only whitespace and quotes lie outside it; it has no outer whitespace; a name with no outer whitespace or quote is unchanged; a name wrapped (after stripping) in exactly one pair of quotes loses them |
| App.CleanColumns | app.py:56 | every column is cleaned, order and count kept |
| App.CleanedNamesHaveNoOuterSpace | app.py:56 | after cleanup no column name starts or ends with whitespace |
| App.PartyColumn | app.py:62-75 | the first column named `party_simplified` in any case; failing that, the first whose lower-cased name contains "party"; an error exactly when no name contains "party" |
| App.PartyInPartySimplified | app.py:68-73 | a `party_simplified` name also mentions "party", so the fallback loop accepts it |
| App.FindPartyColumn | app.py:62-75 | the two search loops return exactly `PartyColumn` |
| App.PartyColumnFoundAfterCleanup | app.py:53-75 | when the raw header has `party_simplified` (line 53 requires it), the lookup succeeds with a column whose lower-cased name is `party_simplified` (the first such column, which may be an earlier differently-cased one), so the fallback and the error are unreachable |
| App.Options | app.py:300 | one option per year, label and value both the year, in order |
| App.MaxYear | app.py:295 | `max(years)` is a member and bounds every year |
| App.UpdateYearOptions | app.py:292-301 | all four option lists are the same sorted years; the year and end defaults are the latest year, the start default the earliest, the compare default the runner-up, with `None` exactly when there are too few years; the year default computed by `max(years)` equals the end default taken as the last sorted year |
| App.SortedEnds | app.py:294-299 | in a strictly increasing list the last element is the maximum, the first the minimum, and the second-to-last bounds every other |
| App.PresentCount | app.py:335 | the number of positions of the display list whose state is present that year |
| App.NoRaceCount | app.py:336-337 | the number of display states minus the number of present display positions; 0 exactly when every display state has a row that year |
| App.NoRaceCountSpec | app.py:335-342 | every display state present exactly when the present count is the full display count |
| App.UpdateCoverageText | app.py:310-343 | ("", "") when no year is selected or no state column exists; otherwise the coverage sentence with the present count, and a no-race sentence that is empty exactly when the no-race count is 0 |
| App.UpdateMapChart | app.py:373-379 | the flip map exactly when both years are truthy and differ, otherwise the single-year map of the selected year, always over the chosen dataset |
| App.UpdateFlipViews | app.py:399-422 | placeholders exactly for the Senate; otherwise the flip table and its ranking over the chosen dataset with the default of 15 |
| App.DisableFlipControls | app.py:430-433 | both range controls get the same flag, set exactly for the Senate dataset |
| App.FlipControlsFollowFlipViews | app.py:399-433 | the controls are disabled exactly when the flip figures are placeholders, and a ranked bar holds at most 15 states |
| StateSplitChart.ChartYear | graphs/state_split_chart.py:16-20 | a selected year is kept; otherwise the latest year of the table, and none exactly when the table has no years |
| StateSplitChart.SplitStateColumn | graphs/state_split_chart.py:37 | exactly `state_po` if present, else exactly `state`, else none |
| StateSplitChart.NormalizeStateCode | graphs/state_split_chart.py:52 | the code equals the stripped text up to case, has no lower-case letter and no outer whitespace |
| StateSplitChart.NormalizeStateCodeIsIdempotent | graphs/state_split_chart.py:52 | normalising a normalised code changes nothing |
| StateSplitChart.VoteOf | graphs/state_split_chart.py:52-54 | a row yields a vote exactly when its party is not NaN; the vote carries the row's normalised state code and its `candidatevotes`, and its bucket is never "No Race" and is the one whose party filter (lines 61-63) the row passes |
| StateSplitChart.VoteRows | graphs/state_split_chart.py:52-54 | the year's rows as votes: never more votes than rows, every one in a party bucket |
| StateSplitChart.PartyBucket | graphs/state_split_chart.py:61-63 | the Democrat bucket exactly for "Democrat", the Republican bucket exactly for "Republican", never "No Race", none exactly for a NaN party, so every other party is Other |
| StateSplitChart.BucketVotesFilterRows | graphs/state_split_chart.py:52-63 | a bucket's sum over the projected votes equals the `candidatevotes` summed over the year's rows whose normalised state matches and whose party passes the source's filter for that bucket |
| StateSplitChart.BucketsPartitionStateVotes | graphs/state_split_chart.py:54-64 | Democratic, Republican and other votes add up to all votes of the state's rows with a party |
| StateSplitChart.MarginSign | graphs/state_split_chart.py:71-74 | with a positive total, the margin is positive iff dem > rep and negative iff dem < rep |
| StateSplitChart.Classify | graphs/state_split_chart.py:64-74 | "No Race" iff total <= 0; otherwise Democrat iff dem > rep, Republican iff rep > dem, Other iff they tie |
| StateSplitChart.SplitOf | graphs/state_split_chart.py:59-82 | dem, rep and other are the state's Democrat, Republican and Other bucket sums; the total is their sum and equals all the state's votes; the winner is the classification |
| StateSplitChart.Splits | graphs/state_split_chart.py:58-82 | one entry per display state |
| StateSplitChart.SplitsFollowDisplay | graphs/state_split_chart.py:58-82 | entry `i` is the split of display state `i`, so the entries follow display order |
| StateSplitChart.SplitStates | graphs/state_split_chart.py:58-82 | the loop builds exactly `Splits` of the year's votes (loop invariant: the entries so far are `Splits` of the states visited) |
| StateSplitChart.CreateStateSplitChart | graphs/state_split_chart.py:14-82 | empty figure exactly when there is no year; a placeholder for a year without rows, for a missing state column and for no display states; otherwise `Splits` of that year's votes, one entry per display state |
| TurnoutChart.VotesColumn | graphs/turnout_chart.py:24-33 | the first column named `totalvotes` in any case; failing that, the first named `candidatevotes` in any case; none exactly when neither occurs |
| TurnoutChart.FindVotesColumn | graphs/turnout_chart.py:24-33 | the two search loops return exactly `VotesColumn` |
| TurnoutChart.AddVotes | graphs/turnout_chart.py:40 | adds the votes to the matching group only, or opens a new group at the end; keys stay distinct and the total grows by the votes |
| TurnoutChart.AddVotesKeys | graphs/turnout_chart.py:40 | the keys after adding are the old keys plus the added one |
| TurnoutChart.Aggregate | graphs/turnout_chart.py:40 | no two groups share a (year, state) key |
| TurnoutChart.AggregateHasEveryKey | graphs/turnout_chart.py:40 | a group exists exactly for each (year, state) that some row with non-null year and state has |
| TurnoutChart.AggregateSumsEachGroup | graphs/turnout_chart.py:40-41 | every group's `votes` is the sum of its rows' votes |
| TurnoutChart.GroupSumOfAbsentKey | graphs/turnout_chart.py:40 | a key no row carries sums to 0 |
| TurnoutChart.AggregateKeepsTotal | graphs/turnout_chart.py:40 | the groups' votes add up to the votes of all rows with non-null year and state |
| TurnoutChart.CreateTurnoutExplorer | graphs/turnout_chart.py:8-41 | the state-column placeholder when no state column resolves, then the votes-column placeholder, otherwise the aggregated lines |

Members without a row of their own are carried by the rows of the members that state their meaning:

- `App.PresentStates` (app.py:329-330) by `App.PresentCount`, `App.NoRaceCount` and `App.UpdateCoverageText`;
- `StateSplitChart.BucketVotes` (graphs/state_split_chart.py:60-63) by `StateSplitChart.SplitOf`, `StateSplitChart.BucketsPartitionStateVotes` and `StateSplitChart.BucketVotesFilterRows`;
- `StateSplitChart.FilteredVotes` (graphs/state_split_chart.py:54-63) by `StateSplitChart.BucketVotesFilterRows`;
- `StateSplitChart.Margin` (graphs/state_split_chart.py:66-73) by `StateSplitChart.MarginSign` and `StateSplitChart.Classify`.

## Left out

- The CSV loader (app.py:15-50, 92-95): file reads, the encoding and parser fallback chain and the debug print are I/O. The frame-level rewrites of `_load_and_prepare` are not modelled as operations on frames. These are the row filters (lines 53, 78), the string-value cleanup (58-60) and the assignment of normalised parties (89). The per-value functions they apply are modelled: `App.CleanColumnName`, `App.NormParty`.
- The Dash layout, callback wiring and `app.run`, and every Plotly figure: annotations, titles, colours, layout and label placement. A figure is modelled as a datatype that names which figure is drawn and carries its data.
- `update_bar_chart`, `update_line_chart` and `update_pie_chart`, and the modules they call (graphs/bar_chart.py, line_chart.py, pie_chart.py): each module is a single group-by handed to Plotly.
- graphs/map_chart.py's `create_map_chart` is called by `update_map_chart` (app.py:379). It is represented only by the year it is called with (`App.UpdateMapChart` and its `WinnerMap` view); the choropleth it draws is not modelled.
- graphs/boxplot_chart.py is called by no callback in app.py and is not part of this model.
- `get_display_states` and `create_flip_map` are not part of this model; they are not in the shown graphs/map_chart.py. The display-state list is a parameter, and the flip map is represented only by the years it is called with (`App.MapView`).
- `create_flip_choropleth` only draws `compute_flip_counts`; `App.UpdateFlipViews` carries that table.
- StateSplitChart.SplitOf: the floating-point shares and the margin in percentage points are not kept in the entry. Only the integer sums and the winner are kept. The winner is classified by the exact-arithmetic margin, whose sign is the sign of dem - rep (`StateSplitChart.MarginSign`). Floating-point rounding is not modelled. Neither are the later sort by |margin|, the bar labels and the chart height (graphs/state_split_chart.py:98-150).
- TurnoutChart.Aggregate: groups come in first-appearance order, not in the sorted key order of `groupby`, because ordering mixed cells is not modelled. The set of groups and their sums are what is proved.
- Missing or ill-typed cells: where pandas would raise `KeyError` or `TypeError` (a missing column, text in a numeric column), the model reads the cell as missing or as 0 votes. Accessors are therefore total.
- Years are integers. A NaN year is not listed among the dropdown years and never matches a selected year.
- Case mapping (`lower`, `upper`, `title`) covers ASCII letters only. Other characters pass through unchanged. `strip` uses the full set of characters Python's `str.isspace` accepts.
- Python's sort in `create_flip_bar` is not declared stable, so ties may come out in any order. `FlipChart.SortByCount` is one admissible order; `FlipChart.RankStates` states only what holds for every order.

Two behaviours of the flip walk that the model keeps as the code has them:

- A year with no race resets the baseline (graphs/flip_chart.py:63-66). D, no race, R therefore counts zero flips (`FlipChart.GapBetweenPartiesIsNotAFlip`).
- A reversed year range is not swapped (graphs/flip_chart.py:51). It selects no years, and every state gets 0 flips (`FlipChart.ReversedRangeHasNoFlips`).
