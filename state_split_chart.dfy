/**
 * The state vote-split chart: for a year, the Democratic, Republican and other
 * votes of every display state and the party that leads it.
 */
module StateSplitChart {
  import opened Wrappers
  import opened Strings
  import opened Table

  /** The `winner` label of a state. */
  datatype SplitWinner = Democrat | Republican | Other | NoRace

  /** One entry of the `states` list (the float shares and margin are not kept). */
  datatype StateSplit = StateSplit(state: string, dem: int, rep: int, other: int, total: int, winner: SplitWinner)

  /** The figure `create_state_split_chart` returns. */
  datatype SplitFigure =
    | EmptyFigure
    | NoDataPlaceholder(year: int)
    | NoStateColumnPlaceholder(year: int)
    | SplitBars(year: int, states: seq<StateSplit>)

  // ----- guards -----

  /** The year drawn: the selected one, else the latest year of the table, else none. */
  function ChartYear(f: Frame, selectedYear: Option<int>): (r: Option<int>)
    ensures selectedYear.Some? ==> r == selectedYear
    ensures selectedYear.None? ==> (r.None? <==> SortedYears(f) == [])
    ensures selectedYear.None? && r.Some? ==> r.value in SortedYears(f) && forall y :: y in SortedYears(f) ==> y <= r.value
  {
    if selectedYear.Some? then selectedYear
    else
      var years := SortedYears(f);
      if years == [] then None
      else
        assert forall y :: y in years ==> y <= years[|years| - 1] by {
          forall y | y in years ensures y <= years[|years| - 1] {
            var k :| 0 <= k < |years| && years[k] == y;
          }
        }
        Some(years[|years| - 1])
  }

  /** The state column: exactly `state_po` if present, else exactly `state`, else none. */
  function SplitStateColumn(cols: seq<string>): (r: Option<string>)
    ensures "state_po" in cols ==> r == Some("state_po")
    ensures "state_po" !in cols && "state" in cols ==> r == Some("state")
    ensures r.None? <==> "state_po" !in cols && "state" !in cols
  {
    if "state_po" in cols then Some("state_po") else if "state" in cols then Some("state") else None
  }

  // ----- state codes -----

  /** `astype(str)` of a cell: NaN becomes the text "nan". */
  function CellStr(c: Cell): string {
    match c
    case Text(s) => s
    case Number(n) => IntToString(n)
    case Missing => "nan"
  }

  /**
   * `astype(str).str.strip().str.upper()`: the state code the rows are grouped
   * by. It is the stripped text up to case, with every letter upper-cased.
   */
  function NormalizeStateCode(c: Cell): (r: string)
    ensures Lower(r) == Lower(Strip(CellStr(c)))
    ensures forall i :: 0 <= i < |r| ==> !IsLowerAscii(r[i])
    ensures r == [] || (!IsSpace(r[0]) && !IsSpace(r[|r| - 1]))
  {
    var stripped := Strip(CellStr(c));
    var r := Upper(stripped);
    UpperedCode(stripped, r);
    r
  }

  lemma UpperedCode(s: string, r: string)
    requires s == [] || (!IsSpace(s[0]) && !IsSpace(s[|s| - 1]))
    requires r == Upper(s)
    ensures Lower(r) == Lower(s)
    ensures forall i :: 0 <= i < |r| ==> !IsLowerAscii(r[i])
    ensures r == [] || (!IsSpace(r[0]) && !IsSpace(r[|r| - 1]))
  {
    UpperKeepsCleanEnds(s);
    LowerOfUpper(s);
  }

  /** Normalising a normalised code changes nothing. */
  lemma NormalizeStateCodeIsIdempotent(c: Cell)
    ensures NormalizeStateCode(Text(NormalizeStateCode(c))) == NormalizeStateCode(c)
  {
    var stripped := Strip(CellStr(c));
    var r := NormalizeStateCode(c);
    assert r == Upper(stripped);
    assert CellStr(Text(r)) == r;
    assert Strip(r) == r;
    UpperIsIdempotent(stripped);
  }

  // ----- per-state sums -----

  /** The bucket of a row's party; `None` for a NaN party, which the group-by leaves out. */
  function PartyBucket(party: Cell): (b: Option<SplitWinner>)
    ensures b != Some(NoRace)
    ensures b.None? <==> party.Missing?
    ensures b == Some(Democrat) <==> party == Text("Democrat")
    ensures b == Some(Republican) <==> party == Text("Republican")
  {
    match party
    case Missing => None
    case Text(s) =>
      if s == "Democrat" then Some(Democrat) else if s == "Republican" then Some(Republican) else Some(Other)
    case Number(_) => Some(Other)
  }

  /** A row's `candidatevotes` as `sum` counts it: NaN adds nothing. */
  function VoteCount(row: Row): int {
    match Get(row, "candidatevotes")
    case Number(v) => v
    case _ => 0
  }

  /** A row after line 52: its normalised state code, its party's bucket and its votes. */
  datatype Vote = Vote(state: string, party: SplitWinner, votes: int)

  /** The row as a vote, or none when its party is NaN. */
  function VoteOf(row: Row, col: string): (v: Option<Vote>)
    ensures v.Some? <==> Get(row, "party_simplified") != Missing
    ensures v.Some? ==> v.value.state == NormalizeStateCode(Get(row, col)) && v.value.votes == VoteCount(row)
    ensures v.Some? ==> v.value.party != NoRace && PartyMatches(Get(row, "party_simplified"), v.value.party)
  {
    match PartyBucket(Get(row, "party_simplified"))
    case None => None
    case Some(b) => Some(Vote(NormalizeStateCode(Get(row, col)), b, VoteCount(row)))
  }

  /** The votes of the year's rows, in row order. */
  function VoteRows(rows: seq<Row>, col: string): (vs: seq<Vote>)
    ensures |vs| <= |rows|
    ensures Bucketed(vs)
  {
    if rows == [] then []
    else
      match VoteOf(rows[0], col)
      case None => VoteRows(rows[1..], col)
      case Some(v) =>
        var rest := VoteRows(rows[1..], col);
        ConsBucketed(v, rest);
        [v] + rest
  }

  /** The votes of `state` whose party falls in `bucket`. */
  function BucketVotes(vs: seq<Vote>, state: string, bucket: SplitWinner): int {
    if vs == [] then 0
    else (if vs[0].state == state && vs[0].party == bucket then vs[0].votes else 0) + BucketVotes(vs[1..], state, bucket)
  }

  /**
   * The party filters of the loop: `== "Democrat"`, `== "Republican"`, and
   * for the rest `~isin(["Democrat", "Republican"])` among the groups, which
   * hold no NaN party.
   */
  predicate PartyMatches(party: Cell, bucket: SplitWinner) {
    match bucket
    case Democrat => party == Text("Democrat")
    case Republican => party == Text("Republican")
    case Other => party != Missing && party != Text("Democrat") && party != Text("Republican")
    case NoRace => false
  }

  /** The summed `candidatevotes` of the year's rows of `state` whose party passes the bucket's filter. */
  function FilteredVotes(rows: seq<Row>, col: string, state: string, bucket: SplitWinner): int {
    if rows == [] then 0
    else
      (if NormalizeStateCode(Get(rows[0], col)) == state && PartyMatches(Get(rows[0], "party_simplified"), bucket)
       then VoteCount(rows[0]) else 0)
      + FilteredVotes(rows[1..], col, state, bucket)
  }

  /** A bucket's sum over the projected votes is the sum the source's filter selects from the rows. */
  lemma {:induction false} BucketVotesFilterRows(rows: seq<Row>, col: string, state: string, bucket: SplitWinner)
    ensures BucketVotes(VoteRows(rows, col), state, bucket) == FilteredVotes(rows, col, state, bucket)
  {
    if rows != [] {
      BucketVotesFilterRows(rows[1..], col, state, bucket);
      FilterStep(rows, col, state, bucket);
    }
  }

  /** Adding one row in front adds the same amount to both sums. */
  lemma FilterStep(rows: seq<Row>, col: string, state: string, bucket: SplitWinner)
    requires rows != []
    ensures BucketVotes(VoteRows(rows, col), state, bucket) - BucketVotes(VoteRows(rows[1..], col), state, bucket)
            == FilteredVotes(rows, col, state, bucket) - FilteredVotes(rows[1..], col, state, bucket)
  {
    var rest := VoteRows(rows[1..], col);
    var v := VoteOf(rows[0], col);
    VoteOfPassesFilter(rows[0], col, state, bucket);
    VoteRowsStep(rows, col);
    if v.Some? {
      BucketVotesCons(v.value, rest, state, bucket);
    }
  }

  lemma VoteRowsStep(rows: seq<Row>, col: string)
    requires rows != []
    ensures VoteRows(rows, col)
            == if VoteOf(rows[0], col).Some? then [VoteOf(rows[0], col).value] + VoteRows(rows[1..], col)
               else VoteRows(rows[1..], col)
  {
  }

  lemma BucketVotesCons(v: Vote, vs: seq<Vote>, state: string, bucket: SplitWinner)
    ensures BucketVotes([v] + vs, state, bucket)
            == (if v.state == state && v.party == bucket then v.votes else 0) + BucketVotes(vs, state, bucket)
  {
    assert ([v] + vs)[1..] == vs;
  }

  /** A row's projected vote lands in a bucket's sum exactly when the row passes that bucket's filter. */
  lemma VoteOfPassesFilter(row: Row, col: string, state: string, bucket: SplitWinner)
    ensures var v := VoteOf(row, col);
      (if v.Some? && v.value.state == state && v.value.party == bucket then v.value.votes else 0)
      == (if NormalizeStateCode(Get(row, col)) == state && PartyMatches(Get(row, "party_simplified"), bucket)
          then VoteCount(row) else 0)
  {
    var party := Get(row, "party_simplified");
    assert PartyBucket(party) == Some(bucket) <==> PartyMatches(party, bucket);
  }

  /** All votes of `state`. */
  function StateVotes(vs: seq<Vote>, state: string): int {
    if vs == [] then 0
    else (if vs[0].state == state then vs[0].votes else 0) + StateVotes(vs[1..], state)
  }

  /** Every vote falls in one of the three buckets. */
  predicate Bucketed(vs: seq<Vote>) {
    forall i :: 0 <= i < |vs| ==> vs[i].party != NoRace
  }

  lemma ConsBucketed(v: Vote, vs: seq<Vote>)
    requires v.party != NoRace && Bucketed(vs)
    ensures Bucketed([v] + vs)
  {
    forall i | 0 <= i < |vs| + 1 ensures ([v] + vs)[i].party != NoRace {
      if i > 0 {
        assert ([v] + vs)[i] == vs[i - 1];
      }
    }
  }

  /** Democratic, Republican and other votes together are all the state's votes. */
  lemma {:induction false} BucketsPartitionStateVotes(vs: seq<Vote>, state: string)
    requires Bucketed(vs)
    ensures BucketVotes(vs, state, Democrat) + BucketVotes(vs, state, Republican)
            + BucketVotes(vs, state, Other) == StateVotes(vs, state)
  {
    if vs != [] {
      assert vs[0].party != NoRace;
      BucketsPartitionStateVotes(vs[1..], state);
    }
  }

  // ----- classification -----

  /** `dem_share - rep_share`, in exact arithmetic. */
  function Margin(dem: int, rep: int, total: int): real
    requires total > 0
  {
    dem as real / total as real - rep as real / total as real
  }

  lemma MarginSign(dem: int, rep: int, total: int)
    requires total > 0
    ensures Margin(dem, rep, total) > 0.0 <==> dem > rep
    ensures Margin(dem, rep, total) < 0.0 <==> dem < rep
  {
    var t := total as real;
    assert Margin(dem, rep, total) == (dem - rep) as real / t;
    if dem > rep {
      assert (dem - rep) as real / t > 0.0;
    } else if dem < rep {
      assert (rep - dem) as real / t > 0.0;
    }
  }

  /**
   * The winner label: "No Race" without a positive total, otherwise the sign of
   * the margin decides, and an exact tie is "Other".
   */
  function Classify(dem: int, rep: int, other: int): (w: SplitWinner)
    ensures w == NoRace <==> dem + rep + other <= 0
    ensures dem + rep + other > 0 ==>
      && (w == Democrat <==> dem > rep)
      && (w == Republican <==> rep > dem)
      && (w == Other <==> dem == rep)
  {
    var total := dem + rep + other;
    if total <= 0 then NoRace
    else
      MarginSign(dem, rep, total);
      var margin := Margin(dem, rep, total);
      if margin > 0.0 then Democrat else if margin < 0.0 then Republican else Other
  }

  /** The entry for one display state. */
  function SplitOf(vs: seq<Vote>, state: string): (e: StateSplit)
    requires Bucketed(vs)
    ensures e.state == state
    ensures e.dem == BucketVotes(vs, state, Democrat)
    ensures e.rep == BucketVotes(vs, state, Republican)
    ensures e.other == BucketVotes(vs, state, Other)
    ensures e.total == e.dem + e.rep + e.other == StateVotes(vs, state)
    ensures e.winner == Classify(e.dem, e.rep, e.other)
  {
    BucketsPartitionStateVotes(vs, state);
    var dem := BucketVotes(vs, state, Democrat);
    var rep := BucketVotes(vs, state, Republican);
    var other := BucketVotes(vs, state, Other);
    StateSplit(state, dem, rep, other, dem + rep + other, Classify(dem, rep, other))
  }

  /** The entries for the display states, one each, in display order. */
  function Splits(vs: seq<Vote>, display: seq<string>): (es: seq<StateSplit>)
    requires Bucketed(vs)
    ensures |es| == |display|
  {
    if display == [] then []
    else Splits(vs, display[..|display| - 1]) + [SplitOf(vs, display[|display| - 1])]
  }

  lemma SplitsOfLonger(vs: seq<Vote>, display: seq<string>, i: nat)
    requires Bucketed(vs) && i < |display|
    ensures Splits(vs, display[..i + 1]) == Splits(vs, display[..i]) + [SplitOf(vs, display[i])]
  {
    var d := display[..i + 1];
    assert d[..|d| - 1] == display[..i];
  }

  /** Entry `i` is the split of display state `i`. */
  lemma {:induction false} SplitsFollowDisplay(vs: seq<Vote>, display: seq<string>)
    requires Bucketed(vs)
    ensures forall i :: 0 <= i < |display| ==> Splits(vs, display)[i] == SplitOf(vs, display[i])
  {
    if display != [] {
      var init := display[..|display| - 1];
      SplitsFollowDisplay(vs, init);
      forall i | 0 <= i < |display| ensures Splits(vs, display)[i] == SplitOf(vs, display[i]) {
        if i < |init| {
          assert display[i] == init[i];
        }
      }
    }
  }

  /**
   * The `for state in display_states` loop over the year's grouped votes: one
   * entry per display state, in display order.
   */
  method SplitStates(rows: seq<Row>, col: string, display: seq<string>) returns (states: seq<StateSplit>)
    ensures states == Splits(VoteRows(rows, col), display)
  {
    var vs := VoteRows(rows, col);
    states := [];
    for i := 0 to |display|
      invariant states == Splits(vs, display[..i])
    {
      var state := display[i];
      var dem := BucketVotes(vs, state, Democrat);
      var rep := BucketVotes(vs, state, Republican);
      var other := BucketVotes(vs, state, Other);
      var total := dem + rep + other;
      var winner := Classify(dem, rep, other);
      SplitsOfLonger(vs, display, i);
      states := states + [StateSplit(state, dem, rep, other, total, winner)];
    }
    assert display[..|display|] == display;
  }

  /**
   * `create_state_split_chart(df, selected_year)` with `get_display_states(df)`
   * passed in as `display`: the guards in source order, then one entry per
   * display state.
   */
  method CreateStateSplitChart(f: Frame, selectedYear: Option<int>, display: seq<string>) returns (fig: SplitFigure)
    ensures ChartYear(f, selectedYear).None? <==> fig == EmptyFigure
    ensures ChartYear(f, selectedYear).Some? ==>
      var year := ChartYear(f, selectedYear).value;
      var yearRows := RowsOfYear(f.rows, year);
      var col := SplitStateColumn(f.columns);
      && (yearRows == [] ==> fig == NoDataPlaceholder(year))
      && (yearRows != [] && col.None? ==> fig == NoStateColumnPlaceholder(year))
      && (yearRows != [] && col.Some? && display == [] ==> fig == NoDataPlaceholder(year))
      && (yearRows != [] && col.Some? && display != [] ==>
            && fig.SplitBars? && fig.year == year && fig.states == Splits(VoteRows(yearRows, col.value), display))
  {
    var year := ChartYear(f, selectedYear);
    if year.None? {
      return EmptyFigure;
    }
    var yearRows := RowsOfYear(f.rows, year.value);
    if yearRows == [] {
      return NoDataPlaceholder(year.value);
    }
    var col := SplitStateColumn(f.columns);
    if col.None? {
      return NoStateColumnPlaceholder(year.value);
    }
    var states := SplitStates(yearRows, col.value, display);
    if states == [] {
      return NoDataPlaceholder(year.value);
    }
    fig := SplitBars(year.value, states);
  }
}
