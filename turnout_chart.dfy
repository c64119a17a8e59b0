/**
 * The turnout explorer: the votes of every (year, state) pair, one line per
 * state across the years.
 */
module TurnoutChart {
  import opened Wrappers
  import opened Strings
  import opened Table

  /** A group-by key: a year and the state cell exactly as the table holds it. */
  datatype GroupKey = GroupKey(year: int, state: Cell)

  /** One row of the aggregated table, after the rename to `year`, `state`, `votes`. */
  datatype TurnoutGroup = TurnoutGroup(year: int, state: Cell, votes: int)

  /** The figure `create_turnout_explorer` returns. */
  datatype TurnoutFigure = NoStateColumnFound | NoVotesColumnFound | TurnoutLines(groups: seq<TurnoutGroup>)

  // ----- the votes column -----

  /** A column whose lower-cased name is `totalvotes`. */
  predicate IsTotalVotesName(c: string) { Lower(c) == "totalvotes" }

  /** A column whose lower-cased name is `candidatevotes`. */
  predicate IsCandidateVotesName(c: string) { Lower(c) == "candidatevotes" }

  /**
   * The votes column: the first column named `totalvotes` in any case, else the
   * first named `candidatevotes` in any case, else none.
   */
  function VotesColumn(cols: seq<string>): (r: Option<string>)
    ensures forall i ::
      (0 <= i < |cols| && IsTotalVotesName(cols[i]) && (forall j :: 0 <= j < i ==> !IsTotalVotesName(cols[j])))
      ==> r == Some(cols[i])
    ensures forall i ::
      (&& 0 <= i < |cols| && IsCandidateVotesName(cols[i])
       && (forall j :: 0 <= j < i ==> !IsCandidateVotesName(cols[j]))
       && (forall c :: c in cols ==> !IsTotalVotesName(c)))
      ==> r == Some(cols[i])
    ensures r.None? <==> forall c :: c in cols ==> !IsTotalVotesName(c) && !IsCandidateVotesName(c)
  {
    match FirstMatch(cols, IsTotalVotesName)
    case Some(c) => Some(c)
    case None => FirstMatch(cols, IsCandidateVotesName)
  }

  /** The two search loops for `votes_col`, each stopping at its first match. */
  method FindVotesColumn(cols: seq<string>) returns (votesCol: Option<string>)
    ensures votesCol == VotesColumn(cols)
  {
    votesCol := FindFirst(cols, IsTotalVotesName);
    if votesCol.None? {
      votesCol := FindFirst(cols, IsCandidateVotesName);
    }
  }

  // ----- the group-by -----

  /** The row's group, or none when its year or its state is missing (NaN keys are dropped). */
  function RowKey(row: Row, stateCol: string): Option<GroupKey> {
    match YearOf(row)
    case None => None
    case Some(y) =>
      var s := Get(row, stateCol);
      if s.Missing? then None else Some(GroupKey(y, s))
  }

  /** The row's votes as `sum` counts them: a missing cell adds nothing. */
  function RowVotes(row: Row, votesCol: string): int {
    match Get(row, votesCol)
    case Number(v) => v
    case _ => 0
  }

  function KeyOf(g: TurnoutGroup): GroupKey {
    GroupKey(g.year, g.state)
  }

  /** Some group in `gs` has key `k`. */
  predicate HasKey(gs: seq<TurnoutGroup>, k: GroupKey) {
    exists i :: 0 <= i < |gs| && KeyOf(gs[i]) == k
  }

  /** No two groups share a key. */
  predicate DistinctKeys(gs: seq<TurnoutGroup>) {
    forall i, j :: 0 <= i < j < |gs| ==> KeyOf(gs[i]) != KeyOf(gs[j])
  }

  /** The sum of the groups' votes. */
  function Total(gs: seq<TurnoutGroup>): int {
    if gs == [] then 0 else Total(gs[..|gs| - 1]) + gs[|gs| - 1].votes
  }

  /** Replacing one group changes the total by the difference of their votes. */
  lemma {:induction false} TotalOfUpdate(gs: seq<TurnoutGroup>, i: nat, g: TurnoutGroup)
    requires i < |gs|
    ensures Total(gs[i := g]) == Total(gs) - gs[i].votes + g.votes
  {
    var n := |gs| - 1;
    if i < n {
      assert gs[i := g][..n] == gs[..n][i := g];
      TotalOfUpdate(gs[..n], i, g);
    } else {
      assert gs[i := g][..n] == gs[..n];
    }
  }

  /** The index of the group with key `k`. */
  function IndexOfKey(gs: seq<TurnoutGroup>, k: GroupKey): (r: Option<nat>)
    ensures r.Some? ==> r.value < |gs| && KeyOf(gs[r.value]) == k
    ensures r.None? <==> !HasKey(gs, k)
  {
    if gs == [] then None
    else if KeyOf(gs[0]) == k then Some(0)
    else
      match IndexOfKey(gs[1..], k)
      case Some(i) => Some(i + 1)
      case None =>
        assert forall i :: 1 <= i < |gs| ==> gs[i] == gs[1..][i - 1];
        None
  }

  /** Adds `v` votes to the group `k`, opening it at the end when it is new. */
  function AddVotes(gs: seq<TurnoutGroup>, k: GroupKey, v: int): (r: seq<TurnoutGroup>)
    requires DistinctKeys(gs)
    ensures DistinctKeys(r)
    ensures HasKey(gs, k) ==> |r| == |gs|
    ensures !HasKey(gs, k) ==> r == gs + [TurnoutGroup(k.year, k.state, v)]
    ensures forall i :: 0 <= i < |gs| ==>
      KeyOf(r[i]) == KeyOf(gs[i]) && r[i].votes == gs[i].votes + (if KeyOf(gs[i]) == k then v else 0)
    ensures Total(r) == Total(gs) + v
  {
    match IndexOfKey(gs, k)
    case Some(i) =>
      var g := gs[i].(votes := gs[i].votes + v);
      TotalOfUpdate(gs, i, g);
      gs[i := g]
    case None =>
      var r := gs + [TurnoutGroup(k.year, k.state, v)];
      assert r[..|gs|] == gs;
      r
  }

  /** After adding to `k`, the keys are the old ones and `k`. */
  lemma AddVotesKeys(gs: seq<TurnoutGroup>, k: GroupKey, v: int, k': GroupKey)
    requires DistinctKeys(gs)
    ensures HasKey(AddVotes(gs, k, v), k') <==> HasKey(gs, k') || k' == k
  {
    var r := AddVotes(gs, k, v);
    if HasKey(r, k') {
      var i :| 0 <= i < |r| && KeyOf(r[i]) == k';
      if i < |gs| {
        assert KeyOf(gs[i]) == k';
      }
    }
    if HasKey(gs, k') {
      var i :| 0 <= i < |gs| && KeyOf(gs[i]) == k';
      assert KeyOf(r[i]) == k';
    }
    if k' == k && HasKey(gs, k) {
      var i :| 0 <= i < |gs| && KeyOf(gs[i]) == k;
      assert KeyOf(r[i]) == k;
    }
  }

  /**
   * `df.groupby(["year", state_col], as_index=False)[votes_col].sum()`: one
   * group per key, in the order the keys first appear.
   */
  function Aggregate(rows: seq<Row>, stateCol: string, votesCol: string): (gs: seq<TurnoutGroup>)
    ensures DistinctKeys(gs)
  {
    if rows == [] then []
    else
      var prev := Aggregate(rows[..|rows| - 1], stateCol, votesCol);
      var last := rows[|rows| - 1];
      match RowKey(last, stateCol)
      case None => prev
      case Some(k) => AddVotes(prev, k, RowVotes(last, votesCol))
  }

  /** The votes of the rows in group `k`. */
  function GroupSum(rows: seq<Row>, stateCol: string, votesCol: string, k: GroupKey): int {
    if rows == [] then 0
    else
      var last := rows[|rows| - 1];
      GroupSum(rows[..|rows| - 1], stateCol, votesCol, k)
      + (if RowKey(last, stateCol) == Some(k) then RowVotes(last, votesCol) else 0)
  }

  /** The votes of every row that belongs to some group. */
  function GroupedSum(rows: seq<Row>, stateCol: string, votesCol: string): int {
    if rows == [] then 0
    else
      var last := rows[|rows| - 1];
      GroupedSum(rows[..|rows| - 1], stateCol, votesCol)
      + (if RowKey(last, stateCol).Some? then RowVotes(last, votesCol) else 0)
  }

  /** There is a group for a key exactly when some row has that key. */
  lemma {:induction false} AggregateHasEveryKey(rows: seq<Row>, stateCol: string, votesCol: string, k: GroupKey)
    ensures HasKey(Aggregate(rows, stateCol, votesCol), k) <==>
            exists j :: 0 <= j < |rows| && RowKey(rows[j], stateCol) == Some(k)
  {
    if rows != [] {
      var init := rows[..|rows| - 1];
      AggregateHasEveryKey(init, stateCol, votesCol, k);
      assert forall j :: 0 <= j < |init| ==> init[j] == rows[j];
      match RowKey(rows[|rows| - 1], stateCol)
      case None =>
      case Some(k0) =>
        AddVotesKeys(Aggregate(init, stateCol, votesCol), k0, RowVotes(rows[|rows| - 1], votesCol), k);
      if exists j :: 0 <= j < |rows| && RowKey(rows[j], stateCol) == Some(k) {
        var j :| 0 <= j < |rows| && RowKey(rows[j], stateCol) == Some(k);
        if j < |init| {
          assert RowKey(init[j], stateCol) == Some(k);
        }
      }
    }
  }

  /** Every group in `gs` carries the sum of the votes of its rows. */
  predicate SumsEachGroup(rows: seq<Row>, stateCol: string, votesCol: string, gs: seq<TurnoutGroup>) {
    forall i :: 0 <= i < |gs| ==> gs[i].votes == GroupSum(rows, stateCol, votesCol, KeyOf(gs[i]))
  }

  /** Every group carries the sum of its rows' votes. */
  lemma {:induction false} AggregateSumsEachGroup(rows: seq<Row>, stateCol: string, votesCol: string)
    ensures SumsEachGroup(rows, stateCol, votesCol, Aggregate(rows, stateCol, votesCol))
  {
    if rows != [] {
      var init := rows[..|rows| - 1];
      var last := rows[|rows| - 1];
      AggregateSumsEachGroup(init, stateCol, votesCol);
      var prev := Aggregate(init, stateCol, votesCol);
      var gs := Aggregate(rows, stateCol, votesCol);
      match RowKey(last, stateCol)
      case None =>
        assert gs == prev;
        forall i | 0 <= i < |gs| ensures gs[i].votes == GroupSum(rows, stateCol, votesCol, KeyOf(gs[i])) {
          assert GroupSum(rows, stateCol, votesCol, KeyOf(gs[i])) == GroupSum(init, stateCol, votesCol, KeyOf(gs[i]));
        }
      case Some(k) =>
        var v := RowVotes(last, votesCol);
        assert gs == AddVotes(prev, k, v);
        forall i | 0 <= i < |gs| ensures gs[i].votes == GroupSum(rows, stateCol, votesCol, KeyOf(gs[i])) {
          assert GroupSum(rows, stateCol, votesCol, KeyOf(gs[i])) ==
            GroupSum(init, stateCol, votesCol, KeyOf(gs[i])) + (if k == KeyOf(gs[i]) then v else 0);
          if i < |prev| {
            assert KeyOf(gs[i]) == KeyOf(prev[i]);
            assert gs[i].votes == prev[i].votes + (if KeyOf(prev[i]) == k then v else 0);
          } else {
            // a group opened by the last row: no earlier row has its key
            assert !HasKey(prev, k);
            assert gs[i] == TurnoutGroup(k.year, k.state, v);
            AggregateHasEveryKey(init, stateCol, votesCol, k);
            GroupSumOfAbsentKey(init, stateCol, votesCol, k);
          }
        }
    }
  }

  /** A key no row has sums to nothing. */
  lemma {:induction false} GroupSumOfAbsentKey(rows: seq<Row>, stateCol: string, votesCol: string, k: GroupKey)
    requires forall j :: 0 <= j < |rows| ==> RowKey(rows[j], stateCol) != Some(k)
    ensures GroupSum(rows, stateCol, votesCol, k) == 0
  {
    if rows != [] {
      GroupSumOfAbsentKey(rows[..|rows| - 1], stateCol, votesCol, k);
    }
  }

  /** The groups together hold every vote of every grouped row: the group-by loses nothing. */
  lemma {:induction false} AggregateKeepsTotal(rows: seq<Row>, stateCol: string, votesCol: string)
    ensures Total(Aggregate(rows, stateCol, votesCol)) == GroupedSum(rows, stateCol, votesCol)
  {
    if rows != [] {
      AggregateKeepsTotal(rows[..|rows| - 1], stateCol, votesCol);
    }
  }

  /**
   * `create_turnout_explorer(df)`: the placeholder for a missing state column,
   * then for a missing votes column, else the aggregated lines.
   */
  method CreateTurnoutExplorer(f: Frame) returns (fig: TurnoutFigure)
    ensures StateColumn(f.columns).None? ==> fig == NoStateColumnFound
    ensures StateColumn(f.columns).Some? && VotesColumn(f.columns).None? ==> fig == NoVotesColumnFound
    ensures StateColumn(f.columns).Some? && VotesColumn(f.columns).Some? ==>
      && fig.TurnoutLines?
      && fig.groups == Aggregate(f.rows, StateColumn(f.columns).value, VotesColumn(f.columns).value)
  {
    var stateCol := FindStateColumn(f.columns);
    if stateCol.None? {
      return NoStateColumnFound;
    }
    var votesCol := FindVotesColumn(f.columns);
    if votesCol.None? {
      return NoVotesColumnFound;
    }
    fig := TurnoutLines(Aggregate(f.rows, stateCol.value, votesCol.value));
  }
}
