/**
 * Party-flip analysis: the winner of every (state, year) race, the number of
 * times each state's winning party changed inside a year range, and the ranking
 * of the states by that number.
 */
module FlipChart {
  import opened Wrappers
  import opened Strings
  import opened Table

  /** The index of the winners table: a state code and an election year. */
  datatype Key = Key(state: string, year: int)

  /** The party and vote count of the row that won a race. */
  datatype Winner = Winner(party: Cell, votes: int)

  /** One row of the flip-count table. */
  datatype FlipEntry = FlipEntry(state: string, flipCount: nat)

  /** The default `group_col_preference` of `_winners_by_state_year`. */
  const StatePreference: seq<string> := ["state_po", "state"]

  /** The default `top_n` of `create_flip_bar`. */
  const DefaultTopN: int := 15

  // ----- choosing the state column -----

  /** A column whose lower-cased name is `state_po` or `state`. */
  predicate IsStateName(c: string) {
    IsStatePoName(c) || IsStateColumnName(c)
  }

  /**
   * The grouping column: the first preference that is a column name exactly,
   * else the first column whose lower-cased name is `state_po` or `state`,
   * else none (the source raises `ValueError`).
   */
  function GroupColumn(prefs: seq<string>, cols: seq<string>): (r: Option<string>)
    ensures forall i :: 0 <= i < |prefs| && prefs[i] in cols && (forall j :: 0 <= j < i ==> prefs[j] !in cols) ==>
      r == Some(prefs[i])
    ensures forall i ::
      (&& 0 <= i < |cols| && IsStateName(cols[i])
       && (forall j :: 0 <= j < i ==> !IsStateName(cols[j]))
       && (forall p :: p in prefs ==> p !in cols))
      ==> r == Some(cols[i])
    ensures r.None? <==> (forall p :: p in prefs ==> p !in cols) && (forall c :: c in cols ==> !IsStateName(c))
  {
    match FirstIndex(prefs, p => p in cols)
    case Some(i) => Some(prefs[i])
    case None => FirstMatch(cols, IsStateName)
  }

  /** The two column-choice loops of `_winners_by_state_year`. */
  method ResolveGroupColumn(prefs: seq<string>, cols: seq<string>) returns (groupCol: Option<string>)
    ensures groupCol == GroupColumn(prefs, cols)
  {
    groupCol := None;
    var i := 0;
    while i < |prefs| && groupCol.None?
      invariant 0 <= i <= |prefs|
      invariant groupCol.None? ==> forall j :: 0 <= j < i ==> prefs[j] !in cols
      invariant groupCol.Some? ==>
        (&& 0 < i && groupCol == Some(prefs[i - 1]) && prefs[i - 1] in cols
         && forall j :: 0 <= j < i - 1 ==> prefs[j] !in cols)
    {
      if prefs[i] in cols {
        groupCol := Some(prefs[i]);
      }
      i := i + 1;
    }
    if groupCol.None? {
      groupCol := FindFirst(cols, IsStateName);
    }
  }

  // ----- winner of each (state, year) -----

  /** The state code of a row as `astype(str)` renders it; `None` for NaN. */
  function StateOf(row: Row, col: string): Option<string> {
    match Get(row, col)
    case Text(s) => Some(s)
    case Number(n) => Some(IntToString(n))
    case Missing => None
  }

  /** The row's `candidatevotes`; `None` for NaN. */
  function VotesOf(row: Row): Option<int> {
    match Get(row, "candidatevotes")
    case Number(v) => Some(v)
    case _ => None
  }

  /** The (state, year) group of a row; `None` when either key is NaN. */
  function KeyOf(row: Row, col: string): Option<Key> {
    match (StateOf(row, col), YearOf(row))
    case (Some(s), Some(y)) => Some(Key(s, y))
    case _ => None
  }

  /** A row that survives `df[df['candidatevotes'].notna()]` and has a group. */
  datatype Candidate = Candidate(key: Key, votes: int)

  function CandidateOf(row: Row, col: string): Option<Candidate> {
    match (KeyOf(row, col), VotesOf(row))
    case (Some(k), Some(v)) => Some(Candidate(k, v))
    case _ => None
  }

  /** The rows as candidates, in row order. */
  function Candidates(rows: seq<Row>, col: string): (cs: seq<Option<Candidate>>)
    ensures |cs| == |rows|
    ensures forall i :: 0 <= i < |rows| ==> cs[i] == CandidateOf(rows[i], col)
  {
    seq(|rows|, i requires 0 <= i < |rows| => CandidateOf(rows[i], col))
  }

  predicate InGroup(c: Option<Candidate>, k: Key) {
    c.Some? && c.value.key == k
  }

  /**
   * `idxmax` of `candidatevotes` per group over the first `n` candidates: a
   * later row replaces the current best only when its count is strictly larger.
   */
  function BestRows(cs: seq<Option<Candidate>>, n: nat): (m: map<Key, nat>)
    requires n <= |cs|
    ensures forall k :: k in m ==> m[k] < n && InGroup(cs[m[k]], k)
  {
    if n == 0 then map[]
    else
      var m := BestRows(cs, n - 1);
      match cs[n - 1]
      case Some(c) =>
        if c.key !in m || c.votes > cs[m[c.key]].value.votes then m[c.key := n - 1] else m
      case None => m
  }

  /** A group has a best row exactly when some row belongs to it. */
  lemma {:induction false} BestRowsCoversGroups(cs: seq<Option<Candidate>>, n: nat, k: Key)
    requires n <= |cs|
    ensures k in BestRows(cs, n) <==> exists j :: 0 <= j < n && InGroup(cs[j], k)
  {
    if n > 0 {
      BestRowsCoversGroups(cs, n - 1, k);
      if InGroup(cs[n - 1], k) {
        assert k in BestRows(cs, n);
      } else if exists j :: 0 <= j < n && InGroup(cs[j], k) {
        var j :| 0 <= j < n && InGroup(cs[j], k);
        assert j < n - 1;
      }
    }
  }

  /**
   * The best row of a group has the most votes of the group's rows, and
   * strictly more than every earlier one: `idxmax` returns the first maximum.
   */
  lemma {:induction false} BestRowsIsFirstMaximum(cs: seq<Option<Candidate>>, n: nat, k: Key)
    requires n <= |cs|
    requires k in BestRows(cs, n)
    ensures var b := BestRows(cs, n)[k];
      forall j :: 0 <= j < n && InGroup(cs[j], k) ==>
        cs[j].value.votes <= cs[b].value.votes && (j < b ==> cs[j].value.votes < cs[b].value.votes)
  {
    var prev := BestRows(cs, n - 1);
    var b := BestRows(cs, n)[k];
    var replaced := InGroup(cs[n - 1], k) && (k !in prev || cs[n - 1].value.votes > cs[prev[k]].value.votes);
    assert replaced ==> b == n - 1;
    assert !replaced ==> k in prev && b == prev[k];
    if k in prev {
      BestRowsIsFirstMaximum(cs, n - 1, k);
    } else {
      BestRowsCoversGroups(cs, n - 1, k);
    }
    forall j | 0 <= j < n && InGroup(cs[j], k)
      ensures cs[j].value.votes <= cs[b].value.votes && (j < b ==> cs[j].value.votes < cs[b].value.votes)
    {
      if j < n - 1 {
        assert k in prev;
      }
    }
  }

  /** `_winners_by_state_year` once the grouping column is known. */
  function Winners(rows: seq<Row>, col: string): (w: map<Key, Winner>)
    ensures forall k :: k in w <==> k in BestRows(Candidates(rows, col), |rows|)
  {
    var cs := Candidates(rows, col);
    var best := BestRows(cs, |rows|);
    map k | k in best :: Winner(Get(rows[best[k]], "party_simplified"), cs[best[k]].value.votes)
  }

  /** `_winners_by_state_year(df)`: `Failure` is the source's `ValueError('No state column found')`. */
  function WinnersByStateYear(f: Frame, prefs: seq<string>): (r: Result<map<Key, Winner>>)
    ensures r.Failure? <==> GroupColumn(prefs, f.columns).None?
    ensures r.Success? ==> r.value == Winners(f.rows, GroupColumn(prefs, f.columns).value)
  {
    match GroupColumn(prefs, f.columns)
    case None => Failure("No state column found")
    case Some(col) => Success(Winners(f.rows, col))
  }

  /** There is a winner for `k` exactly when some row with a vote count has key `k`. */
  lemma WinnersCoverGroups(rows: seq<Row>, col: string, k: Key)
    ensures k in Winners(rows, col) <==> exists j :: 0 <= j < |rows| && InGroup(CandidateOf(rows[j], col), k)
  {
    BestRowsCoversGroups(Candidates(rows, col), |rows|, k);
  }

  /** The winner of `k` comes from a row of `k` and carries that row's party and count. */
  lemma {:induction false} WinnerRow(rows: seq<Row>, col: string, k: Key)
    requires k in Winners(rows, col)
    ensures var w := Winners(rows, col)[k];
      var b := BestRows(Candidates(rows, col), |rows|)[k];
      && b < |rows|
      && CandidateOf(rows[b], col) == Some(Candidate(k, w.votes))
      && w.party == Get(rows[b], "party_simplified")
  {
    var cs := Candidates(rows, col);
    var b := BestRows(cs, |rows|)[k];
    assert cs[b] == CandidateOf(rows[b], col);
  }

  /**
   * The winner of `k` has the maximum count among the rows of `k`, and
   * strictly more than every earlier one: the earliest among equal maxima.
   */
  lemma {:induction false} WinnerIsFirstMaximum(rows: seq<Row>, col: string, k: Key)
    requires k in Winners(rows, col)
    ensures var w := Winners(rows, col)[k];
      var b := BestRows(Candidates(rows, col), |rows|)[k];
      forall j :: 0 <= j < |rows| && InGroup(CandidateOf(rows[j], col), k) ==>
        && CandidateOf(rows[j], col).value.votes <= w.votes
        && (j < b ==> CandidateOf(rows[j], col).value.votes < w.votes)
  {
    var cs := Candidates(rows, col);
    var b := BestRows(cs, |rows|)[k];
    var v := Winners(rows, col)[k].votes;
    assert v == cs[b].value.votes;
    BestRowsIsFirstMaximum(cs, |rows|, k);
    forall j | 0 <= j < |rows| && InGroup(CandidateOf(rows[j], col), k)
      ensures CandidateOf(rows[j], col).value.votes <= v
      ensures j < b ==> CandidateOf(rows[j], col).value.votes < v
    {
      assert cs[j] == CandidateOf(rows[j], col);
    }
  }

  // ----- counting flips -----

  /** 1 when two consecutive years both had a winner and the party differs. */
  function Step(a: Option<Cell>, b: Option<Cell>): nat {
    if a.Some? && b.Some? && a != b then 1 else 0
  }

  /**
   * The number of consecutive pairs of years that both had a race and whose
   * winning parties differ: what `count_flips` returns.
   */
  function Changes(vals: seq<Option<Cell>>): (r: nat)
    ensures r <= if |vals| == 0 then 0 else |vals| - 1
  {
    if |vals| < 2 then 0
    else Changes(vals[..|vals| - 1]) + Step(vals[|vals| - 2], vals[|vals| - 1])
  }

  /**
   * `count_flips`: walks the winners in year order with the last party seen in
   * `prev`; a year without a race resets `prev`, so the next winner is a new
   * baseline.
   */
  method CountFlips(vals: seq<Option<Cell>>) returns (flips: nat)
    ensures flips == Changes(vals)
  {
    var prev: Option<Cell> := None;
    flips := 0;
    for i := 0 to |vals|
      invariant prev == if i == 0 then None else vals[i - 1]
      invariant flips == Changes(vals[..i])
    {
      assert vals[..i + 1][..i] == vals[..i];
      var val := vals[i];
      if val.None? {
        prev := None;
        continue;
      }
      if prev.None? {
        prev := val;
        continue;
      }
      if val != prev {
        flips := flips + 1;
        prev := val;
      }
    }
    assert vals[..|vals|] == vals;
  }

  lemma {:induction false} ChangesAppend(a: seq<Option<Cell>>, b: seq<Option<Cell>>)
    ensures Changes(a + b) ==
      Changes(a) + Changes(b) + (if |a| > 0 && |b| > 0 then Step(a[|a| - 1], b[0]) else 0)
    decreases |b|
  {
    if |b| == 0 {
      assert a + b == a;
    } else if |b| == 1 {
      if |a| > 0 {
        assert (a + b)[..|a + b| - 1] == a;
      }
    } else {
      var b' := b[..|b| - 1];
      assert (a + b)[..|a + b| - 1] == a + b';
      assert b[..|b| - 1] == b';
      ChangesAppend(a, b');
    }
  }

  /**
   * A year without a race splits the count: the first winner after the gap is
   * never compared with the winner before it.
   */
  lemma GapResetsBaseline(before: seq<Option<Cell>>, after: seq<Option<Cell>>)
    ensures Changes(before + [None] + after) == Changes(before) + Changes(after)
  {
    ChangesAppend(before, [None]);
    ChangesAppend(before + [None], after);
  }

  /** When every year with a race has the same winning party there is no flip. */
  lemma {:induction false} OnePartyNoFlips(vals: seq<Option<Cell>>)
    requires forall i, j :: 0 <= i < |vals| && 0 <= j < |vals| && vals[i].Some? && vals[j].Some? ==> vals[i] == vals[j]
    ensures Changes(vals) == 0
  {
    if |vals| >= 2 {
      OnePartyNoFlips(vals[..|vals| - 1]);
    }
  }

  /** When every year has a race and the party changes every time, each pair is a flip. */
  lemma {:induction false} AlternatingFlipsEveryYear(vals: seq<Option<Cell>>)
    requires |vals| > 0
    requires forall i :: 0 <= i < |vals| ==> vals[i].Some?
    requires forall i :: 0 < i < |vals| ==> vals[i] != vals[i - 1]
    ensures Changes(vals) == |vals| - 1
  {
    if |vals| >= 2 {
      AlternatingFlipsEveryYear(vals[..|vals| - 1]);
    }
  }

  /**
   * The Ohio presidential winners of 1976-2020 (Carter, then Reagan, Reagan,
   * Bush, Clinton, Clinton, Bush, Bush, Obama, Obama, Trump, Trump) change
   * party five times.
   */
  lemma OhioFlipsFiveTimes()
    ensures var r, d := Some(Text("Republican")), Some(Text("Democrat"));
      Changes([d, r, r, r, d, d, r, r, d, d, r, r]) == 5
  {
    var r, d := Some(Text("Republican")), Some(Text("Democrat"));
    var s := [d, r, r, r, d, d, r, r, d, d, r, r];
    assert s[..2][..1] == s[..1];
    assert Changes(s[..2]) == 1;
    assert s[..3][..2] == s[..2];
    assert Changes(s[..3]) == 1;
    assert s[..4][..3] == s[..3];
    assert Changes(s[..4]) == 1;
    assert s[..5][..4] == s[..4];
    assert Changes(s[..5]) == 2;
    assert s[..6][..5] == s[..5];
    assert Changes(s[..6]) == 2;
    assert s[..7][..6] == s[..6];
    assert Changes(s[..7]) == 3;
    assert s[..8][..7] == s[..7];
    assert Changes(s[..8]) == 3;
    assert s[..9][..8] == s[..8];
    assert Changes(s[..9]) == 4;
    assert s[..10][..9] == s[..9];
    assert Changes(s[..10]) == 4;
    assert s[..11][..10] == s[..10];
    assert Changes(s[..11]) == 5;
    assert s[..12][..11] == s[..11];
    assert Changes(s[..12]) == 5;
    assert s[..12] == s;
  }

  /** Democrat then Republican is one flip; with a year without a race between them it is none. */
  lemma GapBetweenPartiesIsNotAFlip()
    ensures var r, d := Some(Text("Republican")), Some(Text("Democrat"));
      Changes([d, r]) == 1 && Changes([d, None, r]) == 0
  {
    var r, d := Some(Text("Republican")), Some(Text("Democrat"));
    GapResetsBaseline([d], [r]);
    assert [d] + [None] + [r] == [d, None, r];
  }

  // ----- compute_flip_counts -----

  /** The years of the rows that survive the `notna` filter and have a state and a year. */
  function WinnerYearList(rows: seq<Row>, col: string): (ys: seq<int>)
    ensures forall y :: y in ys <==>
      exists j :: 0 <= j < |rows| && CandidateOf(rows[j], col).Some? && CandidateOf(rows[j], col).value.key.year == y
  {
    if rows == [] then []
    else
      var rest := WinnerYearList(rows[1..], col);
      assert forall j :: 1 <= j < |rows| ==> rows[j] == rows[1..][j - 1];
      match CandidateOf(rows[0], col)
      case Some(c) => [c.key.year] + rest
      case None => rest
  }

  /** `sorted({y for (_, y) in winners.index})` */
  function WinnerYears(rows: seq<Row>, col: string): (ys: seq<int>)
    ensures StrictlyIncreasing(ys)
  {
    SortedDistinct(WinnerYearList(rows, col))
  }

  /** The winner years are exactly the years of the winners table's index. */
  lemma WinnerYearsAreIndexYears(rows: seq<Row>, col: string, y: int)
    ensures y in WinnerYears(rows, col) <==> exists k :: k in Winners(rows, col) && k.year == y
  {
    var cs := Candidates(rows, col);
    if y in WinnerYears(rows, col) {
      var j :| 0 <= j < |rows| && CandidateOf(rows[j], col).Some? && CandidateOf(rows[j], col).value.key.year == y;
      var k := CandidateOf(rows[j], col).value.key;
      BestRowsCoversGroups(cs, |rows|, k);
      assert k in Winners(rows, col);
    }
    if exists k :: k in Winners(rows, col) && k.year == y {
      var k :| k in Winners(rows, col) && k.year == y;
      var j := BestRows(cs, |rows|)[k];
      assert CandidateOf(rows[j], col).value.key == k;
    }
  }

  /** `[y for y in years if start_year <= y <= end_year]` */
  function YearsInRange(years: seq<int>, lo: int, hi: int): (r: seq<int>)
    ensures forall y :: y in r <==> y in years && lo <= y <= hi
    ensures lo > hi ==> r == []
    ensures |r| <= |years|
  {
    if years == [] then []
    else
      var rest := YearsInRange(years[1..], lo, hi);
      if lo <= years[0] <= hi then [years[0]] + rest else rest
  }

  /** Filtering a sorted list of years keeps it sorted. */
  lemma {:induction false} YearsInRangeKeepsOrder(years: seq<int>, lo: int, hi: int)
    requires StrictlyIncreasing(years)
    ensures StrictlyIncreasing(YearsInRange(years, lo, hi))
  {
    if years != [] {
      HeadBelowTail(years);
      YearsInRangeKeepsOrder(years[1..], lo, hi);
      if lo <= years[0] <= hi {
        ConsIncreasing(years[0], YearsInRange(years[1..], lo, hi));
      }
    }
  }

  /** The years walked: a `None` endpoint defaults to the first or last winner year. */
  function FlipYears(years: seq<int>, startYear: Option<int>, endYear: Option<int>): (r: seq<int>)
    requires years != []
    ensures forall y :: y in r <==>
      && y in years
      && (if startYear.Some? then startYear.value <= y else years[0] <= y)
      && (if endYear.Some? then y <= endYear.value else y <= years[|years| - 1])
  {
    YearsInRange(years, startYear.GetOr(years[0]), endYear.GetOr(years[|years| - 1]))
  }

  /** `[row.get(y) for y in years_range]` for one state; a missing party is NaN too. */
  function PartySeq(w: map<Key, Winner>, state: string, years: seq<int>): (vals: seq<Option<Cell>>)
    ensures |vals| == |years|
    ensures forall i :: 0 <= i < |years| ==>
      vals[i] == if Key(state, years[i]) in w && w[Key(state, years[i])].party != Missing
                 then Some(w[Key(state, years[i])].party) else None
  {
    seq(|years|, i requires 0 <= i < |years| =>
      var k := Key(state, years[i]);
      if k in w && w[k].party != Missing then Some(w[k].party) else None)
  }

  /** The flip count of one display state; `reindex(...).fillna(0)` gives 0 to a state without winners. */
  function StateFlips(w: map<Key, Winner>, state: string, years: seq<int>): (n: nat)
    ensures n == 0 || n < |years|
  {
    Changes(PartySeq(w, state, years))
  }

  /**
   * `compute_flip_counts(df, start_year, end_year)` with `get_display_states(df)`
   * passed in as `display`.
   */
  function ComputeFlipCounts(f: Frame, startYear: Option<int>, endYear: Option<int>, display: seq<string>)
    : (r: Result<seq<FlipEntry>>)
    ensures r.Failure? <==> GroupColumn(StatePreference, f.columns).None?
    ensures r.Success? ==>
      var years := WinnerYears(f.rows, GroupColumn(StatePreference, f.columns).value);
      && (years == [] ==> r.value == [])
      && (years != [] ==>
            && |r.value| == |display|
            && forall i :: 0 <= i < |display| ==>
                 && r.value[i].state == display[i]
                 && r.value[i].flipCount
                    == StateFlips(Winners(f.rows, GroupColumn(StatePreference, f.columns).value),
                                  display[i], FlipYears(years, startYear, endYear))
                 && (r.value[i].flipCount == 0 || r.value[i].flipCount < |FlipYears(years, startYear, endYear)|))
  {
    match WinnersByStateYear(f, StatePreference)
    case Failure(e) => Failure(e)
    case Success(w) =>
      var years := WinnerYears(f.rows, GroupColumn(StatePreference, f.columns).value);
      if years == [] then Success([])
      else
        var range := FlipYears(years, startYear, endYear);
        Success(seq(|display|, i requires 0 <= i < |display| => FlipEntry(display[i], StateFlips(w, display[i], range))))
  }

  /** With both endpoints `None`, every winner year is walked. */
  lemma {:induction false} DefaultRangeIsAllYears(years: seq<int>)
    requires years != [] && StrictlyIncreasing(years)
    ensures FlipYears(years, None, None) == years
  {
    AllInRange(years, years[0], years[|years| - 1]);
  }

  lemma {:induction false} AllInRange(years: seq<int>, lo: int, hi: int)
    requires StrictlyIncreasing(years)
    requires forall i :: 0 <= i < |years| ==> lo <= years[i] <= hi
    ensures YearsInRange(years, lo, hi) == years
  {
    if years != [] {
      AllInRange(years[1..], lo, hi);
    }
  }

  /** A reversed range is not swapped: every display state gets 0 flips. */
  lemma ReversedRangeHasNoFlips(f: Frame, startYear: int, endYear: int, display: seq<string>)
    requires startYear > endYear
    requires ComputeFlipCounts(f, Some(startYear), Some(endYear), display).Success?
    ensures forall e :: e in ComputeFlipCounts(f, Some(startYear), Some(endYear), display).value ==> e.flipCount == 0
  {
    var col := GroupColumn(StatePreference, f.columns).value;
    var years := WinnerYears(f.rows, col);
    if years != [] {
      var range := FlipYears(years, Some(startYear), Some(endYear));
      assert range == [];
    }
  }

  /** A display state that never won a race in the walked years gets 0 flips. */
  lemma StateWithoutWinnersHasNoFlips(w: map<Key, Winner>, state: string, years: seq<int>)
    requires forall y :: y in years ==> Key(state, y) !in w
    ensures StateFlips(w, state, years) == 0
  {
    OnePartyNoFlips(PartySeq(w, state, years));
  }

  // ----- create_flip_bar: rank the states -----

  predicate NonIncreasing(es: seq<FlipEntry>) {
    forall i, j :: 0 <= i < j < |es| ==> es[i].flipCount >= es[j].flipCount
  }

  /** Putting an entry with at least every count in front keeps the order. */
  lemma ConsKeepsOrder(x: FlipEntry, es: seq<FlipEntry>)
    requires NonIncreasing(es)
    requires forall y :: y in es ==> y.flipCount <= x.flipCount
    ensures NonIncreasing([x] + es)
  {
    var r := [x] + es;
    forall i, j | 0 <= i < j < |r| ensures r[i].flipCount >= r[j].flipCount {
      assert r[j] == es[j - 1];
      if i > 0 {
        assert r[i] == es[i - 1];
      }
    }
  }

  function InsertByCount(e: FlipEntry, es: seq<FlipEntry>): (r: seq<FlipEntry>)
    requires NonIncreasing(es)
    ensures NonIncreasing(r)
    ensures |r| == |es| + 1
    ensures multiset(r) == multiset(es) + multiset{e}
  {
    if es == [] then [e]
    else if e.flipCount >= es[0].flipCount then
      ConsKeepsOrder(e, es);
      [e] + es
    else
      var rest := InsertByCount(e, es[1..]);
      assert es == [es[0]] + es[1..];
      RestBelowHead(e, es, rest);
      ConsKeepsOrder(es[0], rest);
      [es[0]] + rest
  }

  lemma RestBelowHead(e: FlipEntry, es: seq<FlipEntry>, rest: seq<FlipEntry>)
    requires NonIncreasing(es) && es != [] && e.flipCount < es[0].flipCount
    requires multiset(rest) == multiset(es[1..]) + multiset{e}
    ensures forall y :: y in rest ==> y.flipCount <= es[0].flipCount
  {
    forall y | y in rest ensures y.flipCount <= es[0].flipCount {
      assert y in multiset(rest);
      if y != e {
        assert y in multiset(es[1..]);
        var j :| 0 <= j < |es[1..]| && es[1..][j] == y;
        assert es[j + 1] == y;
      }
    }
  }

  /**
   * `sort_values('flip_count', ascending=False)`: one admissible order; the
   * source's sort is not stable, so the order of equal counts is not fixed.
   */
  function SortByCount(es: seq<FlipEntry>): (r: seq<FlipEntry>)
    ensures NonIncreasing(r)
    ensures |r| == |es|
    ensures multiset(r) == multiset(es)
  {
    if es == [] then []
    else
      assert es == es[..|es| - 1] + [es[|es| - 1]];
      InsertByCount(es[|es| - 1], SortByCount(es[..|es| - 1]))
  }

  /** How many rows `head(n)` keeps: a negative `n` drops that many rows from the end. */
  function HeadLength(len: nat, n: int): (k: nat)
    ensures k <= len
    ensures n >= 0 ==> k <= n && (k < n ==> k == len)
    ensures n < 0 ==> k + -n >= len && (k > 0 ==> k + -n == len)
  {
    if n >= 0 then (if n < len then n else len)
    else if len + n > 0 then len + n else 0
  }

  lemma {:induction false} PrefixOfSortedKeepsLargest(s: seq<FlipEntry>, n: nat)
    requires NonIncreasing(s) && n <= |s|
    ensures forall e, x :: e in multiset(s) - multiset(s[..n]) && x in s[..n] ==> e.flipCount <= x.flipCount
  {
    assert s == s[..n] + s[n..];
    assert multiset(s) == multiset(s[..n]) + multiset(s[n..]);
    forall e, x | e in multiset(s) - multiset(s[..n]) && x in s[..n]
      ensures e.flipCount <= x.flipCount
    {
      assert e in multiset(s[n..]);
      var a :| 0 <= a < n && s[a] == x;
      var b :| n <= b < |s| && s[b] == e;
    }
  }

  /**
   * `counts.sort_values('flip_count', ascending=False).head(top_n)`: the kept
   * states are in non-increasing order of flips, come from the table, and no
   * state left out has more flips than a kept one.
   */
  function RankStates(counts: seq<FlipEntry>, topN: int): (r: seq<FlipEntry>)
    ensures |r| == HeadLength(|counts|, topN)
    ensures NonIncreasing(r)
    ensures multiset(r) <= multiset(counts)
    ensures forall e, x :: e in multiset(counts) - multiset(r) && x in r ==> e.flipCount <= x.flipCount
  {
    var sorted := SortByCount(counts);
    var n := HeadLength(|counts|, topN);
    HeadOfSorted(sorted, n);
    sorted[..n]
  }

  lemma HeadOfSorted(sorted: seq<FlipEntry>, n: nat)
    requires NonIncreasing(sorted) && n <= |sorted|
    ensures NonIncreasing(sorted[..n])
    ensures multiset(sorted[..n]) <= multiset(sorted)
    ensures forall e, x :: e in multiset(sorted) - multiset(sorted[..n]) && x in sorted[..n] ==> e.flipCount <= x.flipCount
  {
    assert sorted == sorted[..n] + sorted[n..];
    assert multiset(sorted) == multiset(sorted[..n]) + multiset(sorted[n..]);
    PrefixOfSortedKeepsLargest(sorted, n);
  }

  /** The table `create_flip_bar(df, start_year, end_year, top_n)` plots. */
  function CreateFlipBar(f: Frame, startYear: Option<int>, endYear: Option<int>, display: seq<string>, topN: int)
    : (r: Result<seq<FlipEntry>>)
    ensures r.Failure? <==> ComputeFlipCounts(f, startYear, endYear, display).Failure?
    ensures r.Success? ==>
      var counts := ComputeFlipCounts(f, startYear, endYear, display).value;
      && |r.value| == HeadLength(|counts|, topN) && NonIncreasing(r.value) && multiset(r.value) <= multiset(counts)
      && forall e, x :: e in multiset(counts) - multiset(r.value) && x in r.value ==> e.flipCount <= x.flipCount
  {
    match ComputeFlipCounts(f, startYear, endYear, display)
    case Failure(e) => Failure(e)
    case Success(counts) => Success(RankStates(counts, topN))
  }
}
