/**
 * The dashboard's own logic around the charts: preparing a loaded table
 * (column-name cleanup, locating the party column, normalising party labels)
 * and the small decisions of the reactive callbacks.
 */
module App {
  import opened Wrappers
  import opened Strings
  import opened Table
  import FlipChart

  // ----- _load_and_prepare -----

  /**
   * `_norm_party`: any casing of "democrat" or "republican" becomes the fixed
   * spelling, any other label is title-cased. Only the case of letters changes.
   */
  function NormParty(p: string): (r: string)
    ensures Lower(r) == Lower(p)
    ensures r == "Democrat" <==> Lower(p) == "democrat"
    ensures r == "Republican" <==> Lower(p) == "republican"
    ensures Title(r) == r
  {
    var s := Lower(p);
    PartySpellings();
    LowerIsIdempotent(p);
    LowerOfTitle(s);
    TitleIsIdempotent(s);
    if s == "democrat" then "Democrat"
    else if s == "republican" then "Republican"
    else Title(s)
  }

  lemma PartySpellings()
    ensures Lower("Democrat") == "democrat" && Title("Democrat") == "Democrat"
    ensures Lower("Republican") == "republican" && Title("Republican") == "Republican"
  {
    LowerSpelling("Democrat", "democrat");
    LowerSpelling("Republican", "republican");
    TitleSpelling("Democrat");
    TitleSpelling("Republican");
  }

  lemma LowerSpelling(s: string, t: string)
    requires |s| == |t| && forall i :: 0 <= i < |s| ==> ToLower(s[i]) == t[i]
    ensures Lower(s) == t
  {
  }

  /** A capital followed by lower-case letters is already in title case. */
  lemma TitleSpelling(s: string)
    requires |s| > 0 && IsUpperAscii(s[0]) && forall i :: 1 <= i < |s| ==> IsLowerAscii(s[i])
    ensures Title(s) == s
  {
  }

  /** Normalising a normalised label changes nothing. */
  lemma NormPartyIsIdempotent(p: string)
    ensures NormParty(NormParty(p)) == NormParty(p)
  {
    var r := NormParty(p);
    if Lower(p) != "democrat" && Lower(p) != "republican" {
      TitleOfLower(r);
      TitleOfLower(p);
      TitleIsIdempotent(p);
    }
  }

  /**
   * `str(c).strip().strip('"').strip()` for one column name: only whitespace
   * and quotes around the name are removed, no whitespace is left at either
   * end, and a name wrapped in one pair of quotes loses them.
   */
  function CleanColumnName(c: string): (r: string)
    ensures r == [] || (!IsSpace(r[0]) && !IsSpace(r[|r| - 1]))
    ensures exists a, b :: 0 <= a <= b <= |c| && r == c[a..b] && OnlyDroppedOutside(c, a, b, IsSpaceOrQuote)
    ensures (c == [] || (!IsSpace(c[0]) && !IsSpace(c[|c| - 1]) && !IsQuote(c[0]) && !IsQuote(c[|c| - 1]))) ==> r == c
    ensures QuotedOnce(Strip(c)) ==> r == Strip(c)[1..|Strip(c)| - 1]
  {
    CleanedIsInfix(c);
    CleanNameIsKept(c);
    QuotesRemoved(Strip(c));
    Strip(StripBy(Strip(c), IsQuote))
  }

  /** A name that starts and ends with exactly one quote, with neither whitespace nor a quote inside them. */
  predicate QuotedOnce(t: string) {
    && |t| >= 2 && IsQuote(t[0]) && IsQuote(t[|t| - 1])
    && !IsSpaceOrQuote(t[1]) && !IsSpaceOrQuote(t[|t| - 2])
  }

  lemma QuotesRemoved(t: string)
    ensures QuotedOnce(t) ==> Strip(StripBy(t, IsQuote)) == t[1..|t| - 1]
  {
    if QuotedOnce(t) {
      var u := StripBy(t, IsQuote);
      var a := LeadingCount(t, IsQuote);
      assert a == 1;
      assert a + |u| == |t| - 1;
      assert u == t[1..|t| - 1];
      assert u[0] == t[1] && u[|u| - 1] == t[|t| - 2];
    }
  }

  lemma CleanedIsInfix(c: string)
    ensures exists a, b :: 0 <= a <= b <= |c| && Strip(StripBy(Strip(c), IsQuote)) == c[a..b]
                           && OnlyDroppedOutside(c, a, b, IsSpaceOrQuote)
  {
    var spaced := Strip(c);
    var unquoted := StripBy(spaced, IsQuote);
    var a1, b1 := StripBounds(c, IsSpace);
    var a2, b2 := StripBounds(spaced, IsQuote);
    var a3, b3 := StripBounds(unquoted, IsSpace);
    StripsCompose(c, a1, b1, a2, b2, a3, b3);
  }

  lemma CleanNameIsKept(c: string)
    ensures (c == [] || (!IsSpace(c[0]) && !IsSpace(c[|c| - 1]) && !IsQuote(c[0]) && !IsQuote(c[|c| - 1]))) ==>
      && Strip(c) == c && StripBy(c, IsQuote) == c
  {
  }

  predicate IsSpaceOrQuote(ch: char) { IsSpace(ch) || IsQuote(ch) }

  /** Three nested outer strips remove only whitespace and quotes from the original name. */
  lemma StripsCompose(c: string, a1: nat, b1: nat, a2: nat, b2: nat, a3: nat, b3: nat)
    requires a1 <= b1 <= |c| && OnlyDroppedOutside(c, a1, b1, IsSpace)
    requires a2 <= b2 <= b1 - a1 && OnlyDroppedOutside(c[a1..b1], a2, b2, IsQuote)
    requires a3 <= b3 <= b2 - a2 && OnlyDroppedOutside(c[a1..b1][a2..b2], a3, b3, IsSpace)
    ensures c[a1..b1][a2..b2][a3..b3] == c[a1 + a2 + a3..a1 + a2 + b3]
    ensures OnlyDroppedOutside(c, a1 + a2 + a3, a1 + a2 + b3, IsSpaceOrQuote)
  {
    var lo, hi := a1 + a2 + a3, a1 + a2 + b3;
    var mid := c[a1..b1][a2..b2];
    assert |mid| == b2 - a2;
    assert forall j :: 0 <= j < |mid| ==> mid[j] == c[a1 + a2 + j];
    assert mid == c[a1 + a2..a1 + b2];
    assert mid[a3..b3] == c[lo..hi];
    forall i | 0 <= i < |c| && (i < lo || hi <= i) ensures IsSpaceOrQuote(c[i]) {
      if i < a1 || b1 <= i {
        assert IsSpace(c[i]);
      } else if i < a1 + a2 || a1 + b2 <= i {
        assert c[a1..b1][i - a1] == c[i];
        assert IsQuote(c[i]);
      } else {
        assert c[a1..b1][a2..b2][i - a1 - a2] == c[i];
        assert IsSpace(c[i]);
      }
    }
  }

  /** `df.columns = [... for c in df.columns]`: every name cleaned, in place. */
  function CleanColumns(cols: seq<string>): (r: seq<string>)
    ensures |r| == |cols|
    ensures forall i :: 0 <= i < |cols| ==> r[i] == CleanColumnName(cols[i])
  {
    seq(|cols|, i requires 0 <= i < |cols| => CleanColumnName(cols[i]))
  }

  /** After the cleanup no column name starts or ends with whitespace. */
  lemma CleanedNamesHaveNoOuterSpace(cols: seq<string>)
    ensures forall c :: c in CleanColumns(cols) ==> c == [] || (!IsSpace(c[0]) && !IsSpace(c[|c| - 1]))
  {
    var cleaned := CleanColumns(cols);
    forall i | 0 <= i < |cleaned| ensures cleaned[i] == [] || (!IsSpace(cleaned[i][0]) && !IsSpace(cleaned[i][|cleaned[i]| - 1])) {
      assert cleaned[i] == CleanColumnName(cols[i]);
    }
    EveryNameClean(cleaned);
  }

  lemma EveryNameClean(names: seq<string>)
    requires forall i :: 0 <= i < |names| ==> names[i] == [] || (!IsSpace(names[i][0]) && !IsSpace(names[i][|names[i]| - 1]))
    ensures forall c :: c in names ==> c == [] || (!IsSpace(c[0]) && !IsSpace(c[|c| - 1]))
  {
  }

  /** A column whose lower-cased name is `party_simplified`. */
  predicate IsPartySimplified(c: string) { Lower(c) == "party_simplified" }

  /** A column whose lower-cased name contains `party`. */
  predicate MentionsParty(c: string) { IsInfix("party", Lower(c)) }

  /**
   * The party column: the first named `party_simplified` in any case, else the
   * first whose name contains `party` in any case; `Failure` is the source's
   * `ValueError`, raised exactly when no column name contains `party`.
   */
  function PartyColumn(cols: seq<string>): (r: Result<string>)
    ensures forall i :: 0 <= i < |cols| && IsPartySimplified(cols[i]) && (forall j :: 0 <= j < i ==> !IsPartySimplified(cols[j])) ==>
      r == Success(cols[i])
    ensures forall i ::
      (&& 0 <= i < |cols| && MentionsParty(cols[i])
       && (forall j :: 0 <= j < i ==> !MentionsParty(cols[j]))
       && (forall c :: c in cols ==> !IsPartySimplified(c)))
      ==> r == Success(cols[i])
    ensures r.Failure? <==> forall c :: c in cols ==> !MentionsParty(c)
    ensures (exists c :: c in cols && IsPartySimplified(c)) ==> r.Success? && IsPartySimplified(r.value)
  {
    assert forall c :: IsPartySimplified(c) ==> MentionsParty(c) by {
      forall c | IsPartySimplified(c) ensures MentionsParty(c) {
        PartyInPartySimplified(Lower(c));
      }
    }
    match FirstMatch(cols, IsPartySimplified)
    case Some(c) => Success(c)
    case None =>
      match FirstMatch(cols, MentionsParty)
      case Some(c) => Success(c)
      case None => Failure("party_simplified column not found")
  }

  lemma PartyInPartySimplified(s: string)
    requires s == "party_simplified"
    ensures IsInfix("party", s)
  {
    assert s[..5] == "party";
  }

  /** The two search loops for `party_col` and the `ValueError` after them. */
  method FindPartyColumn(cols: seq<string>) returns (partyCol: Result<string>)
    ensures partyCol == PartyColumn(cols)
  {
    var found := FindFirst(cols, IsPartySimplified);
    if found.None? {
      found := FindFirst(cols, MentionsParty);
    }
    if found.None? {
      partyCol := Failure("party_simplified column not found");
    } else {
      partyCol := Success(found.value);
    }
  }

  /**
   * Line 53 of the loader already indexes the exact column `party_simplified`,
   * so once names are cleaned the case-insensitive search always succeeds and
   * its fallback and `ValueError` are never reached.
   */
  lemma PartyColumnFoundAfterCleanup(raw: seq<string>)
    requires "party_simplified" in raw
    ensures PartyColumn(CleanColumns(raw)).Success?
    ensures IsPartySimplified(PartyColumn(CleanColumns(raw)).value)
  {
    var i :| 0 <= i < |raw| && raw[i] == "party_simplified";
    var cleaned := CleanColumns(raw);
    assert cleaned[i] == "party_simplified" by {
      PartySimplifiedIsClean();
    }
    assert IsPartySimplified(cleaned[i]) by {
      PartySimplifiedIsClean();
    }
  }

  lemma PartySimplifiedIsClean()
    ensures CleanColumnName("party_simplified") == "party_simplified"
    ensures IsPartySimplified("party_simplified")
  {
    var c := "party_simplified";
    assert c[0] == 'p' && c[|c| - 1] == 'd';
    assert !IsSpace('p') && !IsSpace('d') && !IsQuote('p') && !IsQuote('d');
    LowerOfPartySimplified();
  }

  lemma LowerOfPartySimplified()
    ensures Lower("party_simplified") == "party_simplified"
  {
  }

  // ----- callbacks -----

  /** `df_president if dataset == "president" else df_senate` */
  function DatasetFrame(dataset: string, president: Frame, senate: Frame): Frame {
    if dataset == "president" then president else senate
  }

  /** One dropdown entry `{"label": y, "value": y}`. */
  datatype YearOption = YearOption(optionLabel: int, value: int)

  /** The eight outputs of `update_year_options`. */
  datatype YearControls = YearControls(
    yearOptions: seq<YearOption>, year: Option<int>,
    compareOptions: seq<YearOption>, compareYear: Option<int>,
    startOptions: seq<YearOption>, startYear: Option<int>,
    endOptions: seq<YearOption>, endYear: Option<int>)

  function Options(years: seq<int>): (r: seq<YearOption>)
    ensures |r| == |years|
    ensures forall i :: 0 <= i < |years| ==> r[i] == YearOption(years[i], years[i])
  {
    seq(|years|, i requires 0 <= i < |years| => YearOption(years[i], years[i]))
  }

  /** `max(years)` */
  function MaxYear(years: seq<int>): (m: int)
    requires years != []
    ensures m in years && forall y :: y in years ==> y <= m
  {
    if |years| == 1 then years[0]
    else
      var rest := MaxYear(years[1..]);
      assert forall y :: y in years ==> y == years[0] || y in years[1..];
      if years[0] > rest then years[0] else rest
  }

  /**
   * `update_year_options(dataset)`: every dropdown lists the sorted years; the
   * year and the flip end default to the latest year, the flip start to the
   * earliest, the compare year to the one before the latest.
   */
  function UpdateYearOptions(dataset: string, president: Frame, senate: Frame): (r: YearControls)
    ensures var years := SortedYears(DatasetFrame(dataset, president, senate));
      && r.yearOptions == r.compareOptions == r.startOptions == r.endOptions
      && |r.yearOptions| == |years|
      && (forall i :: 0 <= i < |years| ==> r.yearOptions[i].value == r.yearOptions[i].optionLabel == years[i])
      && (years == [] <==> r.year.None?)
      && r.year == r.endYear
      && (r.year.Some? ==> r.year.value in years && forall y :: y in years ==> y <= r.year.value)
      && (r.startYear.Some? <==> r.year.Some?)
      && (r.startYear.Some? ==> r.startYear.value in years && forall y :: y in years ==> r.startYear.value <= y)
      && (r.compareYear.Some? <==> |years| >= 2)
      && (r.compareYear.Some? ==>
            && r.compareYear.value in years && r.compareYear.value < r.year.value
            && forall y :: y in years && y != r.year.value ==> y <= r.compareYear.value)
  {
    var years := SortedYears(DatasetFrame(dataset, president, senate));
    var default := if |years| > 0 then Some(MaxYear(years)) else None;
    var compareDefault := if |years| >= 2 then Some(years[|years| - 2]) else None;
    var startDefault := if |years| > 0 then Some(years[0]) else None;
    var endDefault := if |years| > 0 then Some(years[|years| - 1]) else None;
    var options := Options(years);
    SortedEnds(years);
    YearControls(options, default, options, compareDefault, options, startDefault, options, endDefault)
  }

  /** In a strictly increasing list the last year is the maximum and the one before it the runner-up. */
  lemma SortedEnds(years: seq<int>)
    requires StrictlyIncreasing(years)
    ensures years != [] ==> MaxYear(years) == years[|years| - 1]
    ensures years != [] ==> forall y :: y in years ==> years[0] <= y
    ensures |years| >= 2 ==> forall y :: y in years && y != years[|years| - 1] ==> y <= years[|years| - 2]
  {
    if years != [] {
      var m := MaxYear(years);
      var k :| 0 <= k < |years| && years[k] == m;
      assert years[|years| - 1] <= m;
    }
    forall y | y in years
      ensures years[0] <= y
      ensures |years| >= 2 && y != years[|years| - 1] ==> y <= years[|years| - 2]
    {
      var k :| 0 <= k < |years| && years[k] == y;
    }
  }

  /** Every text state cell of the selected year's rows, displayed state or not. */
  function PresentStates(rows: seq<Row>, col: string, year: int): set<string> {
    set i | 0 <= i < |rows| && YearOf(rows[i]) == Some(year) && Get(rows[i], col).Text? :: Get(rows[i], col).s
  }

  /** `sum(1 for s in display_states if s in present_states)` */
  function PresentCount(display: seq<string>, present: set<string>): (n: nat)
    ensures n == |PresentPositions(display, present)|
    ensures n <= |display|
  {
    if display == [] then 0
    else
      var m := |display| - 1;
      var before := PresentCount(display[..m], present);
      PresentPositionsOfLonger(display, present);
      before + (if display[m] in present then 1 else 0)
  }

  /** The positions of `display` whose state is present. */
  function PresentPositions(display: seq<string>, present: set<string>): set<nat> {
    set i: nat | i < |display| && display[i] in present
  }

  lemma PresentPositionsOfLonger(display: seq<string>, present: set<string>)
    requires display != []
    ensures var m := |display| - 1;
      PresentPositions(display, present)
      == PresentPositions(display[..m], present) + (if display[m] in present then {m} else {})
    ensures |display| - 1 !in PresentPositions(display[..|display| - 1], present)
  {
  }

  /** `no_race_count`: display states without a row in the selected year. */
  function NoRaceCount(display: seq<string>, present: set<string>): (n: nat)
    ensures n == |display| - |PresentPositions(display, present)|
    ensures n <= |display|
    ensures n == 0 <==> forall s :: s in display ==> s in present
  {
    NoRaceCountSpec(display, present);
    |display| - PresentCount(display, present)
  }

  lemma {:induction false} NoRaceCountSpec(display: seq<string>, present: set<string>)
    ensures PresentCount(display, present) == |display| <==> forall s :: s in display ==> s in present
  {
    if display != [] {
      var m := |display| - 1;
      NoRaceCountSpec(display[..m], present);
      assert forall s :: s in display <==> s == display[m] || s in display[..m];
    }
  }

  function DatasetLabel(dataset: string): string {
    if dataset == "president" then "Presidential" else "Senate"
  }

  /**
   * `update_coverage_text(dataset, selected_year)` with the display states of
   * the chosen table passed in as `display`.
   */
  method UpdateCoverageText(dataset: string, selectedYear: Option<int>, president: Frame, senate: Frame, display: seq<string>)
    returns (coverage: string, noRace: string)
    ensures selectedYear.None? ==> coverage == "" && noRace == ""
    ensures StateColumn(DatasetFrame(dataset, president, senate).columns).None? ==> coverage == "" && noRace == ""
    ensures selectedYear.Some? && StateColumn(DatasetFrame(dataset, president, senate).columns).Some? ==>
      var f := DatasetFrame(dataset, president, senate);
      var present := PresentStates(f.rows, StateColumn(f.columns).value, selectedYear.value);
      var count := NoRaceCount(display, present);
      && coverage == DatasetLabel(dataset) + " races in " + IntToString(selectedYear.value) + ": "
                       + IntToString(PresentCount(display, present)) + " states"
      && (noRace == "" <==> count == 0)
      && (count > 0 ==> noRace == "No Race: " + IntToString(count) + " states")
  {
    if selectedYear.None? {
      return "", "";
    }
    var f := DatasetFrame(dataset, president, senate);
    var stateCol := FindStateColumn(f.columns);
    if stateCol.None? {
      return "", "";
    }
    var present := PresentStates(f.rows, stateCol.value, selectedYear.value);
    var presentCount := PresentCount(display, present);
    var noRaceCount := |display| - presentCount;
    coverage := DatasetLabel(dataset) + " races in " + IntToString(selectedYear.value) + ": "
                  + IntToString(presentCount) + " states";
    noRace := if noRaceCount > 0 then "No Race: " + IntToString(noRaceCount) + " states" else "";
  }

  /** Python truthiness of a dropdown value: `None` and `0` are false. */
  predicate Truthy(y: Option<int>) { y.Some? && y.value != 0 }

  /** The map `update_map_chart` draws. */
  datatype MapView =
    | FlipMap(frame: Frame, selectedYear: int, compareYear: int)
    | WinnerMap(frame: Frame, year: Option<int>)

  /**
   * `update_map_chart`: the flip map exactly when both years are set, non-zero
   * and different; otherwise the single-year map of the selected year.
   */
  function UpdateMapChart(dataset: string, selectedYear: Option<int>, compareYear: Option<int>, president: Frame, senate: Frame)
    : (v: MapView)
    ensures v.frame == DatasetFrame(dataset, president, senate)
    ensures v.FlipMap? <==> Truthy(compareYear) && Truthy(selectedYear) && compareYear != selectedYear
    ensures v.FlipMap? ==> v.selectedYear == selectedYear.value && v.compareYear == compareYear.value && v.selectedYear != v.compareYear
    ensures v.WinnerMap? ==> v.year == selectedYear
  {
    var f := DatasetFrame(dataset, president, senate);
    if Truthy(compareYear) && Truthy(selectedYear) && compareYear != selectedYear
    then FlipMap(f, selectedYear.value, compareYear.value)
    else WinnerMap(f, selectedYear)
  }

  /** The two flip figures: placeholders for the Senate, else the flip table and its ranking. */
  datatype FlipViews =
    | SenatePlaceholders
    | FlipFigures(choropleth: Result<seq<FlipChart.FlipEntry>>, ranked: Result<seq<FlipChart.FlipEntry>>)

  /** `update_flip_views(dataset, start_year, end_year)` */
  function UpdateFlipViews(dataset: string, startYear: Option<int>, endYear: Option<int>,
                           president: Frame, senate: Frame, display: seq<string>): (v: FlipViews)
    ensures v.SenatePlaceholders? <==> dataset == "senate"
    ensures v.FlipFigures? ==>
      var f := DatasetFrame(dataset, president, senate);
      && v.choropleth == FlipChart.ComputeFlipCounts(f, startYear, endYear, display)
      && v.ranked == FlipChart.CreateFlipBar(f, startYear, endYear, display, FlipChart.DefaultTopN)
  {
    if dataset == "senate" then SenatePlaceholders
    else
      var f := DatasetFrame(dataset, president, senate);
      FlipFigures(FlipChart.ComputeFlipCounts(f, startYear, endYear, display),
                  FlipChart.CreateFlipBar(f, startYear, endYear, display, FlipChart.DefaultTopN))
  }

  /** `disable_flip_controls(dataset)`: both range dropdowns disabled for the Senate. */
  function DisableFlipControls(dataset: string): (r: (bool, bool))
    ensures r.0 == r.1
    ensures r.0 <==> dataset == "senate"
  {
    var disabled := dataset == "senate";
    (disabled, disabled)
  }

  /**
   * The flip range controls are disabled exactly when the flip figures are
   * placeholders, and the ranked bar then holds at most 15 states.
   */
  lemma FlipControlsFollowFlipViews(dataset: string, startYear: Option<int>, endYear: Option<int>,
                                    president: Frame, senate: Frame, display: seq<string>)
    ensures var v := UpdateFlipViews(dataset, startYear, endYear, president, senate, display);
      && (DisableFlipControls(dataset).0 <==> v.SenatePlaceholders?)
      && (v.FlipFigures? && v.ranked.Success? ==> |v.ranked.value| <= 15)
  {
  }
}
