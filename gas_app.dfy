/**
 * The dashboard's selection and grouping rules: the "All"-aware Year and Month filters,
 * the option lists of the two selectors, the regression group labels, and the R² report
 * with its eligibility rule. Widgets, charts and the regression fit itself are outside.
 */
module GasApp {
  import opened Wrappers
  import opened Dates
  import opened StringOrder

  /** A loaded row of gas.csv: Year and Month as text, Hdd and Gas coerced to numbers or NaN. */
  datatype Reading = Reading(year: string, month: string, hdd: Option<real>, gas: Option<real>)

  /** The option that selects everything. */
  const All := "All"

  /** The boolean-mask selection `rows[keep]`. */
  function Where(rows: seq<Reading>, keep: Reading -> bool): seq<Reading>
  {
    if rows == [] then []
    else (if keep(rows[0]) then [rows[0]] else []) + Where(rows[1..], keep)
  }

  /** `a` occurs in `b` in the same order, possibly with gaps. */
  predicate SubsequenceOf(a: seq<Reading>, b: seq<Reading>)
    decreases |b|
  {
    if a == [] then true
    else if b == [] then false
    else (a[0] == b[0] && SubsequenceOf(a[1..], b[1..])) || SubsequenceOf(a, b[1..])
  }

  /** A mask keeps exactly the rows it accepts, in their order, and never more than there were. */
  lemma {:induction false} WhereSpec(rows: seq<Reading>, keep: Reading -> bool)
    ensures forall r :: r in Where(rows, keep) <==> r in rows && keep(r)
    ensures SubsequenceOf(Where(rows, keep), rows)
    ensures forall r :: multiset(Where(rows, keep))[r] == if keep(r) then multiset(rows)[r] else 0
    ensures |Where(rows, keep)| <= |rows|
    decreases |rows|
  {
    if rows != [] {
      WhereSpec(rows[1..], keep);
      assert rows == [rows[0]] + rows[1..];
      var rest := Where(rows[1..], keep);
      if keep(rows[0]) {
        assert Where(rows, keep) == [rows[0]] + rest;
        assert ([rows[0]] + rest)[1..] == rest;
        assert SubsequenceOf([rows[0]] + rest, rows);
      } else {
        assert Where(rows, keep) == rest;
        assert rest == [] || SubsequenceOf(rest, rows[1..]);
      }
    }
  }

  /** Masks that agree on every row select the same rows. */
  lemma {:induction false} WhereAgreeing(rows: seq<Reading>, p: Reading -> bool, q: Reading -> bool)
    requires forall r :: r in rows ==> p(r) == q(r)
    ensures Where(rows, p) == Where(rows, q)
    decreases |rows|
  {
    if rows != [] {
      assert forall r :: r in rows[1..] ==> r in rows;
      WhereAgreeing(rows[1..], p, q);
    }
  }

  /** A mask that accepts every row keeps the frame as it is. */
  lemma {:induction false} WhereKeepsAll(rows: seq<Reading>, keep: Reading -> bool)
    requires forall r :: r in rows ==> keep(r)
    ensures Where(rows, keep) == rows
    decreases |rows|
  {
    if rows != [] {
      assert forall r :: r in rows[1..] ==> r in rows;
      WhereKeepsAll(rows[1..], keep);
      assert rows == [rows[0]] + rows[1..];
    }
  }

  /** Two masks applied one after the other select the rows both accept. */
  lemma {:induction false} WhereTwice(rows: seq<Reading>, p: Reading -> bool, q: Reading -> bool)
    ensures Where(Where(rows, p), q) == Where(rows, r => p(r) && q(r))
    decreases |rows|
  {
    if rows != [] {
      WhereTwice(rows[1..], p, q);
      var rest := Where(rows[1..], p);
      if p(rows[0]) {
        var once := [rows[0]] + rest;
        assert once[0] == rows[0] && once[1..] == rest;
        assert Where(once, q) == (if q(rows[0]) then [rows[0]] else []) + Where(rest, q);
      } else {
        assert Where(rows, p) == rest;
      }
    }
  }

  predicate YearSelected(r: Reading, selected: seq<string>)
  {
    All in selected || r.year in selected
  }

  predicate MonthSelected(r: Reading, selected: seq<string>)
  {
    All in selected || r.month in selected
  }

  /** The Year filter: with "All" selected every row stays, otherwise the rows whose Year is selected. */
  function FilterYears(rows: seq<Reading>, selected: seq<string>): seq<Reading>
  {
    if All in selected then rows else Where(rows, (r: Reading) => r.year in selected)
  }

  /** The same rule on the Month column. */
  function FilterMonths(rows: seq<Reading>, selected: seq<string>): seq<Reading>
  {
    if All in selected then rows else Where(rows, (r: Reading) => r.month in selected)
  }

  /** Both filters, Year first. */
  function Filtered(rows: seq<Reading>, years: seq<string>, months: seq<string>): seq<Reading>
  {
    FilterMonths(FilterYears(rows, years), months)
  }

  /** With "All" selected the Year filter removes nothing; otherwise it keeps exactly the selected years. */
  lemma FilterYearsSpec(rows: seq<Reading>, selected: seq<string>)
    ensures All in selected ==> FilterYears(rows, selected) == rows
    ensures FilterYears(rows, selected) == Where(rows, r => YearSelected(r, selected))
    ensures forall r :: r in FilterYears(rows, selected) <==> r in rows && YearSelected(r, selected)
  {
    if All in selected {
      WhereKeepsAll(rows, r => YearSelected(r, selected));
    } else {
      WhereAgreeing(rows, (r: Reading) => r.year in selected, r => YearSelected(r, selected));
    }
    WhereSpec(rows, r => YearSelected(r, selected));
  }

  lemma FilterMonthsSpec(rows: seq<Reading>, selected: seq<string>)
    ensures All in selected ==> FilterMonths(rows, selected) == rows
    ensures FilterMonths(rows, selected) == Where(rows, r => MonthSelected(r, selected))
    ensures forall r :: r in FilterMonths(rows, selected) <==> r in rows && MonthSelected(r, selected)
  {
    if All in selected {
      WhereKeepsAll(rows, r => MonthSelected(r, selected));
    } else {
      WhereAgreeing(rows, (r: Reading) => r.month in selected, r => MonthSelected(r, selected));
    }
    WhereSpec(rows, r => MonthSelected(r, selected));
  }

  /**
   * The two filters together keep exactly the rows that pass both, as an order-preserving
   * subsequence of the loaded rows.
   */
  lemma FilteredSpec(rows: seq<Reading>, years: seq<string>, months: seq<string>)
    ensures Filtered(rows, years, months) == Where(rows, r => YearSelected(r, years) && MonthSelected(r, months))
    ensures forall r :: r in Filtered(rows, years, months) <==> r in rows && YearSelected(r, years) && MonthSelected(r, months)
    ensures SubsequenceOf(Filtered(rows, years, months), rows)
  {
    FilterYearsSpec(rows, years);
    FilterMonthsSpec(FilterYears(rows, years), months);
    WhereTwice(rows, r => YearSelected(r, years), r => MonthSelected(r, months));
    WhereAgreeing(rows,
      r => (r => YearSelected(r, years))(r) && (r => MonthSelected(r, months))(r),
      r => YearSelected(r, years) && MonthSelected(r, months));
    WhereSpec(rows, r => YearSelected(r, years) && MonthSelected(r, months));
  }

  function Years(rows: seq<Reading>): seq<string>
  {
    seq(|rows|, i requires 0 <= i < |rows| => rows[i].year)
  }

  /** The Year selector's options: "All", then the distinct years in ascending order. */
  function YearOptions(rows: seq<Reading>): seq<string>
  {
    [All] + SortedDistinct(Years(rows))
  }

  /**
   * The Year options are "All" followed by each year of the data once, in ascending string
   * order; any other ascending list of those years is this one.
   */
  lemma YearOptionsSpec(rows: seq<Reading>, other: seq<string>)
    ensures YearOptions(rows)[0] == All
    ensures Ascending(YearOptions(rows)[1..])
    ensures forall y :: y in YearOptions(rows)[1..] <==> exists r :: r in rows && r.year == y
    ensures Ascending(other) && (forall y :: y in other <==> exists r :: r in rows && r.year == y)
      ==> other == YearOptions(rows)[1..]
  {
    var years := Years(rows);
    SortedDistinctSpec(years);
    assert YearOptions(rows)[1..] == SortedDistinct(years);
    forall y ensures y in years <==> exists r :: r in rows && r.year == y {
      if y in years {
        var i :| 0 <= i < |years| && years[i] == y;
        assert rows[i] in rows;
      }
      if exists r :: r in rows && r.year == y {
        var r :| r in rows && r.year == y;
        var i :| 0 <= i < |rows| && rows[i] == r;
        assert years[i] == y;
      }
    }
    if Ascending(other) && (forall y :: y in other <==> exists r :: r in rows && r.year == y) {
      AscendingUnique(other, SortedDistinct(years));
    }
  }

  function Months(rows: seq<Reading>): seq<string>
  {
    seq(|rows|, i requires 0 <= i < |rows| => rows[i].month)
  }

  /** The sort key of each Month value: its month number, 0 for a text that is no abbreviation. */
  function MonthKeys(rows: seq<Reading>): seq<int>
  {
    seq(|rows|, i requires 0 <= i < |rows| => match MonthNumber(rows[i].month) case Some(m) => m case None => 0)
  }

  /** The month numbers `month`..12 among `keys`, in calendar order. */
  function MonthsFrom(keys: seq<int>, month: int): seq<int>
    requires 1 <= month <= 13
    decreases 13 - month
  {
    if month == 13 then []
    else (if month in keys then [month] else []) + MonthsFrom(keys, month + 1)
  }

  lemma {:induction false} MonthsFromSpec(keys: seq<int>, month: int)
    requires 1 <= month <= 13
    ensures forall m :: m in MonthsFrom(keys, month) <==> month <= m <= 12 && m in keys
    ensures forall i, j :: 0 <= i < j < |MonthsFrom(keys, month)| ==> MonthsFrom(keys, month)[i] < MonthsFrom(keys, month)[j]
    decreases 13 - month
  {
    if month < 13 {
      MonthsFromSpec(keys, month + 1);
      var rest := MonthsFrom(keys, month + 1);
      var head: seq<int> := if month in keys then [month] else [];
      assert MonthsFrom(keys, month) == head + rest;
      forall i, j | 0 <= i < j < |head + rest| ensures (head + rest)[i] < (head + rest)[j] {
        if i < |head| {
          assert rest[j - |head|] in rest;
        }
      }
    }
  }

  /** Month abbreviations in strictly increasing calendar order. */
  predicate CalendarOrdered(abbrs: seq<string>)
  {
    && (forall i :: 0 <= i < |abbrs| ==> IsMonthAbbr(abbrs[i]))
    && (forall i, j :: 0 <= i < j < |abbrs| ==> MonthNumber(abbrs[i]).value < MonthNumber(abbrs[j]).value)
  }

  /** The abbreviations of a list of month numbers. */
  function Abbreviations(numbers: seq<int>): seq<string>
  {
    seq(|numbers|, i requires 0 <= i < |numbers| => if 1 <= numbers[i] <= 12 then MonthAbbr(numbers[i]) else "")
  }

  /** Increasing month numbers give calendar-ordered abbreviations, which name exactly those months. */
  lemma AbbreviationsSpec(numbers: seq<int>)
    requires forall i :: 0 <= i < |numbers| ==> 1 <= numbers[i] <= 12
    requires forall i, j :: 0 <= i < j < |numbers| ==> numbers[i] < numbers[j]
    ensures CalendarOrdered(Abbreviations(numbers))
    ensures forall a :: a in Abbreviations(numbers) <==> IsMonthAbbr(a) && MonthNumber(a).value in numbers
  {
    var listed := Abbreviations(numbers);
    forall i | 0 <= i < |listed| ensures MonthNumber(listed[i]) == Some(numbers[i]) {
      MonthAbbrRoundTrip(numbers[i], listed[i]);
    }
    forall a | IsMonthAbbr(a) && MonthNumber(a).value in numbers ensures a in listed {
      var i :| 0 <= i < |numbers| && numbers[i] == MonthNumber(a).value;
      MonthAbbrRoundTrip(numbers[i], a);
      assert listed[i] == a;
    }
  }

  /** A month number is a sort key of the data exactly when its abbreviation is a Month value. */
  lemma MonthKeysSpec(rows: seq<Reading>, a: string)
    requires IsMonthAbbr(a)
    ensures MonthNumber(a).value in MonthKeys(rows) <==> a in Months(rows)
  {
    var keys := MonthKeys(rows);
    var m := MonthNumber(a).value;
    if m in keys {
      var k :| 0 <= k < |keys| && keys[k] == m;
      assert IsMonthAbbr(rows[k].month);
      MonthAbbrRoundTrip(m, rows[k].month);
      MonthAbbrRoundTrip(m, a);
      assert Months(rows)[k] == a;
    }
    if a in Months(rows) {
      var k :| 0 <= k < |rows| && Months(rows)[k] == a;
      assert keys[k] == m;
    }
  }

  /** The Month selector's options: "All", then the distinct months in calendar order. */
  function MonthOptions(rows: seq<Reading>): seq<string>
  {
    [All] + Abbreviations(MonthsFrom(MonthKeys(rows), 1))
  }

  /**
   * When every Month value is an abbreviation, the Month options are "All" followed by each
   * month of the data once, in calendar order.
   */
  lemma MonthOptionsSpec(rows: seq<Reading>)
    requires forall r :: r in rows ==> IsMonthAbbr(r.month)
    ensures MonthOptions(rows)[0] == All
    ensures forall a :: a in MonthOptions(rows)[1..] <==> a in Months(rows)
    ensures CalendarOrdered(MonthOptions(rows)[1..])
  {
    var keys := MonthKeys(rows);
    var numbers := MonthsFrom(keys, 1);
    MonthsFromSpec(keys, 1);
    assert forall i :: 0 <= i < |numbers| ==> numbers[i] in numbers;
    AbbreviationsSpec(numbers);
    assert MonthOptions(rows)[1..] == Abbreviations(numbers);
    forall a ensures a in Abbreviations(numbers) <==> a in Months(rows) {
      if a in Months(rows) {
        var k :| 0 <= k < |rows| && Months(rows)[k] == a;
        assert rows[k] in rows;
      }
      if IsMonthAbbr(a) {
        MonthKeysSpec(rows, a);
        var m := MonthNumber(a).value;
        assert m in numbers <==> m in keys;
      }
    }
  }

  /** The two choices of the "Group regression by" selector. */
  datatype Grouping = ByYear | ByMonthYear

  /** The column the chart colours by and the report is headed with. */
  function GroupColumn(grouping: Grouping): (column: string)
    ensures column == "Year" <==> grouping == ByYear
    ensures column != ""
  {
    if grouping == ByYear then "Year" else "Month-Year"
  }

  /** A row's regression group: its Year, or `Month + "-" + Year`. */
  function GroupLabel(r: Reading, grouping: Grouping): string
  {
    match grouping
    case ByYear => r.year
    case ByMonthYear => r.month + "-" + r.year
  }

  /**
   * With three-letter months a Month-Year label names one month of one year: two rows
   * share a label exactly when they share both Month and Year.
   */
  lemma MonthYearLabelsDistinguish(r: Reading, s: Reading)
    requires |r.month| == 3 && |s.month| == 3
    ensures GroupLabel(r, ByMonthYear) == GroupLabel(s, ByMonthYear) <==> r.month == s.month && r.year == s.year
  {
    var a, b := GroupLabel(r, ByMonthYear), GroupLabel(s, ByMonthYear);
    if a == b {
      assert r.month == a[..3] && s.month == b[..3];
      assert r.year == a[4..] && s.year == b[4..];
    }
  }

  function Labels(rows: seq<Reading>, grouping: Grouping): seq<string>
  {
    seq(|rows|, i requires 0 <= i < |rows| => GroupLabel(rows[i], grouping))
  }

  /** The distinct group values of the rows. */
  function Groups(rows: seq<Reading>, grouping: Grouping): set<string>
  {
    set r | r in rows :: GroupLabel(r, grouping)
  }

  /** The rows whose group label is `group`. */
  function GroupRows(rows: seq<Reading>, grouping: Grouping, group: string): (members: seq<Reading>)
    ensures forall r :: r in members <==> r in rows && GroupLabel(r, grouping) == group
    ensures SubsequenceOf(members, rows)
    ensures forall r :: multiset(members)[r] == if GroupLabel(r, grouping) == group then multiset(rows)[r] else 0
  {
    var inGroup := (r: Reading) => GroupLabel(r, grouping) == group;
    WhereSpec(rows, inGroup);
    Where(rows, inGroup)
  }

  /** The number of rows with an Hdd value, and with a Gas value. */
  function HddCount(rows: seq<Reading>): nat
  {
    |Where(rows, (r: Reading) => r.hdd.Some?)|
  }

  function GasCount(rows: seq<Reading>): nat
  {
    |Where(rows, (r: Reading) => r.gas.Some?)|
  }

  /** Whether a group gets a fitted R², rather than "Not enough data". */
  predicate Eligible(group: seq<Reading>)
  {
    |group| > 1 && HddCount(group) > 1 && GasCount(group) > 1
  }

  /**
   * The length test is implied by the two counts: a group is eligible exactly when it has
   * two rows with an Hdd and two rows with a Gas value.
   */
  lemma EligibleIffTwoOfEach(group: seq<Reading>)
    ensures Eligible(group) <==> HddCount(group) > 1 && GasCount(group) > 1
  {
    WhereSpec(group, (r: Reading) => r.hdd.Some?);
  }

  /** The entry of one group: the fitted R² if the group is eligible, None otherwise. */
  function R2Entry(group: seq<Reading>, rsquared: seq<Reading> -> real): Option<real>
  {
    if Eligible(group) then Some(rsquared(group)) else None
  }

  /**
   * The R² loop: `r2_results` gets one entry per distinct group value of the rows, as
   * the eligibility rule decides. `rsquared` stands for the OLS fit of a group.
   */
  method ComputeR2(rows: seq<Reading>, grouping: Grouping, rsquared: seq<Reading> -> real)
    returns (results: map<string, Option<real>>)
    ensures results.Keys == Groups(rows, grouping)
    ensures forall g :: g in results ==> results[g] == R2Entry(GroupRows(rows, grouping, g), rsquared)
  {
    var groups := Distinct(Labels(rows, grouping));
    DistinctSpec(Labels(rows, grouping));
    results := map[];
    for i := 0 to |groups|
      invariant results.Keys == set k | 0 <= k < i :: groups[k]
      invariant forall g :: g in results ==> results[g] == R2Entry(GroupRows(rows, grouping, g), rsquared)
    {
      var group := groups[i];
      var members := GroupRows(rows, grouping, group);
      if |members| > 1 && HddCount(members) > 1 && GasCount(members) > 1 {
        results := results[group := Some(rsquared(members))];
      } else {
        results := results[group := None];
      }
    }
    assert results.Keys == set g | g in groups;
    forall g ensures g in groups <==> g in Groups(rows, grouping) {
      if g in Labels(rows, grouping) {
        var i :| 0 <= i < |rows| && Labels(rows, grouping)[i] == g;
        assert rows[i] in rows;
      }
      if g in Groups(rows, grouping) {
        var r :| r in rows && GroupLabel(r, grouping) == g;
        var i :| 0 <= i < |rows| && rows[i] == r;
        assert Labels(rows, grouping)[i] == g;
      }
    }
  }

  /** A line of the R² report: `- **group**: 0.123` or `- **group**: Not enough data`. */
  datatype ReportLine = R2Line(group: string, r2: real) | NotEnoughData(group: string)

  function LineFor(group: string, entry: Option<real>): (line: ReportLine)
    ensures line.group == group
    ensures line.R2Line? <==> entry.Some?
    ensures line.R2Line? ==> line.r2 == entry.value
  {
    match entry
    case Some(r2) => R2Line(group, r2)
    case None => NotEnoughData(group)
  }

  function LineGroups(lines: seq<ReportLine>): seq<string>
  {
    seq(|lines|, k requires 0 <= k < |lines| => lines[k].group)
  }

  /**
   * `lines` is the report of `results`: one line per entry, in ascending order of the
   * group value, each showing that entry.
   */
  predicate ReportOf(lines: seq<ReportLine>, results: map<string, Option<real>>)
  {
    && Ascending(LineGroups(lines))
    && (forall k :: 0 <= k < |lines| ==> lines[k].group in results && lines[k] == LineFor(lines[k].group, results[lines[k].group]))
    && (forall g :: g in results ==> g in LineGroups(lines))
  }

  /** The report loop: the entries of the R² dictionary in ascending key order. */
  method ReportLines(results: map<string, Option<real>>) returns (lines: seq<ReportLine>)
    ensures ReportOf(lines, results)
    ensures |lines| == |results.Keys|
  {
    var remaining := results.Keys;
    lines := [];
    while remaining != {}
      invariant remaining <= results.Keys
      invariant forall g :: g in results ==> (g in remaining <==> g !in LineGroups(lines))
      invariant Ascending(LineGroups(lines))
      invariant forall k :: 0 <= k < |lines| ==> lines[k].group in results && lines[k] == LineFor(lines[k].group, results[lines[k].group])
      invariant lines != [] ==> forall y :: y in remaining ==> Less(lines[|lines| - 1].group, y)
      invariant |lines| + |remaining| == |results.Keys|
      decreases remaining
    {
      ghost var least := MinimumExists(remaining);  // so that the choice below exists
      var g :| g in remaining && forall y :: y in remaining ==> !Less(y, g);
      var line := LineFor(g, results[g]);
      ReportStep(lines, remaining, results, g);
      lines := lines + [line];
      remaining := remaining - {g};
    }
  }

  /** One step of the report loop keeps its invariants. */
  lemma ReportStep(lines: seq<ReportLine>, remaining: set<string>, results: map<string, Option<real>>, g: string)
    requires remaining <= results.Keys
    requires forall h :: h in results ==> (h in remaining <==> h !in LineGroups(lines))
    requires Ascending(LineGroups(lines))
    requires lines != [] ==> forall y :: y in remaining ==> Less(lines[|lines| - 1].group, y)
    requires g in remaining && forall y :: y in remaining ==> !Less(y, g)
    ensures var next := lines + [LineFor(g, results[g])];
      && LineGroups(next) == LineGroups(lines) + [g]
      && (forall h :: h in results ==> (h in remaining - {g} <==> h !in LineGroups(next)))
      && Ascending(LineGroups(next))
      && forall y :: y in remaining - {g} ==> Less(g, y)
  {
    var next := lines + [LineFor(g, results[g])];
    assert LineGroups(next) == LineGroups(lines) + [g];
    forall y | y in remaining - {g} ensures Less(g, y) {
      LessTotal(g, y);
    }
  }

  /** What the page shows below the filters. */
  datatype View = NoDataWarning | Regression(column: string, lines: seq<ReportLine>)

  /**
   * The non-UI path of the page: the filters, then either the warning for an empty
   * selection or the R² report over the selected rows, one line per group in ascending
   * group order.
   */
  method Dashboard(rows: seq<Reading>, years: seq<string>, months: seq<string>, grouping: Grouping,
                   rsquared: seq<Reading> -> real) returns (view: View)
    ensures view.NoDataWarning? <==> Filtered(rows, years, months) == []
    ensures view.Regression? ==>
      var selected := Filtered(rows, years, months);
      && view.column == GroupColumn(grouping)
      && Ascending(LineGroups(view.lines))
      && (forall g :: g in LineGroups(view.lines) <==> g in Groups(selected, grouping))
      && (forall k :: 0 <= k < |view.lines| ==>
            view.lines[k] == LineFor(view.lines[k].group, R2Entry(GroupRows(selected, grouping, view.lines[k].group), rsquared)))
  {
    var selected := Filtered(rows, years, months);
    if selected == [] {
      view := NoDataWarning;
    } else {
      var results := ComputeR2(selected, grouping, rsquared);
      var lines := ReportLines(results);
      view := Regression(GroupColumn(grouping), lines);
    }
  }
}
