/** Units of many columns: grouped by column, merged into sections, and summarized. */
module SectionsRoute {
  import opened Occurrences
  import opened Words
  import opened Sections

  /** The units of one column, in the order read. */
  function UnitsOf(units: seq<Unit>, col: int): seq<Unit> {
    if units == [] then []
    else UnitsOf(units[..|units| - 1], col) + if units[|units| - 1].col == col then [units[|units| - 1]] else []
  }

  lemma UnitsOfNext(units: seq<Unit>, i: nat, col: int)
    requires i < |units|
    ensures UnitsOf(units[..i + 1], col) == UnitsOf(units[..i], col) + if units[i].col == col then [units[i]] else []
  {
    assert units[..i + 1][..i] == units[..i];
  }

  /** Grouping keeps every unit as often as it was read, in its own column and in no other. */
  lemma {:induction false} UnitsOfKeepsEach(units: seq<Unit>, col: int, u: Unit)
    ensures multiset(UnitsOf(units, col))[u] == if u.col == col then multiset(units)[u] else 0
  {
    if units != [] {
      var n := |units| - 1;
      assert units == units[..n] + [units[n]];
      UnitsOfKeepsEach(units[..n], col, u);
    }
  }

  /** A column's units are ordered as all units are. */
  lemma {:induction false} UnitsOfOrdered(units: seq<Unit>, col: int)
    requires Ordered(units)
    ensures Ordered(UnitsOf(units, col))
    ensures forall u :: u in UnitsOf(units, col) ==> u in units
  {
    if units != [] {
      var n := |units| - 1;
      var init, last := UnitsOf(units[..n], col), units[n];
      OrderedPrefix(units, n);
      UnitsOfOrdered(units[..n], col);
      assert units == units[..n] + [last];
      forall i | 0 <= i < |init| ensures init[i].tAge <= last.tAge {
        assert init[i] in units[..n];
      }
    }
  }

  /** Every unit read is in exactly one section of its column, as often as it was read. */
  lemma {:induction false} SectionsKeepEach(units: seq<Unit>, col: int, u: Unit)
    requires Ordered(units)
    ensures multiset(Flatten(Packages(UnitsOf(units, col))))[u] == if u.col == col then multiset(units)[u] else 0
  {
    UnitsOfOrdered(units, col);
    PackagesAreTight(UnitsOf(units, col));
    UnitsOfKeepsEach(units, col, u);
  }

  ghost predicate Grouped(columns: map<int, seq<Unit>>, units: seq<Unit>) {
    && (forall col :: col in columns <==> UnitsOf(units, col) != [])
    && (forall col :: col in columns ==> columns[col] == UnitsOf(units, col))
  }

  /** The units of every column met, and the columns in the order they are met. */
  method GroupByColumn(units: seq<Unit>) returns (columns: map<int, seq<Unit>>, order: seq<int>)
    ensures Grouped(columns, units)
    ensures NoRepeats(order) && forall col :: col in order <==> col in columns
  {
    columns, order := map[], [];
    for i := 0 to |units|
      invariant Grouped(columns, units[..i])
      invariant InOrder(columns, order)
    {
      hide Grouped, InOrder;
      var u := units[i];
      GroupOneMore(columns, units, i);
      OrderOneMore(columns, order, u.col, (if u.col in columns then columns[u.col] else []) + [u]);
      if u.col in columns {
        columns := columns[u.col := columns[u.col] + [u]];
      } else {
        columns, order := columns[u.col := [u]], order + [u.col];
      }
    }
    assert units[..|units|] == units;
  }

  /** The columns, each once. */
  ghost predicate InOrder(columns: map<int, seq<Unit>>, order: seq<int>) {
    NoRepeats(order) && forall col :: col in order <==> col in columns
  }

  lemma GroupOneMore(columns: map<int, seq<Unit>>, units: seq<Unit>, i: nat)
    requires i < |units| && Grouped(columns, units[..i])
    ensures var u := units[i];
            Grouped(columns[u.col := (if u.col in columns then columns[u.col] else []) + [u]], units[..i + 1])
    ensures [] + [units[i]] == [units[i]]
  {
    forall col {
      UnitsOfNext(units, i, col);
    }
    hide UnitsOf;
  }

  lemma OrderOneMore(columns: map<int, seq<Unit>>, order: seq<int>, col: int, units: seq<Unit>)
    requires InOrder(columns, order)
    ensures InOrder(columns[col := units], if col in columns then order else order + [col])
  {
  }

  /** `_.min` and `_.max` over the units of a section. */
  method AgeRange(units: seq<Unit>) returns (tAge: real, bAge: real)
    requires units != []
    ensures tAge == MinTop(units) && bAge == MaxBase(units)
  {
    tAge, bAge := units[0].tAge, units[0].bAge;
    assert units[..1] == [units[0]];
    for i := 1 to |units|
      invariant tAge == MinTop(units[..i]) && bAge == MaxBase(units[..i])
    {
      assert units[..i + 1][..i] == units[..i];
      if units[i].tAge < tAge {
        tAge := units[i].tAge;
      }
      if units[i].bAge > bAge {
        bAge := units[i].bAge;
      }
    }
    assert units[..|units|] == units;
  }

  /** `reduce(add, 0)` over one column of the units. */
  function Total(units: seq<Unit>, f: Unit -> real): real {
    if units == [] then 0.0 else Total(units[..|units| - 1], f) + f(units[|units| - 1])
  }

  method AddUp(units: seq<Unit>, f: Unit -> real) returns (total: real)
    ensures total == Total(units, f)
  {
    total := 0.0;
    for i := 0 to |units|
      invariant total == Total(units[..i], f)
    {
      assert units[..i + 1][..i] == units[..i];
      total := total + f(units[i]);
    }
    assert units[..|units|] == units;
  }

  // ---- two decimals ----

  function Hundredths(x: real): nat
    requires x >= 0.0
  {
    (100.0 * x + 0.5).Floor
  }

  function TwoDigits(n: nat): string
    requires n < 100
  {
    [DigitOf(n / 10), DigitOf(n % 10)]
  }

  /** `toFixed(2)`. */
  function Fixed(x: real): string
    decreases x < 0.0
  {
    if x < 0.0 then "-" + Fixed(-x)
    else Decimal(Hundredths(x) / 100) + "." + TwoDigits(Hundredths(x) % 100)
  }

  /** The text is a whole number of hundredths, the nearest one, and the greater of two that are as near. */
  lemma {:induction false} FixedIsNearest(x: real)
    requires x >= 0.0
    ensures var text, n := Fixed(x), Hundredths(x);
            && |text| >= 4 && text[|text| - 3] == '.'
            && AllDigits(text[..|text| - 3] + text[|text| - 2..])
            && Int(text[..|text| - 3] + text[|text| - 2..]) == n
            && -0.5 < n as real - 100.0 * x <= 0.5
  {
    var text, n := Fixed(x), Hundredths(x);
    var whole, rest := Decimal(n / 100), TwoDigits(n % 100);
    hide Decimal;
    assert text == whole + "." + rest;
    assert text[..|text| - 3] == whole && text[|text| - 2..] == rest;
    TwoDigitsMore(n / 100, n % 100);
  }

  lemma TwoDigitsMore(whole: nat, rest: nat)
    requires rest < 100
    ensures AllDigits(Decimal(whole) + TwoDigits(rest))
    ensures Int(Decimal(whole) + TwoDigits(rest)) == 100 * whole + rest
  {
    var first := Decimal(whole) + [DigitOf(rest / 10)];
    var all := Decimal(whole) + TwoDigits(rest);
    IntOfDecimal(whole);
    hide Decimal;
    assert first[..|first| - 1] == Decimal(whole) && all[..|all| - 1] == first;
    assert Int(first) == 10 * whole + rest / 10;
    assert Int(all) == 10 * Int(first) + rest % 10;
  }

  // ---- summaries ----

  datatype Summary = Summary(
    col: int, colArea: real, sectionId: int, projectId: int,
    maxThick: string, minThick: string, tAge: real, bAge: real, collections: real)

  const MAX_THICK: Unit -> real := (u: Unit) => u.maxThick
  const MIN_THICK: Unit -> real := (u: Unit) => u.minThick
  const COLLECTIONS: Unit -> real := (u: Unit) => u.collections

  /** A section's summary: its own running ages, the totals of its units, and what its first unit says of the rest. */
  function SummaryOf(col: int, p: Package): Summary
    requires p.units != []
  {
    var first := p.units[0];
    Summary(col, first.colArea, first.sectionId, first.projectId,
            Fixed(Total(p.units, MAX_THICK)), Fixed(Total(p.units, MIN_THICK)), p.tAge, p.bAge,
            Total(p.units, COLLECTIONS))
  }

  ghost predicate Summarizes(summaries: seq<Summary>, col: int, ps: seq<Package>) {
    && |summaries| == |ps|
    && forall i :: 0 <= i < |ps| ==> ps[i].units != [] && summaries[i] == SummaryOf(col, ps[i])
  }

  /** One section's summary. The ages recomputed from its units are those kept while merging. */
  method SummarizeSection(col: int, section: Section) returns (summary: Summary)
    requires Tight(section.View())
    ensures summary == SummaryOf(col, section.View())
  {
    var units := section.units;
    var maxThick := AddUp(units, MAX_THICK);
    var minThick := AddUp(units, MIN_THICK);
    var tAge, bAge := AgeRange(units);
    var collections := AddUp(units, COLLECTIONS);
    var first := units[0];
    summary := Summary(col, first.colArea, first.sectionId, first.projectId,
                       Fixed(maxThick), Fixed(minThick), tAge, bAge, collections);
  }

  /** The summaries of one column's sections. */
  method SummarizeColumn(col: int, units: seq<Unit>) returns (summaries: seq<Summary>)
    requires units != [] && Ordered(units)
    ensures Summarizes(summaries, col, Packages(units))
  {
    hide Packages, Ordered, Separated, Flatten, SummaryOf;
    PackagesAreTight(units);
    var sections := ColumnSections(units);
    summaries := [];
    for i := 0 to |sections|
      invariant Shows(sections, Packages(units)) && |summaries| == i
      invariant forall j :: 0 <= j < i ==>
                  Packages(units)[j].units != [] && summaries[j] == SummaryOf(col, Packages(units)[j])
    {
      assert sections[i].View() == Packages(units)[i] && Tight(Packages(units)[i]);
      var summary := SummarizeSection(col, sections[i]);
      summaries := summaries + [summary];
    }
  }

  /** The whole route: group, merge and summarize. */
  method SummarizeUnits(units: seq<Unit>) returns (summaries: map<int, seq<Summary>>)
    requires Ordered(units)
    ensures forall col :: col in summaries <==> UnitsOf(units, col) != []
    ensures forall col :: col in summaries ==> Summarizes(summaries[col], col, Packages(UnitsOf(units, col)))
  {
    hide Packages, Ordered, UnitsOf, Summarizes;
    var columns, order := GroupByColumn(units);
    summaries := map[];
    for i := 0 to |order|
      invariant forall col :: col in summaries <==> col in order[..i]
      invariant forall col :: col in summaries ==> Summarizes(summaries[col], col, Packages(UnitsOf(units, col)))
    {
      var col := order[i];
      assert order[..i + 1] == order[..i] + [col] && col in order;
      UnitsOfOrdered(units, col);
      var found := SummarizeColumn(col, columns[col]);
      summaries := summaries[col := found];
    }
    assert order[..|order|] == order;
  }

  // ---- what the summaries add up to ----

  function TotalOfPackages(ps: seq<Package>, f: Unit -> real): real {
    if ps == [] then 0.0 else TotalOfPackages(ps[..|ps| - 1], f) + Total(ps[|ps| - 1].units, f)
  }

  lemma {:induction false} TotalAppend(a: seq<Unit>, b: seq<Unit>, f: Unit -> real)
    ensures Total(a + b, f) == Total(a, f) + Total(b, f)
  {
    if b == [] {
      assert a + b == a;
    } else {
      assert (a + b)[..|a + b| - 1] == a + b[..|b| - 1];
      TotalAppend(a, b[..|b| - 1], f);
    }
  }

  lemma {:induction false} TotalOfFlatten(ps: seq<Package>, f: Unit -> real)
    ensures TotalOfPackages(ps, f) == Total(Flatten(ps), f)
  {
    if ps != [] {
      TotalOfFlatten(ps[..|ps| - 1], f);
      TotalAppend(Flatten(ps[..|ps| - 1]), ps[|ps| - 1].units, f);
    }
  }

  /** What is added up section by section adds up to the total over the column's units: nothing is lost, or
      counted twice. */
  lemma {:induction false} SectionsConserve(units: seq<Unit>, col: int, f: Unit -> real)
    requires Ordered(units)
    ensures TotalOfPackages(Packages(UnitsOf(units, col)), f) == Total(UnitsOf(units, col), f)
  {
    UnitsOfOrdered(units, col);
    PackagesAreTight(UnitsOf(units, col));
    TotalOfFlatten(Packages(UnitsOf(units, col)), f);
  }

  // ---- what a summary says ----

  /** Adding up one number at a time, from zero. */
  ghost predicate AddsUpTo(numbers: seq<real>, sums: seq<real>, total: real) {
    && |sums| == |numbers| + 1 && sums[0] == 0.0 && sums[|numbers|] == total
    && forall i :: 0 <= i < |numbers| ==> sums[i + 1] == sums[i] + numbers[i]
  }

  ghost predicate IsSum(numbers: seq<real>, total: real) {
    exists sums :: AddsUpTo(numbers, sums, total)
  }

  lemma {:induction false} TotalIsSum(units: seq<Unit>, f: Unit -> real)
    ensures IsSum(seq(|units|, i requires 0 <= i < |units| => f(units[i])), Total(units, f))
  {
    var sums := seq(|units| + 1, n requires 0 <= n <= |units| => Total(units[..n], f));
    forall i | 0 <= i < |units| ensures sums[i + 1] == sums[i] + f(units[i]) {
      assert units[..i + 1][..i] == units[..i];
    }
    assert units[..|units|] == units;
    assert AddsUpTo(seq(|units|, i requires 0 <= i < |units| => f(units[i])), sums, Total(units, f));
  }

  /** A summary says where its section is from, as its first unit does; how young and how old its units get; and what
      their thicknesses and collections add up to, the thicknesses to two decimals. */
  lemma {:induction false} SummarySays(col: int, p: Package) returns (maxThick: real, minThick: real)
    requires Tight(p)
    ensures var s, units := SummaryOf(col, p), p.units;
            && s.col == col && s.colArea == units[0].colArea
            && s.sectionId == units[0].sectionId && s.projectId == units[0].projectId
            && IsSum(seq(|units|, i requires 0 <= i < |units| => units[i].maxThick), maxThick)
            && s.maxThick == Fixed(maxThick)
            && IsSum(seq(|units|, i requires 0 <= i < |units| => units[i].minThick), minThick)
            && s.minThick == Fixed(minThick)
            && IsSum(seq(|units|, i requires 0 <= i < |units| => units[i].collections), s.collections)
    ensures var s, units := SummaryOf(col, p), p.units;
            && (forall i :: 0 <= i < |units| ==> s.tAge <= units[i].tAge && units[i].bAge <= s.bAge)
            && (exists i :: 0 <= i < |units| && units[i].tAge == s.tAge)
            && (exists i :: 0 <= i < |units| && units[i].bAge == s.bAge)
  {
    maxThick, minThick := Total(p.units, MAX_THICK), Total(p.units, MIN_THICK);
    hide Fixed, IsSum, Total, MinTop, MaxBase;
    ThickSums(p.units);
    var i := MinTopIsLeast(p.units);
    var j := MaxBaseIsGreatest(p.units);
  }

  lemma ThickSums(units: seq<Unit>)
    ensures IsSum(seq(|units|, i requires 0 <= i < |units| => units[i].maxThick), Total(units, MAX_THICK))
    ensures IsSum(seq(|units|, i requires 0 <= i < |units| => units[i].minThick), Total(units, MIN_THICK))
    ensures IsSum(seq(|units|, i requires 0 <= i < |units| => units[i].collections), Total(units, COLLECTIONS))
  {
    TotalIsSum(units, MAX_THICK);
    TotalIsSum(units, MIN_THICK);
    TotalIsSum(units, COLLECTIONS);
    hide IsSum, Total;
    assert seq(|units|, i requires 0 <= i < |units| => MAX_THICK(units[i]))
        == seq(|units|, i requires 0 <= i < |units| => units[i].maxThick);
    assert seq(|units|, i requires 0 <= i < |units| => MIN_THICK(units[i]))
        == seq(|units|, i requires 0 <= i < |units| => units[i].minThick);
    assert seq(|units|, i requires 0 <= i < |units| => COLLECTIONS(units[i]))
        == seq(|units|, i requires 0 <= i < |units| => units[i].collections);
  }

  /** A number below zero is printed as its opposite, after a minus. */
  lemma {:induction false} FixedBelowZero(x: real)
    requires x < 0.0
    ensures Fixed(x) == "-" + Fixed(-x)
  {
  }
}
