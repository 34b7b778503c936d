/** Units of a column merged, in one pass, into gap-bound packages. */
module Sections {

  datatype Unit = Unit(
    id: int, col: int, tAge: real, bAge: real,
    sectionId: int, projectId: int, colArea: real, maxThick: real, minThick: real, collections: real)

  datatype Package = Package(tAge: real, bAge: real, units: seq<Unit>)

  function NewPackage(u: Unit): Package {
    Package(u.tAge, u.bAge, [u])
  }

  function Extend(p: Package, u: Unit): Package {
    Package(p.tAge, if u.bAge > p.bAge then u.bAge else p.bAge, p.units + [u])
  }

  function Last(ps: seq<Package>): Package
    requires ps != []
  {
    ps[|ps| - 1]
  }

  function Closed(ps: seq<Package>): seq<Package>
    requires ps != []
  {
    ps[..|ps| - 1]
  }

  predicate Touches(p: Package, u: Unit) {
    u.tAge >= p.tAge && u.tAge <= p.bAge
  }

  /** A unit joins the last package when its top age lies within it, and starts a new one otherwise. */
  function Place(ps: seq<Package>, u: Unit): (r: seq<Package>)
    ensures r != []
  {
    if ps != [] && Touches(Last(ps), u) then Closed(ps) + [Extend(Last(ps), u)] else ps + [NewPackage(u)]
  }

  /** The packages of the units read so far; only the last of them is still open. */
  function Packages(units: seq<Unit>): (ps: seq<Package>)
    ensures units != [] ==> ps != []
  {
    if units == [] then [] else Place(Packages(units[..|units| - 1]), units[|units| - 1])
  }

  // ---- the section object ----

  class Section {
    var tAge: real
    var bAge: real
    var units: seq<Unit>

    constructor (u: Unit)
      ensures View() == NewPackage(u)
    {
      tAge, bAge, units := u.tAge, u.bAge, [u];
    }

    ghost function View(): Package
      reads this
    {
      Package(tAge, bAge, units)
    }

    /** Take in one more unit, bumping the base age down if needed. */
    method Push(u: Unit)
      modifies this
      ensures View() == Extend(old(View()), u)
    {
      if u.bAge > bAge {
        bAge := u.bAge;
      }
      units := units + [u];
    }
  }

  ghost predicate Shows(sections: seq<Section>, ps: seq<Package>)
    reads sections
  {
    |sections| == |ps| && forall i :: 0 <= i < |sections| ==> sections[i].View() == ps[i]
  }

  /** The sections of one column. Only the current section is ever changed. */
  method ColumnSections(units: seq<Unit>) returns (sections: seq<Section>)
    requires units != []
    ensures fresh(sections) && Shows(sections, Packages(units))
  {
    hide Packages, Place, Closed, Last, Shows;
    sections := [];
    var current := new Section(units[0]);
    FirstUnit(units);
    ShowsNone();
    for i := 1 to |units|
      invariant fresh(sections) && fresh(current) && current !in sections
      invariant Packages(units[..i]) != []
      invariant Shows(sections, Closed(Packages(units[..i])))
      invariant current.View() == Last(Packages(units[..i]))
    {
      NextUnit(units, i);
      PlaceParts(Packages(units[..i]), units[i]);
      ShowsOneMore(sections, current, Packages(units[..i]));
      if units[i].tAge >= current.tAge && units[i].tAge <= current.bAge {
        current.Push(units[i]);
      } else {
        sections := sections + [current];
        current := new Section(units[i]);
      }
    }
    assert units[..|units|] == units;
    ShowsOneMore(sections, current, Packages(units));
    sections := sections + [current];
  }

  /** The packages after one more unit: the last one has taken it in, or is closed and followed by a new one. */
  lemma PlaceParts(ps: seq<Package>, u: Unit)
    requires ps != []
    ensures var next := Place(ps, u);
            if Touches(Last(ps), u) then Closed(next) == Closed(ps) && Last(next) == Extend(Last(ps), u)
            else Closed(next) == ps && Last(next) == NewPackage(u)
  {
  }

  lemma ShowsNone()
    ensures Shows([], [])
  {
  }

  lemma ShowsOneMore(sections: seq<Section>, current: Section, ps: seq<Package>)
    requires ps != [] && Shows(sections, Closed(ps)) && current.View() == Last(ps)
    ensures Shows(sections + [current], ps)
  {
  }

  lemma FirstUnit(units: seq<Unit>)
    requires units != []
    ensures var ps := Packages(units[..1]); ps != [] && Closed(ps) == [] && Last(ps) == NewPackage(units[0])
  {
    assert units[..1] == [units[0]];
  }

  lemma NextUnit(units: seq<Unit>, i: nat)
    requires 0 < i < |units|
    ensures Packages(units[..i + 1]) == Place(Packages(units[..i]), units[i])
  {
    assert units[..i + 1][..i] == units[..i];
  }

  // ---- what a package is ----

  ghost predicate SortedByTop(units: seq<Unit>) {
    forall i, j :: 0 <= i < j < |units| ==> units[i].tAge <= units[j].tAge
  }

  ghost predicate ProperAges(units: seq<Unit>) {
    forall i :: 0 <= i < |units| ==> units[i].tAge <= units[i].bAge
  }

  /** Units as they are read: by ascending top age, each with its base no younger than its top. */
  ghost predicate Ordered(units: seq<Unit>) {
    SortedByTop(units) && ProperAges(units)
  }

  lemma OrderedPrefix(units: seq<Unit>, n: nat)
    requires Ordered(units) && n < |units|
    ensures Ordered(units[..n])
    ensures units[n].tAge <= units[n].bAge && (n > 0 ==> units[n - 1].tAge <= units[n].tAge)
  {
  }

  function Flatten(ps: seq<Package>): seq<Unit> {
    if ps == [] then [] else Flatten(ps[..|ps| - 1]) + ps[|ps| - 1].units
  }

  /** The smallest top age and the greatest base age of a package's units. */
  function MinTop(units: seq<Unit>): real
    requires units != []
  {
    if |units| == 1 then units[0].tAge
    else
      var rest := MinTop(units[..|units| - 1]);
      if units[|units| - 1].tAge < rest then units[|units| - 1].tAge else rest
  }

  function MaxBase(units: seq<Unit>): real
    requires units != []
  {
    if |units| == 1 then units[0].bAge
    else
      var rest := MaxBase(units[..|units| - 1]);
      if units[|units| - 1].bAge > rest then units[|units| - 1].bAge else rest
  }

  lemma {:induction false} MaxBaseIsGreatest(units: seq<Unit>) returns (i: nat)
    requires units != []
    ensures i < |units| && units[i].bAge == MaxBase(units)
    ensures forall j :: 0 <= j < |units| ==> units[j].bAge <= MaxBase(units)
  {
    var n := |units| - 1;
    i := n;
    if n > 0 {
      var before := MaxBaseIsGreatest(units[..n]);
      assert forall j :: 0 <= j < n ==> units[..n][j] == units[j];
      if units[n].bAge <= MaxBase(units[..n]) {
        i := before;
      }
    }
  }

  lemma {:induction false} MinTopIsLeast(units: seq<Unit>) returns (i: nat)
    requires units != []
    ensures i < |units| && units[i].tAge == MinTop(units)
    ensures forall j :: 0 <= j < |units| ==> MinTop(units) <= units[j].tAge
  {
    var n := |units| - 1;
    i := n;
    if n > 0 {
      var before := MinTopIsLeast(units[..n]);
      assert forall j :: 0 <= j < n ==> units[..n][j] == units[j];
      if MinTop(units[..n]) <= units[n].tAge {
        i := before;
      }
    }
  }

  /** A package's running ages are the least top and the greatest base of its units. */
  ghost predicate Tight(p: Package) {
    p.units != [] && p.tAge == MinTop(p.units) && p.bAge == MaxBase(p.units) && p.tAge <= p.bAge
  }

  /** Each package ends strictly before any later one starts. */
  ghost predicate Separated(ps: seq<Package>) {
    forall k, m :: 0 <= k < m < |ps| ==> ps[k].bAge < ps[m].tAge
  }

  lemma ExtendStaysTight(p: Package, u: Unit)
    requires Tight(p) && p.tAge <= u.tAge
    ensures Tight(Extend(p, u))
  {
    assert Extend(p, u).units[..|p.units|] == p.units;
  }

  lemma {:induction false} FlattenPlace(ps: seq<Package>, u: Unit)
    ensures Flatten(Place(ps, u)) == Flatten(ps) + [u]
  {
    if ps != [] && Touches(Last(ps), u) {
      assert Place(ps, u)[..|ps| - 1] == Closed(ps);
    } else {
      assert Place(ps, u)[..|ps|] == ps;
    }
  }

  lemma NewPackageIsTight(u: Unit)
    requires u.tAge <= u.bAge
    ensures Tight(NewPackage(u))
  {
  }

  ghost predicate AllTight(ps: seq<Package>) {
    forall k :: 0 <= k < |ps| ==> Tight(ps[k])
  }

  lemma PlaceStaysTight(ps: seq<Package>, u: Unit)
    requires AllTight(ps) && Separated(ps) && u.tAge <= u.bAge && (ps != [] ==> Last(ps).tAge <= u.tAge)
    ensures AllTight(Place(ps, u)) && Separated(Place(ps, u)) && Last(Place(ps, u)).tAge <= u.tAge
  {
    if ps != [] {
      ExtendStaysTight(Last(ps), u);
    }
    NewPackageIsTight(u);
    hide Tight;
  }

  /** Every unit is kept once and in order; each package spans exactly its units; packages are strictly separated. */
  lemma {:induction false} PackagesAreTight(units: seq<Unit>)
    requires Ordered(units)
    ensures Flatten(Packages(units)) == units
    ensures AllTight(Packages(units)) && Separated(Packages(units))
    ensures units != [] ==> Last(Packages(units)).tAge <= units[|units| - 1].tAge
  {
    if units != [] {
      var n := |units| - 1;
      var init, u := units[..n], units[n];
      assert units == init + [u];
      OrderedPrefix(units, n);
      hide Tight, Place, Flatten, Separated;
      PackagesAreTight(init);
      PlaceKeepsAll(init, u);
    }
  }

  lemma PlaceKeepsAll(units: seq<Unit>, u: Unit)
    requires Ordered(units + [u])
    requires Flatten(Packages(units)) == units && AllTight(Packages(units)) && Separated(Packages(units))
    requires units != [] ==> Last(Packages(units)).tAge <= units[|units| - 1].tAge
    ensures var ps := Place(Packages(units), u);
            Flatten(ps) == units + [u] && AllTight(ps) && Separated(ps) && Last(ps).tAge <= u.tAge
  {
    NoUnitsNoPackages(units);
    assert (units + [u])[|units|] == u && forall i :: 0 <= i < |units| ==> (units + [u])[i] == units[i];
    hide Tight, Place, Flatten, Separated, Packages;
    FlattenPlace(Packages(units), u);
    PlaceStaysTight(Packages(units), u);
  }

  // ---- connected components ----

  /** The number of the package that holds each unit. */
  function Labels(units: seq<Unit>): (ls: seq<nat>)
    ensures |ls| == |units|
  {
    if units == [] then [] else Labels(units[..|units| - 1]) + [|Packages(units)| - 1]
  }

  lemma {:induction false} LabelsOfPrefix(units: seq<Unit>, n: nat)
    requires n <= |units|
    ensures Labels(units[..n]) == Labels(units)[..n]
  {
    if n == |units| {
      assert units[..n] == units;
    } else {
      assert units[..|units| - 1][..n] == units[..n];
      LabelsOfPrefix(units[..|units| - 1], n);
    }
  }

  /** A unit lies within the package of its number. */
  lemma {:induction false} UnitInPackage(units: seq<Unit>, i: nat)
    requires Ordered(units) && i < |units|
    ensures var ps, k := Packages(units), Labels(units)[i];
            k < |ps| && ps[k].tAge <= units[i].tAge && units[i].bAge <= ps[k].bAge
  {
    var n := |units| - 1;
    if i == n {
      LastInPackage(units);
    } else {
      var before := Packages(units[..n]);
      assert Packages(units) == Place(before, units[n]);
      hide Packages, Place, Labels, Ordered;
      OrderedPrefix(units, n);
      UnitInPackage(units[..n], i);
      PlaceGrows(before, units[n]);
      LabelsOfPrefix(units, n);
      assert units[..n][i] == units[i] && Labels(units[..n])[i] == Labels(units)[i];
    }
  }

  lemma LastInPackage(units: seq<Unit>)
    requires Ordered(units) && units != []
    ensures var u, ps := units[|units| - 1], Packages(units);
            && Labels(units)[|units| - 1] == |ps| - 1 >= 0
            && Last(ps).tAge <= u.tAge && u.bAge <= Last(ps).bAge
  {
    LastLabel(units);
    PlaceGrows(Packages(units[..|units| - 1]), units[|units| - 1]);
    hide Place, Ordered;
    PackagesAreTight(units);
  }

  lemma NoUnitsNoPackages(units: seq<Unit>)
    ensures Packages(units) == [] <==> units == []
  {
  }

  lemma LastLabel(units: seq<Unit>)
    requires units != []
    ensures Labels(units)[|units| - 1] == |Packages(units)| - 1
  {
  }

  /** A unit only ever deepens a package, and the last package reaches as deep as it. */
  lemma PlaceGrows(ps: seq<Package>, u: Unit)
    ensures |ps| <= |Place(ps, u)|
    ensures forall k :: 0 <= k < |ps| ==> Place(ps, u)[k].tAge == ps[k].tAge && ps[k].bAge <= Place(ps, u)[k].bAge
    ensures u.bAge <= Last(Place(ps, u)).bAge
  {
  }

  /** Every package's base is that of one of its units. */
  lemma {:induction false} DeepestUnit(units: seq<Unit>, k: nat) returns (m: nat)
    requires k < |Packages(units)|
    ensures m < |units| && Labels(units)[m] == k && units[m].bAge == Packages(units)[k].bAge
  {
    var n := |units| - 1;
    var before, ps := Packages(units[..n]), Packages(units);
    if k < |before| && before[k].bAge == ps[k].bAge {
      m := DeepestUnit(units[..n], k);
    } else {
      m := n;
    }
  }

  predicate Overlap(a: Unit, b: Unit) {
    a.tAge <= b.bAge && b.tAge <= a.bAge
  }

  /** A chain of overlapping units from `i` to `j`. */
  ghost predicate IsChain(units: seq<Unit>, path: seq<nat>, i: nat, j: nat) {
    && path != [] && path[0] == i && path[|path| - 1] == j
    && (forall x :: 0 <= x < |path| ==> path[x] < |units|)
    && forall x :: 0 <= x < |path| - 1 ==> Overlap(units[path[x]], units[path[x + 1]])
  }

  ghost predicate Connected(units: seq<Unit>, i: nat, j: nat) {
    exists path :: IsChain(units, path, i, j)
  }

  lemma ConnectedSelf(units: seq<Unit>, i: nat)
    requires i < |units|
    ensures Connected(units, i, i)
  {
    assert IsChain(units, [i], i, i);
  }

  lemma ConnectedStep(units: seq<Unit>, i: nat, j: nat, k: nat)
    requires Connected(units, i, j) && k < |units| && Overlap(units[j], units[k])
    ensures Connected(units, i, k)
  {
    var path :| IsChain(units, path, i, j);
    assert IsChain(units, path + [k], i, k);
  }

  lemma {:induction false} ConnectedTransitive(units: seq<Unit>, path: seq<nat>, i: nat, j: nat, k: nat)
    requires Connected(units, i, j) && IsChain(units, path, j, k)
    ensures Connected(units, i, k)
    decreases |path|
  {
    if |path| > 1 {
      var init := path[..|path| - 1];
      assert IsChain(units, init, j, init[|init| - 1]);
      ConnectedTransitive(units, init, i, j, init[|init| - 1]);
      ConnectedStep(units, i, init[|init| - 1], k);
    }
  }

  lemma {:induction false} ConnectedSymmetric(units: seq<Unit>, path: seq<nat>, i: nat, j: nat)
    requires IsChain(units, path, i, j)
    ensures Connected(units, j, i)
    decreases |path|
  {
    if |path| == 1 {
      ConnectedSelf(units, i);
    } else {
      var init := path[..|path| - 1];
      var last := init[|init| - 1];
      assert IsChain(units, init, i, last);
      ConnectedSymmetric(units, init, i, last);
      assert IsChain(units, [j, last], j, last);
      var back :| IsChain(units, back, last, i);
      ConnectedTransitive(units, back, j, last, i);
    }
  }

  /** A unit that is not alone so far in its package overlaps an earlier unit of it. */
  lemma {:induction false} JoinsEarlierUnit(units: seq<Unit>, i: nat) returns (m: nat)
    requires Ordered(units)
    requires 0 < i < |units| && Labels(units)[i] == Labels(units)[i - 1]
    ensures m < i && Labels(units)[m] == Labels(units)[i] && Overlap(units[m], units[i])
  {
    hide Packages, Place, Labels, Ordered, Overlap, Touches;
    var before := units[..i];
    LabelIsCount(units, i - 1);
    LabelIsCount(units, i);
    NextUnit(units, i);
    SameCountTouches(Packages(before), units[i]);
    m := DeepestUnit(before, |Packages(before)| - 1);
    LabelsOfPrefix(units, i);
    LaterTouches(units, m, i, Last(Packages(before)));
  }

  lemma LaterTouches(units: seq<Unit>, m: nat, i: nat, p: Package)
    requires Ordered(units) && m < i < |units| && Touches(p, units[i]) && p.bAge == units[m].bAge
    ensures Overlap(units[m], units[i])
  {
  }

  /** A unit's number is that of the last package when the unit was placed. */
  lemma LabelIsCount(units: seq<Unit>, i: nat)
    requires i < |units|
    ensures Labels(units)[i] == |Packages(units[..i + 1])| - 1
  {
    LabelsOfPrefix(units, i + 1);
    LastLabel(units[..i + 1]);
  }

  lemma SameCountTouches(ps: seq<Package>, u: Unit)
    requires ps != [] && |Place(ps, u)| == |ps|
    ensures Touches(Last(ps), u)
  {
  }

  /** Labels start at zero, never fall, and rise one at a time. */
  lemma {:induction false} LabelsRise(units: seq<Unit>, i: nat)
    requires 0 < i < |units|
    ensures Labels(units)[i - 1] <= Labels(units)[i] <= Labels(units)[i - 1] + 1
  {
    assert units[..i + 1][..i] == units[..i];
    LabelsOfPrefix(units, i + 1);
    LabelsOfPrefix(units, i);
    LastLabel(units[..i]);
    LastLabel(units[..i + 1]);
  }

  lemma {:induction false} LabelsMonotone(units: seq<Unit>, i: nat, j: nat)
    requires i <= j < |units|
    ensures Labels(units)[i] <= Labels(units)[j]
    decreases j - i
  {
    if i < j {
      LabelsRise(units, j);
      LabelsMonotone(units, i, j - 1);
    }
  }

  /** Units of one package are connected to each other. */
  lemma {:induction false} SamePackageConnected(units: seq<Unit>, i: nat, j: nat)
    requires Ordered(units)
    requires i <= j < |units| && Labels(units)[i] == Labels(units)[j]
    ensures Connected(units, i, j)
    decreases j
  {
    if i == j {
      ConnectedSelf(units, i);
    } else {
      LabelsMonotone(units, i, j - 1);
      LabelsRise(units, j);
      var m := JoinsEarlierUnit(units, j);
      if i <= m {
        SamePackageConnected(units, i, m);
      } else {
        SamePackageConnected(units, m, i);
        var path :| IsChain(units, path, m, i);
        ConnectedSymmetric(units, path, m, i);
      }
      ConnectedStep(units, i, m, j);
    }
  }

  /** Units of different packages do not overlap. */
  lemma {:induction false} DifferentPackagesApart(units: seq<Unit>, i: nat, j: nat)
    requires Ordered(units)
    requires i < |units| && j < |units| && Labels(units)[i] != Labels(units)[j]
    ensures !Overlap(units[i], units[j])
  {
    hide Packages, Labels, Ordered, Flatten, Separated, Overlap;
    PackagesAreTight(units);
    UnitInPackage(units, i);
    UnitInPackage(units, j);
    var k, m := Labels(units)[i], Labels(units)[j];
    if k < m {
      SeparatedUnits(Packages(units), k, m, units[i], units[j]);
    } else {
      SeparatedUnits(Packages(units), m, k, units[j], units[i]);
    }
  }

  lemma SeparatedUnits(ps: seq<Package>, k: nat, m: nat, u: Unit, v: Unit)
    requires Separated(ps) && k < m < |ps| && u.bAge <= ps[k].bAge && ps[m].tAge <= v.tAge
    ensures !Overlap(u, v) && !Overlap(v, u)
  {
  }

  lemma {:induction false} ChainStaysInPackage(units: seq<Unit>, path: seq<nat>, i: nat, j: nat)
    requires Ordered(units) && IsChain(units, path, i, j)
    ensures Labels(units)[i] == Labels(units)[j]
    decreases |path|
  {
    if |path| > 1 {
      var init := path[..|path| - 1];
      var last := init[|init| - 1];
      assert IsChain(units, init, i, last);
      ChainStaysInPackage(units, init, i, last);
      assert Overlap(units[path[|path| - 2]], units[path[|path| - 1]]);
      if Labels(units)[last] != Labels(units)[j] {
        DifferentPackagesApart(units, last, j);
      }
    }
  }

  /** Packages are the connected components: two units share one exactly when a chain of overlapping units joins
      them. */
  lemma {:induction false} PackagesAreComponents(units: seq<Unit>, i: nat, j: nat)
    requires Ordered(units) && i < |units| && j < |units|
    ensures Labels(units)[i] == Labels(units)[j] <==> Connected(units, i, j)
  {
    if Labels(units)[i] == Labels(units)[j] {
      if i <= j {
        SamePackageConnected(units, i, j);
      } else {
        SamePackageConnected(units, j, i);
        var path :| IsChain(units, path, j, i);
        ConnectedSymmetric(units, path, j, i);
      }
    }
    if Connected(units, i, j) {
      var path :| IsChain(units, path, i, j);
      ChainStaysInPackage(units, path, i, j);
    }
  }

  /** The units of a package are the units numbered with it. */
  function UnitsLabelled(units: seq<Unit>, ls: seq<nat>, k: nat): seq<Unit>
    requires |ls| == |units|
  {
    if units == [] then []
    else
      var n := |units| - 1;
      UnitsLabelled(units[..n], ls[..n], k) + if ls[n] == k then [units[n]] else []
  }

  lemma {:induction false} PackageHoldsItsUnits(units: seq<Unit>, k: nat)
    requires k < |Packages(units)|
    ensures Packages(units)[k].units == UnitsLabelled(units, Labels(units), k)
  {
    var n := |units| - 1;
    var before := Packages(units[..n]);
    assert Labels(units)[..n] == Labels(units[..n]);
    if k < |before| {
      PackageHoldsItsUnits(units[..n], k);
    } else {
      NoneLabelled(units[..n], k);
    }
  }

  lemma {:induction false} NoneLabelled(units: seq<Unit>, k: nat)
    requires k >= |Packages(units)|
    ensures UnitsLabelled(units, Labels(units), k) == []
  {
    if units != [] {
      var n := |units| - 1;
      assert Labels(units)[..n] == Labels(units[..n]);
      NoneLabelled(units[..n], k);
    }
  }
}
