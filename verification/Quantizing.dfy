/** Comparing values at the precision the database stores. */
module Quantizing {
  import opened Wrappers
  import opened Occurrences
  import opened Rows
  import opened Planning
  import opened Tables
  import opened Reconciling
  import opened ReconciliationLaws

  function PowerOfTen(n: nat): (p: int)
    ensures p > 0
  {
    if n == 0 then 1 else 10 * PowerOfTen(n - 1)
  }

  /** The nearest multiple of 10^-scale; halves go up. */
  function RoundTo(x: real, scale: nat): real {
    RoundAt(x, PowerOfTen(scale) as real)
  }

  function RoundAt(x: real, p: real): real
    requires p > 0.0
  {
    Unscale(Nearest(Scale(x, p)) as real, p)
  }

  function Scale(x: real, p: real): real {
    x * p
  }

  function Nearest(t: real): int {
    (t + 0.5).Floor
  }

  function Unscale(k: real, p: real): (y: real)
    requires p > 0.0
    ensures y * p == k
  {
    k / p
  }

  /** Values of the columns that have a scale are rounded to it; nulls and other columns are left alone. */
  function Quantizer(scales: map<Column, nat>): (Column, Value) -> Value {
    (c: Column, v: Value) => if v.Number? && c in scales then Number(RoundTo(v.n, scales[c])) else v
  }

  /** With `p` units to one, `y` is a whole number of units, and at most half a unit from `x`. */
  predicate NearestMultiple(y: real, x: real, p: real) {
    y * p == (y * p).Floor as real && -0.5 <= (y - x) * p <= 0.5
  }

  lemma RoundAtNearest(x: real, p: real)
    requires p > 0.0
    ensures NearestMultiple(RoundAt(x, p), x, p)
    ensures RoundAt(RoundAt(x, p), p) == RoundAt(x, p)
  {
    var y := RoundAt(x, p);
    var k := Nearest(Scale(x, p));
    assert y * p == k as real && (k as real).Floor == k;
    Distribute(y, x, p);
    UnscaleThenScale(Nearest(Scale(x, p)), p);
  }

  /** A whole number of units is read back as itself. */
  lemma UnscaleThenScale(k: int, p: real)
    requires p > 0.0
    ensures Scale(Unscale(k as real, p), p) == k as real
    ensures Nearest(k as real) == k
  {
  }

  lemma Distribute(y: real, x: real, p: real)
    ensures (y - x) * p == y * p - x * p
  {
  }

  /** Rounding gives a whole number of units of the last place, moves a value by at most half a unit, and a rounded
      value not at all. */
  lemma {:induction false} RoundToNearest(x: real, scale: nat)
    ensures NearestMultiple(RoundTo(x, scale), x, PowerOfTen(scale) as real)
    ensures RoundTo(RoundTo(x, scale), scale) == RoundTo(x, scale)
  {
    hide RoundAt, PowerOfTen, NearestMultiple;
    RoundAtNearest(x, PowerOfTen(scale) as real);
  }

  /** One more place divides the unit by ten. */
  lemma {:induction false} PowersAdd(a: nat, b: nat)
    ensures PowerOfTen(0) == 1 && PowerOfTen(1) == 10
    ensures PowerOfTen(a + b) == PowerOfTen(a) * PowerOfTen(b)
  {
    if a > 0 {
      PowersAdd(a - 1, b);
    }
  }

  /** A number of a column with a scale becomes the nearest one of that many places. Nothing else changes. */
  lemma {:induction false} QuantizerExact(scales: map<Column, nat>, c: Column, v: Value)
    ensures c !in scales || !v.Number? ==> Quantizer(scales)(c, v) == v
    ensures c in scales && v.Number? ==>
              var q := Quantizer(scales)(c, v);
              q.Number? && NearestMultiple(q.n, v.n, PowerOfTen(scales[c]) as real)
  {
    if c in scales && v.Number? {
      RoundToNearest(v.n, scales[c]);
      hide RoundTo;
    }
  }

  /** A database that rounds each column to the scale it is compared at keeps every row as it is compared. */
  lemma {:induction false} SameScalesSurvive(scales: map<Column, nat>, spec: Spec, storage: Storage)
    requires forall c, v :: spec.quantize(c, v) == Quantizer(scales)(c, v)
    requires forall c, v :: storage.round(c, v) == Quantizer(scales)(c, v)
    ensures Quantized(spec, storage)
    ensures forall row :: Survives(row, spec, storage)
  {
    forall c, v ensures Quantizer(scales)(c, Quantizer(scales)(c, v)) == Quantizer(scales)(c, v) {
      if v.Number? && c in scales {
        RoundToNearest(v.n, scales[c]);
      }
    }
  }

  /** With such a database the second run is a no-op, whatever the first one found and wrote. */
  lemma {:induction false} SameScalesSettle(scales: map<Column, nat>, db: Db, existing: seq<Stored>, desired: seq<Row>,
                                            spec: Spec, storage: Storage, scope: Row -> bool, again: seq<Stored>)
    requires forall c, v :: spec.quantize(c, v) == Quantizer(scales)(c, v)
    requires forall c, v :: storage.round(c, v) == Quantizer(scales)(c, v)
    requires SequenceAhead(db) && Scan(existing, db.rows, scope) && Settled(desired, spec, storage, scope)
    requires Scan(again, Reconciled(db, existing, desired, spec, storage).rows, scope)
    ensures PlanOf(again, desired, spec).IsNoop()
  {
    SameScalesSurvive(scales, spec, storage);
    hide Scan, Settled, Reconciled, PlanOf, Quantized, Survives, Quantizer;
    SecondRunIsNoop(db, existing, desired, spec, storage, scope, again);
  }

  // ---- a run that writes twice ----

  /** Proportions compared as whole numbers. */
  function WholeSpec(): Spec {
    Spec(KeyColumns(["unit"]), ["prop"], Quantizer(map["prop" := 0]))
  }

  /** Proportions kept to one place. */
  function TenthsStorage(): Storage {
    Storage(Quantizer(map["prop" := 1]), map[])
  }

  function UnitRow(prop: real): Row {
    map["unit" := Text("a"), "prop" := Number(prop)]
  }

  predicate Everything(row: Row) { true }

  lemma RoundedParts()
    ensures RoundTo(0.46, 1) == 0.5 && RoundTo(0.5, 0) == 1.0 && RoundTo(0.46, 0) == 0.0
    ensures forall x :: RoundTo(RoundTo(x, 0), 1) == RoundTo(x, 0)
  {
    assert PowerOfTen(0) == 1 && PowerOfTen(1) == 10;
    forall x ensures RoundTo(RoundTo(x, 0), 1) == RoundTo(x, 0) {
      var k := (x + 0.5).Floor;
      assert RoundTo(x, 0) == k as real;
      assert (k as real * 10.0 + 0.5).Floor == 10 * k;
      assert RoundTo(k as real, 1) == (10 * k) as real / 10.0 == k as real;
    }
  }

  lemma FinerStorageIsQuantized()
    ensures Quantized(WholeSpec(), TenthsStorage())
    ensures NewRow(UnitRow(0.46), TenthsStorage()) == UnitRow(0.5)
    ensures !Survives(UnitRow(0.46), WholeSpec(), TenthsStorage())
  {
    RoundedParts();
    var q, round := Quantizer(map["prop" := 0]), Quantizer(map["prop" := 1]);
    forall c, v ensures q(c, q(c, v)) == q(c, v) && round(c, q(c, v)) == q(c, v) {
      if v.Number? && c == "prop" {
        RoundToNearest(v.n, 0);
      }
    }
    hide RoundTo;
    assert q("prop", round("prop", Number(0.46))) == Number(1.0) && q("prop", Number(0.46)) == Number(0.0);
    assert WholeSpec().owned[0] == "prop";
  }

  lemma UnitKeySettles()
    ensures Settled([UnitRow(0.46)], WholeSpec(), TenthsStorage(), Everything)
  {
    FinerStorageIsQuantized();
    hide Quantized, Survives, NewRow, KeyColumns, Quantizer;
    var key := WholeSpec().key;
    SameUnitSameKey(UnitRow(0.46), UnitRow(0.5));
    forall row: Row, values: Row {:trigger row + values} | values.Keys == (set c | c in ["prop"])
      ensures key(row + values) == key(row)
    {
      SameUnitSameKey(row + values, row);
    }
  }

  lemma SameUnitSameKey(a: Row, b: Row)
    requires Get(a, "unit") == Get(b, "unit")
    ensures WholeSpec().key(a) == WholeSpec().key(b)
  {
    var parts := (row: Row) => seq(1, i requires 0 <= i < 1 => Get(row, ["unit"][i]));
    assert parts(a) == parts(b);
  }

  /** A database that keeps more places than are compared can make the second run write: 0.46 is inserted as 0.5,
      which is compared as 1 with the 0 that is desired. */
  lemma {:induction false} FinerStorageNeedsThirdRun()
    ensures var db, desired, again := Db(map[], 1), [UnitRow(0.46)], [Stored(1, UnitRow(0.5))];
            && SequenceAhead(db) && Scan([], db.rows, Everything)
            && Settled(desired, WholeSpec(), TenthsStorage(), Everything) && Quantized(WholeSpec(), TenthsStorage())
            && Scan(again, Reconciled(db, [], desired, WholeSpec(), TenthsStorage()).rows, Everything)
            && PlanOf(again, desired, WholeSpec()).updates != []
  {
    var db, desired, again := Db(map[], 1), [UnitRow(0.46)], [Stored(1, UnitRow(0.5))];
    FinerStorageIsQuantized();
    UnitKeySettles();
    hide WholeSpec, TenthsStorage, UnitRow, Settled, Quantized, Survives, NewRow, Reconciled, PlanOf, IdsOf;
    FirstRunInserts(db, desired, WholeSpec(), TenthsStorage());
    ScanOne(UnitRow(0.5));
    assert Scan([], db.rows, Everything);
    NoPartner(desired, WholeSpec());
    hide Scan, Partner;
    SecondRunIsNoop(db, [], desired, WholeSpec(), TenthsStorage(), Everything, again);
    PlanningAgainKeepsIds(db, [], desired, WholeSpec(), TenthsStorage(), Everything, again);
  }

  lemma ScanOne(row: Row)
    ensures Scan([Stored(1, row)], map[1 := row], Everything)
  {
    assert Ids([Stored(1, row)]) == [1];
  }

  lemma NoPartner(desired: seq<Row>, spec: Spec)
    requires |desired| == 1
    ensures Partner([], desired, spec.key, 0).None?
  {
  }

  /** One row, inserted into a table that holds none. */
  lemma FirstRunInserts(db: Db, desired: seq<Row>, spec: Spec, storage: Storage)
    requires db == Db(map[], 1) && |desired| == 1
    ensures Reconciled(db, [], desired, spec, storage).rows == map[1 := NewRow(desired[0], storage)]
  {
    hide Reconciled, IdsOf, NewRow, PlanOf, Partner, Missing;
    var after := Reconciled(db, [], desired, spec, storage);
    var ids := IdsOf(db, [], desired, spec);
    NoPartner(desired, spec);
    OnlyOneMissing(desired, spec);
    ReturnedIdKind(db, [], desired, spec, 0);
    DesiredRowIsStored(db, [], desired, spec, storage, 0);
    forall id ensures id in after.rows <==> id == 1 {
      RestIsUntouched(db, [], desired, spec, storage, id);
      assert id in ids <==> ids[0] == id;
    }
  }

  lemma OnlyOneMissing(desired: seq<Row>, spec: Spec)
    requires |desired| == 1
    ensures |Missing(PlanOf([], desired, spec).matched)| <= 1
  {
    PlanShape([], desired, spec);
    CountBounded(PlanOf([], desired, spec).matched, None);
  }

  lemma {:induction false} CountBounded(ids: seq<Option<Id>>, id: Option<Id>)
    ensures Count(ids, id) <= |ids|
  {
    if ids != [] {
      CountBounded(ids[..|ids| - 1], id);
    }
  }
}
