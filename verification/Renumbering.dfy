/** Sorting ids, and counting the smaller ones. */
module Ranking {
  import opened Occurrences

  /** How many ids are smaller. */
  function CountBelow(ids: set<int>, v: int): nat {
    |set u | u in ids && u < v|
  }

  function Insert(sorted: seq<int>, v: int): (s: seq<int>)
    requires Ascending(sorted) && v !in sorted
    ensures Ascending(s) && forall u :: u in s <==> u == v || u in sorted
  {
    if sorted == [] || v < sorted[0] then
      assert forall u :: u in [v] + sorted <==> u == v || u in sorted;
      [v] + sorted
    else
      var rest := Insert(sorted[1..], v);
      assert sorted == [sorted[0]] + sorted[1..];
      assert sorted[0] in sorted && forall i :: 0 <= i < |rest| ==> rest[i] in rest;
      [sorted[0]] + rest
  }

  /** A sorted id has as many smaller ones as there are before it. */
  lemma BelowIsPlace(sorted: seq<int>, i: nat)
    requires Ascending(sorted) && i < |sorted|
    ensures CountBelow(Elements(sorted), sorted[i]) == i
  {
    AscendingSize(sorted[..i]);
    assert (set u | u in Elements(sorted) && u < sorted[i]) == Elements(sorted[..i]);
  }
}

/** Provisional ids for a payload of columns, units and boundaries that is not in the database yet. */
module Renumbering {
  import opened Occurrences
  import opened Wrappers
  import opened Ranking

  datatype Kind = Columns | Units | Sections | Boundaries
  datatype Field = ColId | UnitId | SectionId | BoundaryId | UnitBelow | UnitAbove

  /** The id fields of one record. */
  type Fields = map<Field, Option<int>>

  datatype Payload = Payload(columns: seq<Fields>, units: seq<Fields>, boundaries: seq<Fields>)

  function KindOf(f: Field): Kind {
    match f
    case ColId => Columns
    case UnitId | UnitBelow | UnitAbove => Units
    case SectionId => Sections
    case BoundaryId => Boundaries
  }

  const COLUMN_FIELDS: seq<Field> := [ColId]
  const UNIT_FIELDS: seq<Field> := [UnitId, ColId, SectionId]
  const BOUNDARY_FIELDS: seq<Field> := [BoundaryId, ColId, SectionId, UnitBelow, UnitAbove]

  ghost predicate Have(rs: seq<Fields>, keys: seq<Field>) {
    forall i :: 0 <= i < |rs| ==> rs[i].Keys == KeySet(keys)
  }

  function KeySet(keys: seq<Field>): set<Field> {
    set f | f in keys
  }

  ghost predicate Shaped(p: Payload) {
    Have(p.columns, COLUMN_FIELDS) && Have(p.units, UNIT_FIELDS) && Have(p.boundaries, BOUNDARY_FIELDS)
  }

  function Column(records: seq<Fields>, f: Field): seq<Option<int>> {
    seq(|records|, i requires 0 <= i < |records| => if f in records[i] then records[i][f] else None)
  }

  /** The fields that ids of a kind are collected from. */
  function Collected(p: Payload, kind: Kind): seq<Option<int>> {
    match kind
    case Columns => Column(p.columns, ColId)
    case Units => Column(p.units, UnitId)
    case Sections => Column(p.units, SectionId) + Column(p.boundaries, SectionId)
    case Boundaries => Column(p.boundaries, BoundaryId)
  }

  function Ids(values: seq<Option<int>>): set<int> {
    set i | 0 <= i < |values| && values[i].Some? && values[i].value != 0 :: values[i].value
  }

  /** `sorted` of the ids that are given. */
  function Sorted(values: seq<Option<int>>): (sorted: seq<int>)
    ensures Ascending(sorted) && forall v :: v in sorted <==> v in Ids(values)
  {
    if values == [] then []
    else
      var n := |values| - 1;
      var sorted := Sorted(values[..n]);
      IdsOfOneMore(values);
      if values[n].None? || values[n].value == 0 || values[n].value in sorted then sorted
      else Insert(sorted, values[n].value)
  }

  lemma IdsOfOneMore(values: seq<Option<int>>)
    requires values != []
    ensures var n := |values| - 1;
            Ids(values) == Ids(values[..n]) + if values[n].None? || values[n].value == 0 then {} else {values[n].value}
  {
  }

  /** The least id becomes -1, the next -2, and so on. */
  function Numbering(ids: set<int>): map<int, int> {
    map v | v in ids :: -(1 + CountBelow(ids, v))
  }

  function TableOf(p: Payload, kind: Kind): map<int, int> {
    Numbering(Ids(Collected(p, kind)))
  }

  function Moved(table: map<int, int>, v: Option<int>): Option<int> {
    if v.Some? && v.value in table then Some(table[v.value]) else v
  }

  function MovedRecord(p: Payload, r: Fields): Fields {
    map f | f in r :: Moved(TableOf(p, KindOf(f)), r[f])
  }

  function MovedRecords(p: Payload, rs: seq<Fields>): seq<Fields> {
    seq(|rs|, i requires 0 <= i < |rs| => MovedRecord(p, rs[i]))
  }

  function Renumbered(p: Payload): Payload {
    Payload(MovedRecords(p, p.columns), MovedRecords(p, p.units), MovedRecords(p, p.boundaries))
  }

  // ---- the numbering ----

  lemma SortedElements(values: seq<Option<int>>)
    ensures Elements(Sorted(values)) == Ids(values) == Numbering(Ids(values)).Keys
    ensures |Sorted(values)| == |Ids(values)| == |Numbering(Ids(values))|
  {
    AscendingSize(Sorted(values));
    assert Elements(Sorted(values)) == Ids(values);
    hide Ids, CountBelow, Sorted, Elements;
    assert Numbering(Ids(values)).Keys == Ids(values);
    assert |Numbering(Ids(values)).Keys| == |Numbering(Ids(values))|;
  }

  lemma NumberOfPlace(values: seq<Option<int>>, i: nat)
    requires i < |Sorted(values)|
    ensures Sorted(values)[i] in Ids(values) && CountBelow(Ids(values), Sorted(values)[i]) == i
    ensures Numbering(Ids(values))[Sorted(values)[i]] == -(1 + i)
  {
    hide CountBelow, Ids, Elements;
    SortedElements(values);
    BelowIsPlace(Sorted(values), i);
    assert Sorted(values)[i] in Sorted(values);
  }

  /** The place of an id among the sorted ones. */
  lemma PlaceOf(values: seq<Option<int>>, v: int) returns (i: nat)
    requires v in Ids(values)
    ensures i < |Sorted(values)| && Sorted(values)[i] == v && Numbering(Ids(values))[v] == -(1 + i)
  {
    hide CountBelow;
    assert v in Sorted(values);
    i :| i < |Sorted(values)| && Sorted(values)[i] == v;
    NumberOfPlace(values, i);
  }

  /** The ids of a kind become exactly -1 to -n, the greater the id the lesser its number. */
  lemma {:induction false} NumberingIsOnto(values: seq<Option<int>>)
    ensures var ids, table := Ids(values), Numbering(Ids(values));
            && (forall n :: n in table.Values <==> -|ids| <= n <= -1)
            && (forall v :: v in ids ==> -|ids| <= table[v] <= -1)
            && (forall u, v :: u in ids && v in ids && u < v ==> table[v] < table[u])
  {
    hide Ids, Numbering, Sorted, Elements, CountBelow, Ascending;
    var ids, table := Ids(values), Numbering(Ids(values));
    SortedElements(values);
    forall v | v in ids ensures -|ids| <= table[v] <= -1 {
      var i := PlaceOf(values, v);
    }
    forall n | -|ids| <= n <= -1 ensures n in table.Values {
      var u := NumberIsTaken(values, n);
    }
    forall u, v | u in ids && v in ids && u < v ensures table[v] < table[u] {
      LesserIdGreaterNumber(values, u, v);
    }
  }

  lemma LesserIdGreaterNumber(values: seq<Option<int>>, u: int, v: int)
    requires u in Ids(values) && v in Ids(values) && u < v
    ensures Numbering(Ids(values))[v] < Numbering(Ids(values))[u]
  {
    hide Ids, Numbering, CountBelow, Elements, Sorted;
    SortedElements(values);
    var i := PlaceOf(values, u);
    var j := PlaceOf(values, v);
  }

  lemma NumberIsTaken(values: seq<Option<int>>, n: int) returns (u: int)
    requires -|Ids(values)| <= n <= -1
    ensures u in Ids(values) && Numbering(Ids(values))[u] == n
  {
    hide Ids, Numbering, Sorted, Elements, CountBelow, Ascending;
    SortedElements(values);
    var i: nat := -1 - n;
    u := Sorted(values)[i];
    NumberOfPlace(values, i);
  }

  // ---- references ----

  /** A field of some record. */
  ghost predicate Holds(p: Payload, f: Field, v: Option<int>) {
    HoldsIn(p.columns, f, v) || HoldsIn(p.units, f, v) || HoldsIn(p.boundaries, f, v)
  }

  ghost predicate HoldsIn(rs: seq<Fields>, f: Field, v: Option<int>) {
    exists i :: 0 <= i < |rs| && f in rs[i] && rs[i][f] == v
  }

  /** Fields of one kind hold equal values after renumbering exactly when they did before. */
  ghost predicate KeepsReferences(p: Payload, kind: Kind) {
    forall f, g, v, w :: KindOf(f) == kind && KindOf(g) == kind && Holds(p, f, v) && Holds(p, g, w) ==>
      (Moved(TableOf(p, kind), v) == Moved(TableOf(p, kind), w) <==> v == w)
  }

  /** No field of the kind refers to a record outside the payload by a number that is handed out. */
  ghost predicate NoStrays(p: Payload, kind: Kind) {
    forall f, v :: KindOf(f) == kind && Holds(p, f, Some(v)) && v !in TableOf(p, kind) ==>
      !(-|TableOf(p, kind)| <= v <= -1)
  }

  lemma CollectedIsHeld(p: Payload, kind: Kind, v: int) returns (f: Field)
    requires v in TableOf(p, kind)
    ensures KindOf(f) == kind && Holds(p, f, Some(v))
  {
    hide HoldsIn, Ids, Column;
    match kind
    case Columns =>
      f := ColId;
      HeldInColumn(p.columns, ColId, v);
    case Units =>
      f := UnitId;
      HeldInColumn(p.units, UnitId, v);
    case Sections =>
      f := SectionId;
      HeldInColumns(p.units, p.boundaries, SectionId, v);
    case Boundaries =>
      f := BoundaryId;
      HeldInColumn(p.boundaries, BoundaryId, v);
  }

  lemma HeldInColumn(rs: seq<Fields>, f: Field, v: int)
    requires v in Ids(Column(rs, f))
    ensures HoldsIn(rs, f, Some(v))
  {
    var i :| 0 <= i < |rs| && Column(rs, f)[i] == Some(v);
    assert f in rs[i] && rs[i][f] == Some(v);
  }

  lemma HeldInColumns(rs: seq<Fields>, more: seq<Fields>, f: Field, v: int)
    requires v in Ids(Column(rs, f) + Column(more, f))
    ensures HoldsIn(rs, f, Some(v)) || HoldsIn(more, f, Some(v))
  {
    var all := Column(rs, f) + Column(more, f);
    var i :| 0 <= i < |all| && all[i] == Some(v) && v != 0;
    if i < |rs| {
      assert Column(rs, f)[i] == Some(v);
      HeldInColumn(rs, f, v);
    } else {
      assert Column(more, f)[i - |rs|] == Some(v);
      HeldInColumn(more, f, v);
    }
  }

  /** Renumbering keeps who refers to whom exactly when no outside reference looks like a new number. */
  lemma KeepsReferencesExactly(p: Payload, kind: Kind)
    ensures KeepsReferences(p, kind) <==> NoStrays(p, kind)
  {
    hide Holds, TableOf;
    if NoStrays(p, kind) {
      NoStraysKeep(p, kind);
    } else {
      var table := TableOf(p, kind);
      var f, v :| KindOf(f) == kind && Holds(p, f, Some(v)) && v !in table && -|table| <= v <= -1;
      StrayIsMistaken(p, kind, f, v);
    }
  }

  lemma NoStraysKeep(p: Payload, kind: Kind)
    requires NoStrays(p, kind)
    ensures KeepsReferences(p, kind)
  {
    var table := TableOf(p, kind);
    var ids := Ids(Collected(p, kind));
    NumberingIsOnto(Collected(p, kind));
    assert |table| == |ids| by {
      assert table.Keys == ids;
    }
    hide Holds, Numbering, Collected, Ids;
    forall f, g, v, w | KindOf(f) == kind && KindOf(g) == kind && Holds(p, f, v) && Holds(p, g, w)
      ensures Moved(table, v) == Moved(table, w) <==> v == w
    {
      MovedApart(table, v, w);
    }
  }

  lemma StrayIsMistaken(p: Payload, kind: Kind, f: Field, v: int)
    requires KindOf(f) == kind && Holds(p, f, Some(v))
    requires v !in TableOf(p, kind) && -|TableOf(p, kind)| <= v <= -1
    ensures !KeepsReferences(p, kind)
  {
    hide Holds, Collected, Ids;
    var table := TableOf(p, kind);
    SortedElements(Collected(p, kind));
    var u := NumberIsTaken(Collected(p, kind), v);
    hide Numbering, TableOf;
    var g := CollectedIsHeld(p, kind, u);
    assert Moved(table, Some(u)) == Moved(table, Some(v));
  }

  lemma MovedApart(table: map<int, int>, v: Option<int>, w: Option<int>)
    requires forall a, b :: a in table && b in table && a < b ==> table[b] < table[a]
    requires forall a :: a in table ==> -|table| <= table[a] <= -1
    requires v.Some? && v.value !in table ==> !(-|table| <= v.value <= -1)
    requires w.Some? && w.value !in table ==> !(-|table| <= w.value <= -1)
    ensures Moved(table, v) == Moved(table, w) <==> v == w
  {
    if v.Some? && w.Some? && v.value in table && w.value in table {
      var a, b := v.value, w.value;
      assert a < b ==> table[b] < table[a];
      assert b < a ==> table[a] < table[b];
    }
  }

  /** Ids from the database are positive, so their references are kept; 0 and a missing id stay. */
  lemma DatabaseIdsKeepReferences(p: Payload, kind: Kind)
    requires forall f, v :: Holds(p, f, Some(v)) ==> v >= 0
    ensures KeepsReferences(p, kind)
    ensures Moved(TableOf(p, kind), Some(0)) == Some(0) && Moved(TableOf(p, kind), None) == None
  {
    KeepsReferencesExactly(p, kind);
  }

  // ---- renumbering in place ----

  class Record {
    var fields: Fields

    constructor (fields: Fields)
      ensures this.fields == fields
    {
      this.fields := fields;
    }

    /** A field that is missing, empty or not in the table is left as it is. */
    method Remap(table: map<int, int>, key: Field)
      modifies this
      ensures fields == if key in old(fields) then old(fields)[key := Moved(table, old(fields)[key])] else old(fields)
    {
      if key in fields && fields[key].Some? && fields[key].value in table {
        fields := fields[key := Some(table[fields[key].value])];
      }
    }
  }

  /** The ids are sorted, and numbered from the least. */
  method Mapping(values: seq<Option<int>>) returns (table: map<int, int>)
    ensures table == Numbering(Ids(values))
  {
    hide Ids, Numbering, Sorted, Elements, Ascending;
    var ids := Sorted(values);
    SortedElements(values);
    table := map[];
    NoNumbers(Ids(values));
    for index := 0 to |ids|
      invariant table == NumbersOf(ids[..index], Ids(values))
    {
      hide NumbersOf;
      NumberOfPlace(values, index);
      NextNumber(ids[..index], ids[index], Ids(values));
      assert ids[..index + 1] == ids[..index] + [ids[index]];
      table := table[ids[index] := -(index + 1)];
    }
    assert ids[..|ids|] == ids;
    AllNumbers(values);
  }

  /** The numbers of some of the ids. */
  ghost function NumbersOf(some: seq<int>, ids: set<int>): map<int, int> {
    map v | v in some :: -(1 + CountBelow(ids, v))
  }

  lemma NoNumbers(ids: set<int>)
    ensures NumbersOf([], ids) == map[]
  {
  }

  lemma NextNumber(some: seq<int>, v: int, ids: set<int>)
    ensures NumbersOf(some + [v], ids) == NumbersOf(some, ids)[v := -(1 + CountBelow(ids, v))]
  {
    hide CountBelow;
    assert forall u :: u in some + [v] <==> u in some || u == v;
  }

  lemma AllNumbers(values: seq<Option<int>>)
    ensures NumbersOf(Sorted(values), Ids(values)) == Numbering(Ids(values))
  {
    hide CountBelow;
  }

  datatype Numberings = Numberings(
    columns: map<int, int>, units: map<int, int>, sections: map<int, int>, boundaries: map<int, int>)
  {
    function Of(kind: Kind): map<int, int> {
      match kind
      case Columns => columns
      case Units => units
      case Sections => sections
      case Boundaries => boundaries
    }
  }

  function MovedFields(tables: Numberings, r: Fields, keys: set<Field>): Fields {
    map f | f in r :: if f in keys then Moved(tables.Of(KindOf(f)), r[f]) else r[f]
  }

  predicate Different(keys: seq<Field>) {
    forall k, l :: 0 <= k < l < |keys| ==> keys[k] != keys[l]
  }

  method RemapRecord(tables: Numberings, record: Record, keys: seq<Field>)
    requires KeySet(keys) <= record.fields.Keys && Different(keys)
    modifies record
    ensures record.fields == MovedFields(tables, old(record.fields), KeySet(keys))
  {
    ghost var start := record.fields;
    for k := 0 to |keys|
      invariant record.fields == MovedFields(tables, start, KeySet(keys[..k]))
    {
      assert keys[k] in KeySet(keys);
      record.Remap(tables.Of(KindOf(keys[k])), keys[k]);
      assert KeySet(keys[..k + 1]) == KeySet(keys[..k]) + {keys[k]};
    }
    assert keys[..|keys|] == keys;
  }

  function MovedList(tables: Numberings, rs: seq<Fields>, keys: seq<Field>): seq<Fields> {
    seq(|rs|, i requires 0 <= i < |rs| => MovedFields(tables, rs[i], KeySet(keys)))
  }

  ghost predicate DistinctRecords(records: seq<Record>) {
    forall i, j :: 0 <= i < j < |records| ==> records[i] != records[j]
  }

  ghost function Read(records: seq<Record>): (rs: seq<Fields>)
    reads records
    ensures |rs| == |records| && forall i :: 0 <= i < |rs| ==> rs[i] == records[i].fields
  {
    seq(|records|, i requires 0 <= i < |records| reads records => records[i].fields)
  }

  /** Some other records are left as they are. */
  method RemapList(tables: Numberings, records: seq<Record>, keys: seq<Field>, ghost others: seq<Record>,
                   ghost more: seq<Record>)
    requires DistinctRecords(records) && Have(Read(records), keys) && Different(keys)
    requires forall r :: r in records ==> r !in others && r !in more
    modifies records
    ensures Read(records) == MovedList(tables, old(Read(records)), keys)
    ensures Read(others) == old(Read(others)) && Read(more) == old(Read(more))
  {
    hide MovedList, Have, DistinctRecords, Different;
    RemapRecords(tables, records, keys);
    assert forall i :: 0 <= i < |others| ==> others[i] in others;
    assert forall i :: 0 <= i < |more| ==> more[i] in more;
  }

  method RemapRecords(tables: Numberings, records: seq<Record>, keys: seq<Field>)
    requires DistinctRecords(records) && Have(Read(records), keys) && Different(keys)
    modifies records
    ensures Read(records) == MovedList(tables, old(Read(records)), keys)
  {
    ghost var start := Read(records);
    for i := 0 to |records|
      invariant Read(records) == MovedList(tables, start[..i], keys) + start[i..]
    {
      MoveNext(tables, start, i, keys);
      hide MovedFields, MovedList, KeySet, Have, Different, DistinctRecords;
      RemapNth(tables, records, i, keys);
    }
    assert start[..|records|] == start;
  }

  method RemapNth(tables: Numberings, records: seq<Record>, i: nat, keys: seq<Field>)
    requires i < |records| && DistinctRecords(records) && Different(keys)
    requires KeySet(keys) <= Read(records)[i].Keys
    modifies records
    ensures Read(records) == old(Read(records))[i := MovedFields(tables, old(Read(records))[i], KeySet(keys))]
  {
    hide MovedFields, Different, KeySet;
    RemapRecord(tables, records[i], keys);
  }

  lemma MoveNext(tables: Numberings, rs: seq<Fields>, i: nat, keys: seq<Field>)
    requires i < |rs| && Have(rs, keys)
    ensures var now := MovedList(tables, rs[..i], keys) + rs[i..];
            && now[i] == rs[i] && KeySet(keys) <= rs[i].Keys
            && now[i := MovedFields(tables, rs[i], KeySet(keys))] == MovedList(tables, rs[..i + 1], keys) + rs[i + 1..]
  {
    assert KeySet(keys) == rs[i].Keys;
    hide MovedFields, KeySet;
  }

  method Gather(records: seq<Record>, f: Field, ghost keys: seq<Field>) returns (values: seq<Option<int>>)
    requires Have(Read(records), keys) && f in keys
    ensures values == Column(Read(records), f)
  {
    values := [];
    for i := 0 to |records|
      invariant |values| == i && forall j :: 0 <= j < i ==> values[j] == Column(Read(records), f)[j]
    {
      assert Read(records)[i].Keys == KeySet(keys);
      values := values + [records[i].fields[f]];
    }
  }

  function TablesOf(p: Payload): Numberings {
    Numberings(TableOf(p, Columns), TableOf(p, Units), TableOf(p, Sections), TableOf(p, Boundaries))
  }

  /** The tables of all four kinds, from the fields that hold their ids. */
  method MakeTables(columns: seq<Record>, units: seq<Record>, boundaries: seq<Record>) returns (tables: Numberings)
    requires Shaped(Payload(Read(columns), Read(units), Read(boundaries)))
    ensures tables == TablesOf(Payload(Read(columns), Read(units), Read(boundaries)))
  {
    hide Column, Ids, Numbering, Have, Read;
    FieldsGathered();
    var colIds := Gather(columns, ColId, COLUMN_FIELDS);
    var unitIds := Gather(units, UnitId, UNIT_FIELDS);
    var sectionIds := Gather(units, SectionId, UNIT_FIELDS);
    var boundarySectionIds := Gather(boundaries, SectionId, BOUNDARY_FIELDS);
    var boundaryIds := Gather(boundaries, BoundaryId, BOUNDARY_FIELDS);
    hide COLUMN_FIELDS, UNIT_FIELDS, BOUNDARY_FIELDS;
    var cols := Mapping(colIds);
    var unitTable := Mapping(unitIds);
    var sections := Mapping(sectionIds + boundarySectionIds);
    var boundaryTable := Mapping(boundaryIds);
    tables := Numberings(cols, unitTable, sections, boundaryTable);
  }

  lemma FieldsGathered()
    ensures ColId in COLUMN_FIELDS && UnitId in UNIT_FIELDS && SectionId in UNIT_FIELDS
    ensures SectionId in BOUNDARY_FIELDS && BoundaryId in BOUNDARY_FIELDS
  {
    assert COLUMN_FIELDS[0] == ColId && UNIT_FIELDS[0] == UnitId && UNIT_FIELDS[2] == SectionId;
    assert BOUNDARY_FIELDS[2] == SectionId && BOUNDARY_FIELDS[0] == BoundaryId;
  }

  /** What the three lists of records share: nothing. */
  ghost predicate Separate(a: seq<Record>, b: seq<Record>, c: seq<Record>) {
    && DistinctRecords(a) && DistinctRecords(b) && DistinctRecords(c)
    && (forall r :: r in a ==> r !in b && r !in c)
    && (forall r :: r in b ==> r !in c)
  }

  /** All three tables, in place. */
  method Renumber(columns: seq<Record>, units: seq<Record>, boundaries: seq<Record>)
    requires Separate(columns, units, boundaries)
    requires Shaped(Payload(Read(columns), Read(units), Read(boundaries)))
    modifies columns, units, boundaries
    ensures Payload(Read(columns), Read(units), Read(boundaries))
            == Renumbered(old(Payload(Read(columns), Read(units), Read(boundaries))))
  {
    hide Renumbered, MovedList, TablesOf, Have, Read;
    ghost var p := Payload(Read(columns), Read(units), Read(boundaries));
    var tables := MakeTables(columns, units, boundaries);
    RemapList(tables, columns, COLUMN_FIELDS, units, boundaries);
    RemapList(tables, units, UNIT_FIELDS, columns, boundaries);
    RemapList(tables, boundaries, BOUNDARY_FIELDS, columns, units);
    RenumberedByTables(p);
  }

  lemma RenumberedByTables(p: Payload)
    requires Shaped(p)
    ensures var tables := TablesOf(p);
            Renumbered(p) == Payload(MovedList(tables, p.columns, COLUMN_FIELDS),
                                     MovedList(tables, p.units, UNIT_FIELDS),
                                     MovedList(tables, p.boundaries, BOUNDARY_FIELDS))
  {
    MovedListMovesAll(p, p.columns, COLUMN_FIELDS);
    MovedListMovesAll(p, p.units, UNIT_FIELDS);
    MovedListMovesAll(p, p.boundaries, BOUNDARY_FIELDS);
    hide MovedList, MovedRecords, TablesOf;
  }

  lemma MovedListMovesAll(p: Payload, rs: seq<Fields>, keys: seq<Field>)
    requires Have(rs, keys)
    ensures MovedList(TablesOf(p), rs, keys) == MovedRecords(p, rs)
  {
    assert forall kind :: TablesOf(p).Of(kind) == TableOf(p, kind);
    hide TableOf, TablesOf, KeySet, Moved;
    forall i | 0 <= i < |rs|
      ensures MovedFields(TablesOf(p), rs[i], KeySet(keys)) == MovedRecord(p, rs[i])
    {
      assert rs[i].Keys == KeySet(keys);
    }
  }

  // ---- field by field ----

  /** The ids given in this field of the records. */
  ghost function Given(rs: seq<Fields>, f: Field): set<int> {
    set i | 0 <= i < |rs| && f in rs[i] && rs[i][f].Some? && rs[i][f].value != 0 :: rs[i][f].value
  }

  /** One of the ids becomes minus one, less one for each smaller id; anything else stays. */
  ghost function NewNumber(ids: set<int>, v: Option<int>): Option<int> {
    if v.Some? && v.value in ids then Some(-1 - |set u | u in ids && u < v.value|) else v
  }

  lemma GivenInColumn(rs: seq<Fields>, f: Field)
    ensures Ids(Column(rs, f)) == Given(rs, f)
  {
    var values := Column(rs, f);
    forall v ensures v in Ids(values) <==> v in Given(rs, f) {
      if v in Given(rs, f) {
        var i :| 0 <= i < |rs| && f in rs[i] && rs[i][f] == Some(v);
        assert values[i] == Some(v);
      }
      if v in Ids(values) {
        var i :| 0 <= i < |values| && values[i] == Some(v);
        assert f in rs[i] && rs[i][f] == Some(v);
      }
    }
  }

  lemma IdsTogether(a: seq<Option<int>>, b: seq<Option<int>>)
    ensures Ids(a + b) == Ids(a) + Ids(b)
  {
    var all := a + b;
    forall v ensures v in Ids(all) <==> v in Ids(a) || v in Ids(b) {
      if v in Ids(a) {
        var i :| 0 <= i < |a| && a[i] == Some(v);
        assert all[i] == Some(v);
      }
      if v in Ids(b) {
        var i :| 0 <= i < |b| && b[i] == Some(v);
        assert all[|a| + i] == Some(v);
      }
      if v in Ids(all) {
        var i :| 0 <= i < |all| && all[i] == Some(v);
        assert if i < |a| then a[i] == Some(v) else b[i - |a|] == Some(v);
      }
    }
  }

  lemma MovedIsNewNumber(p: Payload, kind: Kind, v: Option<int>)
    ensures Moved(TableOf(p, kind), v) == NewNumber(Ids(Collected(p, kind)), v)
  {
  }

  /** Which fields each record has. */
  lemma FieldsOfEach(p: Payload, i: nat)
    requires Shaped(p)
    ensures i < |p.columns| ==> p.columns[i].Keys == {ColId}
    ensures i < |p.units| ==> p.units[i].Keys == {UnitId, ColId, SectionId}
    ensures i < |p.boundaries| ==> p.boundaries[i].Keys == {BoundaryId, ColId, SectionId, UnitBelow, UnitAbove}
  {
    assert KeySet(COLUMN_FIELDS) == {ColId} && KeySet(UNIT_FIELDS) == {UnitId, ColId, SectionId};
    assert KeySet(BOUNDARY_FIELDS) == {BoundaryId, ColId, SectionId, UnitBelow, UnitAbove};
  }

  ghost predicate ColumnNow(now: Fields, was: Fields, cols: set<int>) {
    now.Keys == was.Keys == {ColId} && now[ColId] == NewNumber(cols, was[ColId])
  }

  ghost predicate UnitNow(now: Fields, was: Fields, cols: set<int>, units: set<int>, sections: set<int>) {
    && now.Keys == was.Keys == {UnitId, ColId, SectionId}
    && now[UnitId] == NewNumber(units, was[UnitId]) && now[ColId] == NewNumber(cols, was[ColId])
    && now[SectionId] == NewNumber(sections, was[SectionId])
  }

  ghost predicate BoundaryNow(now: Fields, was: Fields, cols: set<int>, units: set<int>, sections: set<int>,
                              boundaries: set<int>) {
    && now.Keys == was.Keys == {BoundaryId, ColId, SectionId, UnitBelow, UnitAbove}
    && now[BoundaryId] == NewNumber(boundaries, was[BoundaryId]) && now[ColId] == NewNumber(cols, was[ColId])
    && now[SectionId] == NewNumber(sections, was[SectionId])
    && now[UnitBelow] == NewNumber(units, was[UnitBelow]) && now[UnitAbove] == NewNumber(units, was[UnitAbove])
  }

  /** The ids that each kind is numbered by. */
  lemma TablesByField(p: Payload, v: Option<int>)
    ensures Moved(TableOf(p, Columns), v) == NewNumber(Given(p.columns, ColId), v)
    ensures Moved(TableOf(p, Units), v) == NewNumber(Given(p.units, UnitId), v)
    ensures Moved(TableOf(p, Sections), v) == NewNumber(Given(p.units, SectionId) + Given(p.boundaries, SectionId), v)
    ensures Moved(TableOf(p, Boundaries), v) == NewNumber(Given(p.boundaries, BoundaryId), v)
  {
    MovedIsNewNumber(p, Columns, v);
    MovedIsNewNumber(p, Units, v);
    MovedIsNewNumber(p, Sections, v);
    MovedIsNewNumber(p, Boundaries, v);
    GivenInColumn(p.columns, ColId);
    GivenInColumn(p.units, UnitId);
    GivenInColumn(p.units, SectionId);
    GivenInColumn(p.boundaries, SectionId);
    GivenInColumn(p.boundaries, BoundaryId);
    IdsTogether(Column(p.units, SectionId), Column(p.boundaries, SectionId));
    hide Ids, Column, Given, NewNumber, TableOf, Moved;
  }

  lemma FieldMoves(p: Payload, r: Fields, f: Field)
    requires f in r
    ensures MovedRecord(p, r).Keys == r.Keys && MovedRecord(p, r)[f] == Moved(TableOf(p, KindOf(f)), r[f])
  {
    hide Moved, TableOf;
  }

  lemma ColumnMoves(p: Payload, r: Fields)
    requires r.Keys == {ColId}
    ensures ColumnNow(MovedRecord(p, r), r, Given(p.columns, ColId))
  {
    hide MovedRecord, Moved, TableOf, Given, NewNumber;
    FieldMoves(p, r, ColId);
    TablesByField(p, r[ColId]);
  }

  lemma UnitMoves(p: Payload, r: Fields)
    requires r.Keys == {UnitId, ColId, SectionId}
    ensures UnitNow(MovedRecord(p, r), r, Given(p.columns, ColId), Given(p.units, UnitId),
                    Given(p.units, SectionId) + Given(p.boundaries, SectionId))
  {
    hide MovedRecord, Moved, TableOf, Given, NewNumber;
    FieldMoves(p, r, UnitId);
    FieldMoves(p, r, ColId);
    FieldMoves(p, r, SectionId);
    TablesByField(p, r[UnitId]);
    TablesByField(p, r[ColId]);
    TablesByField(p, r[SectionId]);
  }

  lemma BoundaryMoves(p: Payload, r: Fields)
    requires r.Keys == {BoundaryId, ColId, SectionId, UnitBelow, UnitAbove}
    ensures BoundaryNow(MovedRecord(p, r), r, Given(p.columns, ColId), Given(p.units, UnitId),
                        Given(p.units, SectionId) + Given(p.boundaries, SectionId), Given(p.boundaries, BoundaryId))
  {
    hide MovedRecord, Moved, TableOf, Given, NewNumber;
    FieldMoves(p, r, BoundaryId);
    FieldMoves(p, r, ColId);
    FieldMoves(p, r, SectionId);
    FieldMoves(p, r, UnitBelow);
    FieldMoves(p, r, UnitAbove);
    TablesByField(p, r[BoundaryId]);
    TablesByField(p, r[ColId]);
    TablesByField(p, r[SectionId]);
    TablesByField(p, r[UnitBelow]);
    TablesByField(p, r[UnitAbove]);
  }

  /** Columns are numbered by their own ids, units by theirs, sections by those of units and boundaries together, and
      boundaries by theirs. A unit refers to columns and sections by these numbers, a boundary to columns, sections, and
      the units below and above it. */
  lemma {:induction false} RenumberedByField(p: Payload, i: nat)
    requires Shaped(p)
    ensures var cols, units := Given(p.columns, ColId), Given(p.units, UnitId);
            var boundaries := Given(p.boundaries, BoundaryId);
            var sections := Given(p.units, SectionId) + Given(p.boundaries, SectionId);
            var now := Renumbered(p);
            && |now.columns| == |p.columns| && |now.units| == |p.units| && |now.boundaries| == |p.boundaries|
            && (i < |p.columns| ==> ColumnNow(now.columns[i], p.columns[i], cols))
            && (i < |p.units| ==> UnitNow(now.units[i], p.units[i], cols, units, sections))
            && (i < |p.boundaries| ==>
                  BoundaryNow(now.boundaries[i], p.boundaries[i], cols, units, sections, boundaries))
  {
    FieldsOfEach(p, i);
    hide Given, MovedRecord, ColumnNow, UnitNow, BoundaryNow, Shaped;
    if i < |p.columns| {
      ColumnMoves(p, p.columns[i]);
    }
    if i < |p.units| {
      UnitMoves(p, p.units[i]);
    }
    if i < |p.boundaries| {
      BoundaryMoves(p, p.boundaries[i]);
    }
  }
}
