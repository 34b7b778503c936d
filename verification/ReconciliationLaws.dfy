/** What a reconciliation leaves in the table, and what the next ones find there. */
module ReconciliationLaws {
  import opened Occurrences
  import opened Wrappers
  import opened Rows
  import opened Planning
  import opened PlanningLaws
  import opened Tables
  import opened TableLaws
  import opened Reconciling

  /** `existing` was read from these contents. */
  ghost predicate ReadFrom(existing: seq<Stored>, rows: Contents) {
    && DistinctIds(existing)
    && forall row :: row in existing ==> row.id in rows && rows[row.id] == row.row
  }

  ghost function Reconciled(db: Db, existing: seq<Stored>, desired: seq<Row>, spec: Spec, storage: Storage): Db {
    PlanShape(existing, desired, spec);
    ApplyPlan(db, PlanOf(existing, desired, spec), desired, storage)
  }

  ghost function IdsOf(db: Db, existing: seq<Stored>, desired: seq<Row>, spec: Spec): (ids: seq<Id>)
    ensures |ids| == |desired|
  {
    PlanShape(existing, desired, spec);
    AssignIds(PlanOf(existing, desired, spec).matched, db.next)
  }

  /** The row a desired row ends up as: its partner with the owned columns written if they moved, or a new row. */
  ghost function FinalRow(existing: seq<Stored>, desired: seq<Row>, spec: Spec, storage: Storage, i: nat): Row
    requires i < |desired|
  {
    match Partner(existing, desired, spec.key, i)
    case None => NewRow(desired[i], storage)
    case Some(current) =>
      if Changed(current.row, desired[i], spec)
      then current.row + AsStored(OwnedValues(desired[i], spec), storage)
      else current.row
  }

  // ---- applying, id by id ----

  lemma ApplyAddsAndRemoves(db: Db, plan: Plan, desired: seq<Row>, storage: Storage)
    requires |plan.matched| == |desired|
    ensures forall id :: id in ApplyPlan(db, plan, desired, storage).rows <==>
              id !in plan.deletes && (id in db.rows || db.next <= id < db.next + |Missing(plan.matched)|)
  {
    var updated, news := UpdateAll(db.rows, plan.updates, storage), News(plan.matched, db.next, desired);
    UpdateAllFrame(db.rows, plan.updates, storage);
    InsertAllFrame(updated, news, storage);
    forall id ensures id in IdSet(news) <==> db.next <= id < db.next + |news| {
      if db.next <= id < db.next + |news| {
        assert news[id - db.next].id == id;
        assert news[id - db.next] in news;
      }
    }
  }

  lemma ApplyKeepsOld(db: Db, plan: Plan, desired: seq<Row>, storage: Storage, id: Id)
    requires |plan.matched| == |desired| && SequenceAhead(db)
    requires id in db.rows && id !in plan.deletes
    ensures id in ApplyPlan(db, plan, desired, storage).rows
    ensures id in UpdateAll(db.rows, plan.updates, storage)
    ensures ApplyPlan(db, plan, desired, storage).rows[id] == UpdateAll(db.rows, plan.updates, storage)[id]
  {
    UpdateAllFrame(db.rows, plan.updates, storage);
    InsertAllFrame(UpdateAll(db.rows, plan.updates, storage), News(plan.matched, db.next, desired), storage);
  }

  lemma ApplyInserts(db: Db, plan: Plan, desired: seq<Row>, storage: Storage, i: nat)
    requires i < |plan.matched| == |desired| && plan.matched[i].None?
    requires forall id :: id in plan.deletes ==> id < db.next
    ensures var id := AssignIds(plan.matched, db.next)[i];
            && id in ApplyPlan(db, plan, desired, storage).rows
            && ApplyPlan(db, plan, desired, storage).rows[id] == NewRow(desired[i], storage)
  {
    var id, news := AssignIds(plan.matched, db.next)[i], News(plan.matched, db.next, desired);
    MissingGetsDrawnId(plan.matched, db.next, desired, i);
    NewsAreNew(plan.matched, db.next, desired);
    InsertAllWrites(UpdateAll(db.rows, plan.updates, storage), news, storage, id - db.next);
  }

  // ---- the desired state is reached ----

  /** Each desired row is found under the id returned for it, and a matched row keeps every column it does not own. */
  lemma DesiredRowIsStored(db: Db, existing: seq<Stored>, desired: seq<Row>, spec: Spec, storage: Storage, i: nat)
    requires SequenceAhead(db) && ReadFrom(existing, db.rows) && i < |desired|
    ensures var id := IdsOf(db, existing, desired, spec)[i];
            && id in Reconciled(db, existing, desired, spec, storage).rows
            && Reconciled(db, existing, desired, spec, storage).rows[id] ==
               FinalRow(existing, desired, spec, storage, i)
  {
    var plan := PlanOf(existing, desired, spec);
    PlanShape(existing, desired, spec);
    var partners := Partners(existing, desired, spec.key);
    DecideMatches(partners, desired, spec);
    PlanIsBelow(Group(existing, desired), spec, db.next);
    match partners[i] {
      case None => ApplyInserts(db, plan, desired, storage, i);
      case Some(current) =>
        var p := PartnerSlot(existing, desired, spec.key, i);
        SlotTakenOnlyIf(existing, desired, spec.key, p, i);
        DeletedExactly(existing, desired, spec, p);
        ApplyKeepsOld(db, plan, desired, storage, current.id);
        MatchedRowIsWritten(db.rows, existing, desired, spec, storage, i);
    }
  }

  lemma MatchedRowIsWritten(rows: Contents, existing: seq<Stored>, desired: seq<Row>, spec: Spec, storage: Storage,
                            i: nat)
    requires ReadFrom(existing, rows) && i < |desired| && Partner(existing, desired, spec.key, i).Some?
    ensures var id := Partner(existing, desired, spec.key, i).value.id;
            && id in UpdateAll(rows, PlanOf(existing, desired, spec).updates, storage)
            && UpdateAll(rows, PlanOf(existing, desired, spec).updates, storage)[id] ==
               FinalRow(existing, desired, spec, storage, i)
  {
    var updates := PlanOf(existing, desired, spec).updates;
    var current := Partner(existing, desired, spec.key, i).value;
    var p := PartnerSlot(existing, desired, spec.key, i);
    assert current.id in rows && rows[current.id] == current.row;
    UpdatedOnce(existing, desired, spec);
    hide UpdateAll, PlanOf, Partner, ReadFrom;
    UpdateAllFrame(rows, updates, storage);
    if Changed(current.row, desired[i], spec) {
      ChangedIsUpdated(existing, desired, spec, i);
      var u := (current.id, OwnedValues(desired[i], spec));
      var k :| 0 <= k < |updates| && updates[k] == u;
      OthersDiffer(updates, k);
      UpdateAllWrites(rows, updates, storage, k);
    } else {
      KeptIsNotUpdated(existing, desired, spec, i);
    }
  }

  lemma UpdatedOnce(existing: seq<Stored>, desired: seq<Row>, spec: Spec)
    requires DistinctIds(existing)
    ensures NoRepeats(UpdateIds(PlanOf(existing, desired, spec).updates))
  {
    PartnersDistinct(existing, desired, spec.key);
    DecidedOnce(Partners(existing, desired, spec.key), desired, spec);
  }

  lemma ChangedIsUpdated(existing: seq<Stored>, desired: seq<Row>, spec: Spec, i: nat)
    requires i < |desired| && Partner(existing, desired, spec.key, i).Some?
    requires Changed(Partner(existing, desired, spec.key, i).value.row, desired[i], spec)
    ensures var id := Partner(existing, desired, spec.key, i).value.id;
            (id, OwnedValues(desired[i], spec)) in PlanOf(existing, desired, spec).updates
  {
    DecidedIsCalled(Partners(existing, desired, spec.key), desired, spec, i);
    hide Changed, OwnedValues;
  }

  lemma KeptIsNotUpdated(existing: seq<Stored>, desired: seq<Row>, spec: Spec, i: nat)
    requires DistinctIds(existing) && i < |desired| && Partner(existing, desired, spec.key, i).Some?
    requires !Changed(Partner(existing, desired, spec.key, i).value.row, desired[i], spec)
    ensures var updates := PlanOf(existing, desired, spec).updates;
            forall u :: u in updates ==> u.0 != Partner(existing, desired, spec.key, i).value.id
  {
    var partners, updates := Partners(existing, desired, spec.key), PlanOf(existing, desired, spec).updates;
    DecidedIsCalled(partners, desired, spec, i);
    PartnersDistinct(existing, desired, spec.key);
    DecidedOnce(partners, desired, spec);
    hide Changed, OwnedValues, Partner, DistinctPartners, Decide;
    forall u | u in updates ensures u.0 != partners[i].value.id {
      var j :| 0 <= j < |updates| && updates[j] == u;
      assert UpdateIds(updates)[j] == u.0;
    }
  }

  lemma OthersDiffer(updates: seq<(Id, Row)>, k: nat)
    requires k < |updates| && NoRepeats(UpdateIds(updates))
    ensures forall i :: 0 <= i < |updates| && i != k ==> updates[i].0 != updates[k].0
  {
    forall i | 0 <= i < |updates| && i != k ensures updates[i].0 != updates[k].0 {
      assert UpdateIds(updates)[i] != UpdateIds(updates)[k];
    }
  }

  /** The ids returned are pairwise distinct. */
  lemma ReturnedIdsDistinct(db: Db, existing: seq<Stored>, desired: seq<Row>, spec: Spec)
    requires SequenceAhead(db) && ReadFrom(existing, db.rows)
    ensures NoRepeats(IdsOf(db, existing, desired, spec))
  {
    var ids := IdsOf(db, existing, desired, spec);
    var matched := PlanOf(existing, desired, spec).matched;
    PartnersDistinct(existing, desired, spec.key);
    DecideMatches(Partners(existing, desired, spec.key), desired, spec);
    forall i, j | 0 <= i < j < |ids| ensures ids[i] != ids[j] {
      ReturnedIdKind(db, existing, desired, spec, i);
      ReturnedIdKind(db, existing, desired, spec, j);
      if matched[i].None? && matched[j].None? {
        NewIdsAscend(matched, db.next, i, j);
      }
    }
  }

  /** A matched row returns a stored id, which the sequence has passed; a new one returns an id it has not. */
  lemma ReturnedIdKind(db: Db, existing: seq<Stored>, desired: seq<Row>, spec: Spec, i: nat)
    requires SequenceAhead(db) && ReadFrom(existing, db.rows) && i < |desired|
    ensures var id := IdsOf(db, existing, desired, spec)[i];
            match Partner(existing, desired, spec.key, i)
            case Some(current) => id == current.id && current in existing && id in db.rows && id < db.next
            case None => db.next <= id < db.next + |Missing(PlanOf(existing, desired, spec).matched)|
  {
    var matched := PlanOf(existing, desired, spec).matched;
    DecideMatches(Partners(existing, desired, spec.key), desired, spec);
    var p := PartnerSlot(existing, desired, spec.key, i);
    if matched[i].None? {
      MissingGetsDrawnId(matched, db.next, desired, i);
    }
  }

  /** Exactly the returned ids replace the ids read, and every other row is untouched. */
  lemma RestIsUntouched(db: Db, existing: seq<Stored>, desired: seq<Row>, spec: Spec, storage: Storage, id: Id)
    requires SequenceAhead(db) && ReadFrom(existing, db.rows)
    ensures var after, ids := Reconciled(db, existing, desired, spec, storage), IdsOf(db, existing, desired, spec);
            && (id in after.rows <==> id in ids || (id in db.rows && id !in Ids(existing)))
            && (id in db.rows && id !in Ids(existing) ==> after.rows[id] == db.rows[id])
            && SequenceAhead(after)
  {
    var plan, ids := PlanOf(existing, desired, spec), IdsOf(db, existing, desired, spec);
    var after := Reconciled(db, existing, desired, spec, storage);
    PlanShape(existing, desired, spec);
    ApplyAddsAndRemoves(db, plan, desired, storage);
    if id in ids {
      var i :| 0 <= i < |ids| && ids[i] == id;
      DesiredRowIsStored(db, existing, desired, spec, storage, i);
    } else if id in db.rows && id !in Ids(existing) {
      UntouchedRow(db, existing, desired, spec, storage, id);
    } else if id in after.rows {
      SurvivorIsReturned(db, existing, desired, spec, storage, id);
    }
    if id in ids && id in db.rows && id !in Ids(existing) {
      UntouchedRow(db, existing, desired, spec, storage, id);
    }
  }

  lemma UntouchedRow(db: Db, existing: seq<Stored>, desired: seq<Row>, spec: Spec, storage: Storage, id: Id)
    requires SequenceAhead(db) && id in db.rows && id !in Ids(existing)
    ensures var after := Reconciled(db, existing, desired, spec, storage);
            id in after.rows && after.rows[id] == db.rows[id]
  {
    var plan := PlanOf(existing, desired, spec);
    PlanShape(existing, desired, spec);
    if id in plan.deletes {
      DeletedIsStored(existing, desired, spec, id);
    }
    forall u | u in plan.updates ensures u.0 != id {
      var j :| 0 <= j < |plan.updates| && plan.updates[j] == u;
      assert UpdateIds(plan.updates)[j] == u.0;
      UpdatedIsStored(existing, desired, spec, u.0);
    }
    UpdateAllFrame(db.rows, plan.updates, storage);
    ApplyKeepsOld(db, plan, desired, storage, id);
  }

  /** A row that was read, or is new, survives only under an id that is returned. */
  lemma SurvivorIsReturned(db: Db, existing: seq<Stored>, desired: seq<Row>, spec: Spec, storage: Storage, id: Id)
    requires SequenceAhead(db) && ReadFrom(existing, db.rows)
    requires id in Reconciled(db, existing, desired, spec, storage).rows && (id in Ids(existing) || id !in db.rows)
    ensures id in IdsOf(db, existing, desired, spec)
  {
    var plan, ids := PlanOf(existing, desired, spec), IdsOf(db, existing, desired, spec);
    PlanShape(existing, desired, spec);
    ApplyAddsAndRemoves(db, plan, desired, storage);
    hide PlanOf;
    if id in Ids(existing) {
      KeptIsReturned(db, existing, desired, spec, id);
    } else {
      PositionsAreRanked(plan.matched, None);
      var i := Missing(plan.matched)[id - db.next];
      assert ids[i] == id;
    }
  }

  lemma KeptIsReturned(db: Db, existing: seq<Stored>, desired: seq<Row>, spec: Spec, id: Id)
    requires DistinctIds(existing) && id in Ids(existing) && id !in PlanOf(existing, desired, spec).deletes
    ensures id in IdsOf(db, existing, desired, spec)
  {
    hide PlanOf, SameSlot, Rank, Count;
    var p :| 0 <= p < |existing| && existing[p].id == id;
    DeletedExactly(existing, desired, spec, p);
    var i := SlotTaken(existing, desired, spec.key, p);
    MatchedBySlot(existing, desired, spec, p, i);
    assert IdsOf(db, existing, desired, spec)[i] == id;
  }

  /** The sequence stays ahead of every stored id. */
  lemma StaysAhead(db: Db, existing: seq<Stored>, desired: seq<Row>, spec: Spec, storage: Storage)
    requires SequenceAhead(db)
    ensures SequenceAhead(Reconciled(db, existing, desired, spec, storage))
  {
    PlanShape(existing, desired, spec);
    ApplyAddsAndRemoves(db, PlanOf(existing, desired, spec), desired, storage);
  }

  // ---- reconciling again ----

  ghost predicate InScope(scope: Row -> bool, rows: Contents, id: Id) {
    id in rows && scope(rows[id])
  }

  /** `SELECT ... WHERE scope ORDER BY id`. */
  ghost predicate Scan(existing: seq<Stored>, rows: Contents, scope: Row -> bool) {
    && Ascending(Ids(existing))
    && (forall row :: row in existing ==> InScope(scope, rows, row.id) && rows[row.id] == row.row)
    && (forall id :: InScope(scope, rows, id) ==> id in Ids(existing))
  }

  /** What the callers of a reconciliation see to: desired rows belong to the scope they are reconciled in,
      carry every owned column, and neither storing a row nor writing owned columns moves its key or its scope. */
  ghost predicate Settled(desired: seq<Row>, spec: Spec, storage: Storage, scope: Row -> bool) {
    && (forall row :: row in desired ==>
          && (forall c :: c in spec.owned ==> c in row)
          && spec.key(NewRow(row, storage)) == spec.key(row)
          && scope(NewRow(row, storage)))
    && KeyIgnores(spec.key, spec.owned)
    && (forall row: Row, values: Row {:trigger row + values} :: values.Keys == (set c | c in spec.owned) ==>
          scope(row + values) == scope(row))
  }

  /** In owned columns, quantizing twice is quantizing once, and the database keeps a quantized value as it is. */
  ghost predicate Quantized(spec: Spec, storage: Storage) {
    forall c, v :: c in spec.owned ==>
      spec.quantize(c, spec.quantize(c, v)) == spec.quantize(c, v)
      && storage.round(c, spec.quantize(c, v)) == spec.quantize(c, v)
  }

  /** Storing a row does not change what its owned columns quantize to. */
  ghost predicate Survives(row: Row, spec: Spec, storage: Storage) {
    forall c :: c in spec.owned && c in row ==> spec.quantize(c, storage.round(c, row[c])) == spec.quantize(c, row[c])
  }

  lemma ScanIsReadFrom(existing: seq<Stored>, rows: Contents, scope: Row -> bool)
    requires Scan(existing, rows, scope)
    ensures ReadFrom(existing, rows)
  {
    forall i, j | 0 <= i < j < |existing| ensures existing[i].id != existing[j].id {
      assert Ids(existing)[i] < Ids(existing)[j];
    }
  }

  /** Returned ids ascend along each key: matched rows first, in id order, then new ones. */
  lemma IdsAscendAlongKey(db: Db, existing: seq<Stored>, desired: seq<Row>, spec: Spec, i: nat, j: nat)
    requires SequenceAhead(db) && ReadFrom(existing, db.rows) && Ascending(Ids(existing))
    requires i < j < |desired| && spec.key(desired[i]) == spec.key(desired[j])
    ensures IdsOf(db, existing, desired, spec)[i] < IdsOf(db, existing, desired, spec)[j]
  {
    var matched := PlanOf(existing, desired, spec).matched;
    DecideMatches(Partners(existing, desired, spec.key), desired, spec);
    ReturnedIdKind(db, existing, desired, spec, i);
    ReturnedIdKind(db, existing, desired, spec, j);
    hide Decide, Partner, Surplus, ReadFrom;
    if matched[j].Some? {
      PartnersAscend(existing, desired, spec.key, i, j);
    } else if matched[i].None? {
      NewIdsAscend(matched, db.next, i, j);
    }
  }

  /** Along a key, partners are met in the order read; a row after one without a partner has none. */
  lemma PartnersAscend(existing: seq<Stored>, desired: seq<Row>, key: Row -> Key, i: nat, j: nat)
    requires Ascending(Ids(existing))
    requires i < j < |desired| && key(desired[i]) == key(desired[j]) && Partner(existing, desired, key, j).Some?
    ensures var first := Partner(existing, desired, key, i);
            first.Some? && first.value.id < Partner(existing, desired, key, j).value.id
  {
    var p := PartnerSlot(existing, desired, key, i);
    var q := PartnerSlot(existing, desired, key, j);
    RankFollowsPosition(DesiredKeys(desired, key), i, j);
    hide Partner, Rank, Count;
    if q < p {
      RankFollowsPosition(StoredKeys(existing, key), q, p);
    }
    assert p < q;
    assert Ids(existing)[p] < Ids(existing)[q];
  }

  /** A returned id is in scope, under the key of the row it is returned for. */
  lemma ReturnedRowKey(db: Db, existing: seq<Stored>, desired: seq<Row>, spec: Spec, storage: Storage,
                       scope: Row -> bool, i: nat)
    requires SequenceAhead(db) && Scan(existing, db.rows, scope) && Settled(desired, spec, storage, scope)
    requires i < |desired|
    ensures var id, after := IdsOf(db, existing, desired, spec)[i], Reconciled(db, existing, desired, spec, storage);
            InScope(scope, after.rows, id) && spec.key(after.rows[id]) == spec.key(desired[i])
  {
    ScanIsReadFrom(existing, db.rows, scope);
    hide Reconciled, IdsOf, ReadFrom, FinalRow;
    DesiredRowIsStored(db, existing, desired, spec, storage, i);
    FinalRowKey(db.rows, existing, desired, spec, storage, scope, i);
  }

  lemma FinalRowKey(rows: Contents, existing: seq<Stored>, desired: seq<Row>, spec: Spec, storage: Storage,
                    scope: Row -> bool, i: nat)
    requires Scan(existing, rows, scope) && Settled(desired, spec, storage, scope) && i < |desired|
    ensures var row := FinalRow(existing, desired, spec, storage, i);
            scope(row) && spec.key(row) == spec.key(desired[i])
  {
    var p := PartnerSlot(existing, desired, spec.key, i);
    match Partner(existing, desired, spec.key, i) {
      case None => assert desired[i] in desired;
      case Some(current) =>
        assert current in existing && spec.key(current.row) == spec.key(desired[i]);
        var values := AsStored(OwnedValues(desired[i], spec), storage);
        assert values.Keys == set c | c in spec.owned;
        assert spec.key(current.row + values) == spec.key(current.row);
    }
  }

  /** After a reconciliation the scope holds exactly the returned ids. */
  lemma ScopeIsReturnedIds(db: Db, existing: seq<Stored>, desired: seq<Row>, spec: Spec, storage: Storage,
                           scope: Row -> bool, id: Id)
    requires SequenceAhead(db) && Scan(existing, db.rows, scope) && Settled(desired, spec, storage, scope)
    ensures InScope(scope, Reconciled(db, existing, desired, spec, storage).rows, id) <==>
            id in IdsOf(db, existing, desired, spec)
  {
    ScanIsReadFrom(existing, db.rows, scope);
    var ids, after := IdsOf(db, existing, desired, spec), Reconciled(db, existing, desired, spec, storage);
    RestIsUntouched(db, existing, desired, spec, storage, id);
    if id in ids {
      var i :| 0 <= i < |ids| && ids[i] == id;
      ReturnedRowKey(db, existing, desired, spec, storage, scope, i);
    } else if InScope(scope, after.rows, id) {
      assert InScope(scope, db.rows, id);
    }
  }

  ghost function IdsAt(ids: seq<Id>, places: seq<nat>): seq<Id>
    requires forall j :: 0 <= j < |places| ==> places[j] < |ids|
  {
    seq(|places|, j requires 0 <= j < |places| => ids[places[j]])
  }

  /** Read back, the rows of a key are those returned for the desired rows of that key, in the order desired. */
  lemma RowsOfKeyAgain(db: Db, existing: seq<Stored>, desired: seq<Row>, spec: Spec, storage: Storage,
                       scope: Row -> bool, again: seq<Stored>, k: Key)
    requires SequenceAhead(db) && Scan(existing, db.rows, scope) && Settled(desired, spec, storage, scope)
    requires Scan(again, Reconciled(db, existing, desired, spec, storage).rows, scope)
    ensures Ids(RowsOfKey(again, spec.key, k))
         == IdsAt(IdsOf(db, existing, desired, spec), Positions(DesiredKeys(desired, spec.key), k))
  {
    hide Reconciled, IdsOf, Scan, Settled, RowsOfKey, ReadFrom;
    var ids, places := IdsOf(db, existing, desired, spec), Positions(DesiredKeys(desired, spec.key), k);
    var a, b := Ids(RowsOfKey(again, spec.key, k)), IdsAt(ids, places);
    ScanAscends(again, Reconciled(db, existing, desired, spec, storage).rows, scope);
    RowsOfKeyAscend(again, spec.key, k);
    IdsAtAscend(db, existing, desired, spec, scope, k);
    forall id ensures id in a <==> id in b {
      if id in b {
        ReturnedIsRead(db, existing, desired, spec, storage, scope, again, k, id);
      }
      if id in a {
        ReadIsReturned(db, existing, desired, spec, storage, scope, again, k, id);
      }
    }
    AscendingUnique(a, b);
  }

  lemma ScanAscends(existing: seq<Stored>, rows: Contents, scope: Row -> bool)
    requires Scan(existing, rows, scope)
    ensures Ascending(Ids(existing))
  {
  }

  lemma IdsAtAscend(db: Db, existing: seq<Stored>, desired: seq<Row>, spec: Spec, scope: Row -> bool, k: Key)
    requires SequenceAhead(db) && Scan(existing, db.rows, scope)
    ensures var places := Positions(DesiredKeys(desired, spec.key), k);
            Ascending(IdsAt(IdsOf(db, existing, desired, spec), places))
  {
    hide IdsOf;
    var places := Positions(DesiredKeys(desired, spec.key), k);
    var b := IdsAt(IdsOf(db, existing, desired, spec), places);
    ScanIsReadFrom(existing, db.rows, scope);
    PositionsAreRanked(DesiredKeys(desired, spec.key), k);
    forall x, y | 0 <= x < y < |b| ensures b[x] < b[y] {
      IdsAscendAlongKey(db, existing, desired, spec, places[x], places[y]);
    }
  }

  lemma ReturnedIsRead(db: Db, existing: seq<Stored>, desired: seq<Row>, spec: Spec, storage: Storage,
                       scope: Row -> bool, again: seq<Stored>, k: Key, id: Id)
    requires SequenceAhead(db) && Scan(existing, db.rows, scope) && Settled(desired, spec, storage, scope)
    requires Scan(again, Reconciled(db, existing, desired, spec, storage).rows, scope)
    requires id in IdsAt(IdsOf(db, existing, desired, spec), Positions(DesiredKeys(desired, spec.key), k))
    ensures id in Ids(RowsOfKey(again, spec.key, k))
  {
    hide Reconciled, IdsOf, Scan, Settled, RowsOfKey;
    var places := Positions(DesiredKeys(desired, spec.key), k);
    PositionsAreRanked(DesiredKeys(desired, spec.key), k);
    var x :| 0 <= x < |places| && IdsOf(db, existing, desired, spec)[places[x]] == id;
    ReturnedRowKey(db, existing, desired, spec, storage, scope, places[x]);
    KeyedRowIsRead(again, Reconciled(db, existing, desired, spec, storage).rows, spec.key, scope, id);
  }

  lemma ReadIsReturned(db: Db, existing: seq<Stored>, desired: seq<Row>, spec: Spec, storage: Storage,
                       scope: Row -> bool, again: seq<Stored>, k: Key, id: Id)
    requires SequenceAhead(db) && Scan(existing, db.rows, scope) && Settled(desired, spec, storage, scope)
    requires Scan(again, Reconciled(db, existing, desired, spec, storage).rows, scope)
    requires id in Ids(RowsOfKey(again, spec.key, k))
    ensures id in IdsAt(IdsOf(db, existing, desired, spec), Positions(DesiredKeys(desired, spec.key), k))
  {
    hide Reconciled, IdsOf, Scan, Settled, RowsOfKey;
    var ids, dks := IdsOf(db, existing, desired, spec), DesiredKeys(desired, spec.key);
    var after := Reconciled(db, existing, desired, spec, storage);
    var row := ReadRowIsKeyed(again, after.rows, spec.key, scope, k, id);
    ScopeIsReturnedIds(db, existing, desired, spec, storage, scope, id);
    var i :| 0 <= i < |ids| && ids[i] == id;
    ReturnedRowKey(db, existing, desired, spec, storage, scope, i);
    PositionOfRank(dks, i);
    assert IdsAt(ids, Positions(dks, k))[Rank(dks, i)] == id;
  }

  lemma {:induction false} RowsOfKeyAscend(existing: seq<Stored>, key: Row -> Key, k: Key)
    requires Ascending(Ids(existing))
    ensures Ascending(Ids(RowsOfKey(existing, key, k)))
  {
    var slots := Positions(StoredKeys(existing, key), k);
    RowsOfKeyAt(existing, key, k);
    PositionsAreRanked(StoredKeys(existing, key), k);
    forall x, y | 0 <= x < y < |slots|
      ensures Ids(RowsOfKey(existing, key, k))[x] < Ids(RowsOfKey(existing, key, k))[y]
    {
      assert Ids(existing)[slots[x]] < Ids(existing)[slots[y]];
    }
  }

  lemma KeyedRowIsRead(existing: seq<Stored>, rows: Contents, key: Row -> Key, scope: Row -> bool, id: Id)
    requires Scan(existing, rows, scope) && InScope(scope, rows, id)
    ensures id in Ids(RowsOfKey(existing, key, key(rows[id])))
  {
    var p :| 0 <= p < |existing| && existing[p].id == id;
    assert existing[p] in existing;
    RowsOfKeyExact(existing, key, key(rows[id]));
    var group := RowsOfKey(existing, key, key(rows[id]));
    var j :| 0 <= j < |group| && group[j] == existing[p];
    assert Ids(group)[j] == id;
  }

  lemma ReadRowIsKeyed(existing: seq<Stored>, rows: Contents, key: Row -> Key, scope: Row -> bool, k: Key, id: Id)
    returns (row: Stored)
    requires Scan(existing, rows, scope) && id in Ids(RowsOfKey(existing, key, k))
    ensures row.id == id && InScope(scope, rows, id) && rows[id] == row.row && key(row.row) == k
  {
    var group := RowsOfKey(existing, key, k);
    var j :| 0 <= j < |group| && group[j].id == id;
    row := group[j];
    RowsOfKeyExact(existing, key, k);
    assert row in group;
  }

  /** Read back, every desired row is paired with the row it was given the time before. */
  lemma SamePairing(db: Db, existing: seq<Stored>, desired: seq<Row>, spec: Spec, storage: Storage,
                    scope: Row -> bool, again: seq<Stored>, i: nat)
    requires SequenceAhead(db) && Scan(existing, db.rows, scope) && Settled(desired, spec, storage, scope)
    requires Scan(again, Reconciled(db, existing, desired, spec, storage).rows, scope) && i < |desired|
    ensures Partner(again, desired, spec.key, i)
         == Some(Stored(IdsOf(db, existing, desired, spec)[i], FinalRow(existing, desired, spec, storage, i)))
  {
    var dks := DesiredKeys(desired, spec.key);
    var ids := IdsOf(db, existing, desired, spec);
    RowsOfKeyAgain(db, existing, desired, spec, storage, scope, again, dks[i]);
    PositionOfRank(dks, i);
    var group, r := RowsOfKey(again, spec.key, dks[i]), Rank(dks, i);
    assert Ids(group)[r] == ids[i];
    assert group[r] in group;
    RowsOfKeyExact(again, spec.key, dks[i]);
    ScanIsReadFrom(existing, db.rows, scope);
    DesiredRowIsStored(db, existing, desired, spec, storage, i);
  }

  /** Planning again gives every desired row the id it was given before, and neither inserts nor deletes. */
  lemma {:induction false} PlanningAgainKeepsIds(db: Db, existing: seq<Stored>, desired: seq<Row>, spec: Spec,
                                                 storage: Storage, scope: Row -> bool, again: seq<Stored>)
    requires SequenceAhead(db) && Scan(existing, db.rows, scope) && Settled(desired, spec, storage, scope)
    requires Scan(again, Reconciled(db, existing, desired, spec, storage).rows, scope)
    ensures var plan, ids := PlanOf(again, desired, spec), IdsOf(db, existing, desired, spec);
            && plan.matched == seq(|desired|, i requires 0 <= i < |desired| => Some(ids[i]))
            && plan.inserts == [] && plan.deletes == []
  {
    hide Reconciled, Settled, Scan, IdsOf;
    var plan, ids := PlanOf(again, desired, spec), IdsOf(db, existing, desired, spec);
    var partners := Partners(again, desired, spec.key);
    forall i | 0 <= i < |desired|
      ensures partners[i].Some? && partners[i].value.id == ids[i]
    {
      SamePairing(db, existing, desired, spec, storage, scope, again, i);
    }
    DecideMatches(partners, desired, spec);
    assert forall i :: 0 <= i < |desired| ==> plan.matched[i] == Some(ids[i]);
    NothingToInsert(partners, desired, spec);
    NothingToDelete(db, existing, desired, spec, storage, scope, again);
  }

  lemma {:induction false} NothingToInsert(partners: seq<Option<Stored>>, desired: seq<Row>, spec: Spec)
    requires |partners| == |desired| && forall i :: 0 <= i < |partners| ==> partners[i].Some?
    ensures Decide(partners, desired, spec).inserts == []
  {
    if partners != [] {
      NothingToInsert(partners[..|partners| - 1], desired[..|partners| - 1], spec);
    }
  }

  lemma NothingToDelete(db: Db, existing: seq<Stored>, desired: seq<Row>, spec: Spec, storage: Storage,
                        scope: Row -> bool, again: seq<Stored>)
    requires SequenceAhead(db) && Scan(existing, db.rows, scope) && Settled(desired, spec, storage, scope)
    requires Scan(again, Reconciled(db, existing, desired, spec, storage).rows, scope)
    ensures PlanOf(again, desired, spec).deletes == []
  {
    var deletes := PlanOf(again, desired, spec).deletes;
    ScanIsReadFrom(again, Reconciled(db, existing, desired, spec, storage).rows, scope);
    if deletes != [] {
      DeletedIsStored(again, desired, spec, deletes[0]);
      var p :| 0 <= p < |again| && again[p].id == deletes[0];
      DeletedExactly(again, desired, spec, p);
      var eks := StoredKeys(again, spec.key);
      PositionOfRank(eks, p);
      RowsOfKeyAt(again, spec.key, eks[p]);
      RowsOfKeyAgain(db, existing, desired, spec, storage, scope, again, eks[p]);
    }
  }

  /** A matched row agrees with what was desired of it; a new row does exactly when its values survive storage. */
  lemma FinalRowAgrees(existing: seq<Stored>, desired: seq<Row>, spec: Spec, storage: Storage, i: nat)
    requires Quantized(spec, storage) && i < |desired| && forall c :: c in spec.owned ==> c in desired[i]
    ensures Changed(FinalRow(existing, desired, spec, storage, i), desired[i], spec) <==>
            Partner(existing, desired, spec.key, i).None? && !Survives(desired[i], spec, storage)
  {
    var row := FinalRow(existing, desired, spec, storage, i);
    if Partner(existing, desired, spec.key, i).None? {
      assert forall c :: c in spec.owned ==> Get(row, c) == storage.round(c, desired[i][c]);
      if !Survives(desired[i], spec, storage) {
        var c :| c in spec.owned
                 && spec.quantize(c, storage.round(c, desired[i][c])) != spec.quantize(c, desired[i][c]);
        assert spec.quantize(c, Get(desired[i], c)) != spec.quantize(c, Get(row, c));
      }
    }
  }

  /** A second run is a no-op exactly when every row the first one inserted survived storage. */
  lemma {:induction false} SecondRunIsNoop(db: Db, existing: seq<Stored>, desired: seq<Row>, spec: Spec,
                                           storage: Storage, scope: Row -> bool, again: seq<Stored>)
    requires SequenceAhead(db) && Scan(existing, db.rows, scope) && Settled(desired, spec, storage, scope)
    requires Scan(again, Reconciled(db, existing, desired, spec, storage).rows, scope)
    requires Quantized(spec, storage)
    ensures PlanOf(again, desired, spec).IsNoop() <==>
            forall i :: 0 <= i < |desired| && Partner(existing, desired, spec.key, i).None? ==>
              Survives(desired[i], spec, storage)
  {
    var plan, partners := PlanOf(again, desired, spec), Partners(again, desired, spec.key);
    PlanningAgainKeepsIds(db, existing, desired, spec, storage, scope, again);
    UpdatesExactly(again, desired, spec);
    forall i | 0 <= i < |desired|
      ensures Decided(partners, desired, spec, i).Update? <==>
              Partner(existing, desired, spec.key, i).None? && !Survives(desired[i], spec, storage)
    {
      SamePairing(db, existing, desired, spec, storage, scope, again, i);
      assert desired[i] in desired;
      FinalRowAgrees(existing, desired, spec, storage, i);
    }
    hide Decided, Partner, Survives, PlanOf, Scan, Settled, Quantized, Reconciled;
  }

  /** Updates are written exactly when some pair is decided so. */
  lemma UpdatesExactly(existing: seq<Stored>, desired: seq<Row>, spec: Spec)
    ensures var partners := Partners(existing, desired, spec.key);
            PlanOf(existing, desired, spec).updates != [] <==>
            exists i :: 0 <= i < |desired| && Decided(partners, desired, spec, i).Update?
  {
    var plan, partners := PlanOf(existing, desired, spec), Partners(existing, desired, spec.key);
    DecideExact(partners, desired, spec);
    hide Partner, Decide, Decided, Surplus;
    if plan.updates != [] {
      assert Calls(plan, Update(plan.updates[0])) && Calls(Decide(partners, desired, spec), Update(plan.updates[0]));
      assert IsDecided(partners, desired, spec, Update(plan.updates[0]));
    }
    if i :| 0 <= i < |desired| && Decided(partners, desired, spec, i).Update? {
      DecidedIsCalled(partners, desired, spec, i);
    }
  }

  /** Whatever the database's rounding, a third run is a no-op: the second one stored quantized values. */
  lemma {:induction false} ThirdRunIsNoop(db: Db, first: seq<Stored>, desired: seq<Row>, spec: Spec, storage: Storage,
                                          scope: Row -> bool, second: seq<Stored>, third: seq<Stored>)
    requires SequenceAhead(db) && Scan(first, db.rows, scope) && Settled(desired, spec, storage, scope)
    requires Quantized(spec, storage)
    requires var db1 := Reconciled(db, first, desired, spec, storage);
             Scan(second, db1.rows, scope)
             && Scan(third, Reconciled(db1, second, desired, spec, storage).rows, scope)
    ensures PlanOf(third, desired, spec).IsNoop()
  {
    var db1 := Reconciled(db, first, desired, spec, storage);
    StaysAhead(db, first, desired, spec, storage);
    forall i | 0 <= i < |desired| ensures Partner(second, desired, spec.key, i).Some? {
      SamePairing(db, first, desired, spec, storage, scope, second, i);
    }
    SecondRunIsNoop(db1, second, desired, spec, storage, scope, third);
  }
}
