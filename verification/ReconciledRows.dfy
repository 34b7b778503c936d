/** What every row holds after a reconciliation, column by column. */
module ReconciledRows {
  import opened Occurrences
  import opened Rows
  import opened Planning
  import opened PlanningLaws
  import opened Tables
  import opened ReconciliationLaws

  /** The two rows read the same in this column: one value, or null or absent in both. */
  ghost predicate SameColumn(a: Row, b: Row, c: Column) {
    if c in a && a[c] != Null then c in b && b[c] == a[c] else c in b ==> b[c] == Null
  }

  /** Rows have the same key exactly when they read the same in every column of the key. */
  lemma {:induction false} SameKeyExactly(columns: seq<Column>, a: Row, b: Row)
    ensures KeyColumns(columns)(a) == KeyColumns(columns)(b) <==> forall c :: c in columns ==> SameColumn(a, b, c)
  {
    var ka, kb := KeyColumns(columns)(a), KeyColumns(columns)(b);
    if ka == kb {
      forall c | c in columns ensures SameColumn(a, b, c) {
        var i :| 0 <= i < |columns| && columns[i] == c;
        assert ka.parts[i] == kb.parts[i];
      }
    }
    if forall c :: c in columns ==> SameColumn(a, b, c) {
      forall i | 0 <= i < |columns| ensures ka.parts[i] == kb.parts[i] {
        assert columns[i] in columns;
      }
      assert ka.parts == kb.parts;
    }
  }

  /** The two rows agree in every owned column, at the precision the database keeps. */
  ghost predicate Agree(a: Row, b: Row, spec: Spec) {
    forall c :: c in spec.owned ==> spec.quantize(c, Get(a, c)) == spec.quantize(c, Get(b, c))
  }

  /** A stored row in the slot of a desired one stays as it is exactly when the two agree. Otherwise it is updated,
      and what is written is the desired row's owned columns, quantized. */
  lemma {:induction false} KeptExactly(existing: seq<Stored>, desired: seq<Row>, spec: Spec, p: nat, i: nat)
    requires DistinctIds(existing) && p < |existing| && i < |desired| && SameSlot(existing, desired, spec.key, p, i)
    ensures var plan, id := PlanOf(existing, desired, spec), existing[p].id;
            && (id in plan.kept <==> Agree(existing[p].row, desired[i], spec))
            && (id in UpdateIds(plan.updates) <==> !Agree(existing[p].row, desired[i], spec))
            && forall u :: u in plan.updates && u.0 == id ==>
                 u.1.Keys == (set c | c in spec.owned)
                 && forall c :: c in spec.owned ==> u.1[c] == spec.quantize(c, Get(desired[i], c))
  {
    var plan, partners := PlanOf(existing, desired, spec), Partners(existing, desired, spec.key);
    SameSlotIsPartner(existing, desired, spec.key, p, i);
    DecidedIsCalled(partners, desired, spec, i);
    PartnersDistinct(existing, desired, spec.key);
    DecidedOnce(partners, desired, spec);
    ChangedExactly(existing[p].row, desired[i], spec);
    hide Changed, Agree, Partner, Decide, DistinctPartners, SameSlot;
    if Agree(existing[p].row, desired[i], spec) {
      KeptIsNotUpdated(existing, desired, spec, i);
    } else {
      OnlyUpdate(plan.updates, (existing[p].id, OwnedValues(desired[i], spec)));
    }
  }

  lemma ChangedExactly(current: Row, row: Row, spec: Spec)
    ensures Changed(current, row, spec) <==> !Agree(current, row, spec)
  {
  }

  /** With no id updated twice, an update is the only one of its id. */
  lemma OnlyUpdate(updates: seq<(Id, Row)>, u: (Id, Row))
    requires NoRepeats(UpdateIds(updates)) && u in updates
    ensures u.0 in UpdateIds(updates) && forall v :: v in updates && v.0 == u.0 ==> v == u
  {
    var k :| 0 <= k < |updates| && updates[k] == u;
    assert UpdateIds(updates)[k] == u.0;
    OthersDiffer(updates, k);
  }

  /** It becomes the row that was stored, with the owned columns written over it unless all of them agreed: each is
      the desired value, quantized and then rounded by the database. No other column changes. */
  lemma {:induction false} MatchedRowBecomes(db: Db, existing: seq<Stored>, desired: seq<Row>, spec: Spec,
                                             storage: Storage, i: nat)
    requires SequenceAhead(db) && ReadFrom(existing, db.rows) && i < |desired|
    requires IdsOf(db, existing, desired, spec)[i] in db.rows
    ensures var id, after := IdsOf(db, existing, desired, spec)[i], Reconciled(db, existing, desired, spec, storage);
            && id in after.rows
            && (Agree(db.rows[id], desired[i], spec) ==> after.rows[id] == db.rows[id])
            && (!Agree(db.rows[id], desired[i], spec) ==>
                  Overwritten(db.rows[id], after.rows[id], desired[i], spec, storage))
  {
    ReturnedIdKind(db, existing, desired, spec, i);
    DesiredRowIsStored(db, existing, desired, spec, storage, i);
    hide IdsOf, Reconciled, Partner;
    var current := Partner(existing, desired, spec.key, i).value;
    ChangedExactly(current.row, desired[i], spec);
    OwnedAreWritten(current.row, desired[i], spec, storage);
    hide Changed, Agree, Overwritten;
  }

  ghost predicate Overwritten(before: Row, after: Row, desired: Row, spec: Spec, storage: Storage) {
    && after.Keys == before.Keys + (set c | c in spec.owned)
    && (forall c :: c in spec.owned ==> after[c] == storage.round(c, spec.quantize(c, Get(desired, c))))
    && (forall c :: c in before && c !in spec.owned ==> after[c] == before[c])
  }

  lemma OwnedAreWritten(current: Row, row: Row, spec: Spec, storage: Storage)
    ensures Overwritten(current, current + AsStored(OwnedValues(row, spec), storage), row, spec, storage)
  {
  }

  /** Under an id that was stored, the table then agrees with the desired row in every owned column. */
  lemma {:induction false} MatchedRowAgrees(db: Db, existing: seq<Stored>, desired: seq<Row>, spec: Spec,
                                            storage: Storage, i: nat)
    requires SequenceAhead(db) && ReadFrom(existing, db.rows) && Quantized(spec, storage) && i < |desired|
    requires IdsOf(db, existing, desired, spec)[i] in db.rows
    ensures var id, after := IdsOf(db, existing, desired, spec)[i], Reconciled(db, existing, desired, spec, storage);
            id in after.rows && Agree(after.rows[id], desired[i], spec)
  {
    MatchedRowBecomes(db, existing, desired, spec, storage, i);
    hide IdsOf, Reconciled, Survives;
  }

  /** A desired row that is returned a new id is stored as it was sent, each column rounded as the database rounds it,
      and the columns it does not carry at their defaults. */
  lemma {:induction false} NewRowSays(db: Db, existing: seq<Stored>, desired: seq<Row>, spec: Spec,
                                      storage: Storage, i: nat)
    requires SequenceAhead(db) && ReadFrom(existing, db.rows) && i < |desired|
    requires IdsOf(db, existing, desired, spec)[i] !in db.rows
    ensures var id, after := IdsOf(db, existing, desired, spec)[i], Reconciled(db, existing, desired, spec, storage);
            && db.next <= id < after.next && id in after.rows
            && after.rows[id].Keys == desired[i].Keys + storage.defaults.Keys
            && (forall c :: c in desired[i] ==> after.rows[id][c] == storage.round(c, desired[i][c]))
            && (forall c :: c in storage.defaults && c !in desired[i] ==> after.rows[id][c] == storage.defaults[c])
  {
    ReturnedIdKind(db, existing, desired, spec, i);
    DesiredRowIsStored(db, existing, desired, spec, storage, i);
    hide IdsOf, PlanOf, Partner, UpdateAll, InsertAll, News;
  }

  /** The sequence moves on by one for each row inserted. */
  lemma {:induction false} SequenceMovesOn(db: Db, existing: seq<Stored>, desired: seq<Row>, spec: Spec,
                                           storage: Storage)
    ensures Reconciled(db, existing, desired, spec, storage).next ==
            db.next + |PlanOf(existing, desired, spec).inserts|
  {
    DecideInserts(Partners(existing, desired, spec.key), desired, spec);
  }
}
