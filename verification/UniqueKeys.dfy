/** A unique key that holds after every single row a reconciliation writes. */
module UniqueKeys {
  import opened Occurrences
  import opened Wrappers
  import opened Rows
  import opened Planning
  import opened PlanningLaws
  import opened Tables
  import opened TableLaws
  import opened Reconciling

  /** `UNIQUE NULLS NOT DISTINCT`: no two rows have the same key. */
  ghost predicate Unique(rows: Contents, key: Row -> Key) {
    forall a, b :: a in rows && b in rows && a != b ==> key(rows[a]) != key(rows[b])
  }

  /** No two rows to insert share a key, and none has the key of a stored row. */
  ghost predicate FreshKeys(news: seq<Stored>, rows: Contents, key: Row -> Key) {
    && (forall i, j :: 0 <= i < j < |news| ==> key(news[i].row) != key(news[j].row))
    && (forall i, id :: 0 <= i < |news| && id in rows ==> key(rows[id]) != key(news[i].row))
  }

  // ---- statement by statement ----

  lemma {:induction false} UpdatesKeepKeys(rows: Contents, updates: seq<(Id, Row)>, key: Row -> Key,
                                           owned: seq<Column>, storage: Storage)
    requires KeyIgnores(key, owned) && forall u :: u in updates ==> u.1.Keys == set c | c in owned
    ensures var after := UpdateAll(rows, updates, storage);
            after.Keys == rows.Keys && forall id :: id in rows ==> key(after[id]) == key(rows[id])
  {
    UpdateAllFrame(rows, updates, storage);
    if updates != [] {
      var n := |updates| - 1;
      assert updates[n] in updates;
      assert forall u :: u in updates[..n] ==> u in updates;
      UpdatesKeepKeys(rows, updates[..n], key, owned, storage);
      var before := UpdateAll(rows, updates[..n], storage);
      var values := AsStored(updates[n].1, storage);
      assert values.Keys == set c | c in owned;
      if updates[n].0 in before {
        assert key(before[updates[n].0] + values) == key(before[updates[n].0]);
      }
    }
  }

  /** After the inserts a row is an old one, or carries the key of the inserted row of its id. */
  lemma KeyAfterInserts(rows: Contents, news: seq<Stored>, key: Row -> Key, storage: Storage, id: Id) returns (k: int)
    requires DistinctIds(news) && id in InsertAll(rows, news, storage)
    requires forall row :: row in news ==> key(NewRow(row.row, storage)) == key(row.row)
    ensures -1 <= k < |news|
    ensures k == -1 ==> id in rows && key(InsertAll(rows, news, storage)[id]) == key(rows[id])
    ensures k >= 0 ==> news[k].id == id && key(InsertAll(rows, news, storage)[id]) == key(news[k].row)
  {
    InsertAllFrame(rows, news, storage);
    k := -1;
    if id in IdSet(news) {
      k :| 0 <= k < |news| && news[k].id == id;
      InsertAllWrites(rows, news, storage, k);
      assert news[k] in news;
    }
  }

  lemma InsertsKeepUnique(rows: Contents, news: seq<Stored>, key: Row -> Key, storage: Storage)
    requires Unique(rows, key) && FreshKeys(news, rows, key) && DistinctIds(news)
    requires forall row :: row in news ==> key(NewRow(row.row, storage)) == key(row.row)
    ensures Unique(InsertAll(rows, news, storage), key)
  {
    hide InsertAll;
    var after := InsertAll(rows, news, storage);
    forall a, b | a in after && b in after && a != b ensures key(after[a]) != key(after[b]) {
      var i := KeyAfterInserts(rows, news, key, storage, a);
      var j := KeyAfterInserts(rows, news, key, storage, b);
    }
  }

  /** The key holds in every state a trace of updates, inserts and deletes passes through. */
  lemma TraceIsUnique(db: Db, plan: Plan, desired: seq<Row>, key: Row -> Key, owned: seq<Column>, storage: Storage)
    requires |plan.matched| == |desired|
    requires Unique(db.rows, key) && KeyIgnores(key, owned)
    requires forall u :: u in plan.updates ==> u.1.Keys == set c | c in owned
    requires forall row :: row in desired ==> key(NewRow(row, storage)) == key(row)
    requires FreshKeys(News(plan.matched, db.next, desired), db.rows, key)
    ensures forall rows :: rows in ApplyTrace(db, plan, desired, owned, storage) ==> Unique(rows, key)
    ensures Unique(ApplyPlan(db, plan, desired, storage).rows, key)
  {
    hide UpdateAll, InsertAll, BatchOrder, News;
    var news := News(plan.matched, db.next, desired);
    var batch, updated := BatchOrder(news), UpdateAll(db.rows, plan.updates, storage);
    NewsAreNew(plan.matched, db.next, desired);
    NewsAreDesired(plan.matched, db.next, desired);
    BatchOrderExact(news);
    BatchKeysFresh(news, batch, db.rows, key);
    UpdatesKeepKeys(db.rows, plan.updates, key, owned, storage);
    assert plan.updates[..|plan.updates|] == plan.updates && batch[..|batch|] == batch;
    forall i | 0 <= i <= |plan.updates| ensures Unique(UpdateAll(db.rows, plan.updates[..i], storage), key) {
      UpdatesKeepKeys(db.rows, plan.updates[..i], key, owned, storage);
    }
    forall i | 0 <= i <= |batch| ensures Unique(InsertAll(updated, batch[..i], storage), key) {
      assert forall row :: row in batch[..i] ==> row in batch;
      InsertsKeepUnique(updated, batch[..i], key, storage);
    }
    BatchingEqualsOneByOne(updated, news, storage);
  }

  lemma NewsAreDesired(matched: seq<Option<Id>>, next: Id, desired: seq<Row>)
    requires |matched| == |desired|
    ensures forall row :: row in News(matched, next, desired) ==> row.row in desired
  {
  }

  lemma BatchKeysFresh(news: seq<Stored>, batch: seq<Stored>, rows: Contents, key: Row -> Key)
    requires FreshKeys(news, rows, key) && DistinctIds(news) && DistinctIds(batch)
    requires forall row :: row in batch <==> row in news
    ensures FreshKeys(batch, rows, key)
  {
    forall i | 0 <= i < |batch| ensures exists x :: 0 <= x < |news| && news[x] == batch[i] {
      assert batch[i] in news;
    }
  }

  // ---- the rows a group inserts have fresh keys ----

  /** A group was read whole: a stored row with the key of one of its desired rows is among its rows. */
  ghost predicate ReadWhole(group: Group, rows: Contents, key: Row -> Key) {
    forall id, d :: id in rows && d in group.desired && key(rows[id]) == key(d) ==>
      Stored(id, rows[id]) in group.existing
  }

  ghost predicate Fits(group: Group, rows: Contents, spec: Spec) {
    ReadWhole(group, rows, spec.key) && NoRepeats(DesiredKeys(group.desired, spec.key))
  }

  /** With distinct desired keys, a row is inserted only when its key is not stored in the group. */
  lemma UnmatchedCountsZero(group: Group, spec: Spec, i: nat)
    requires NoRepeats(DesiredKeys(group.desired, spec.key))
    requires i < |group.desired| && PlanGroup(group, spec).matched[i].None?
    ensures Count(StoredKeys(group.existing, spec.key), spec.key(group.desired[i])) == 0
  {
    var dks := DesiredKeys(group.desired, spec.key);
    InsertedExactly(group.existing, group.desired, spec, i);
    AbsentCountsZero(dks[..i], dks[i]);
  }

  lemma UnmatchedKeyIsAbsent(group: Group, rows: Contents, spec: Spec, i: nat)
    requires Fits(group, rows, spec)
    requires i < |group.desired| && PlanGroup(group, spec).matched[i].None?
    ensures forall id :: id in rows ==> spec.key(rows[id]) != spec.key(group.desired[i])
  {
    UnmatchedCountsZero(group, spec, i);
    PresentCountsMore(group.existing, spec.key, spec.key(group.desired[i]));
    assert group.desired[i] in group.desired;
  }

  lemma PresentCountsMore(existing: seq<Stored>, key: Row -> Key, k: Key)
    requires Count(StoredKeys(existing, key), k) == 0
    ensures forall row :: row in existing ==> key(row.row) != k
  {
    var eks := StoredKeys(existing, key);
    forall p: nat | p < |existing| ensures key(existing[p].row) != k {
      PositionOfRank(eks, p);
    }
  }

  lemma {:induction false} AbsentCountsZero(ks: seq<Key>, k: Key)
    requires k !in ks
    ensures Count(ks, k) == 0
  {
    if ks != [] {
      assert ks[|ks| - 1] in ks;
      assert forall x :: x in ks[..|ks| - 1] ==> x in ks;
      AbsentCountsZero(ks[..|ks| - 1], k);
    }
  }

  /** A place in the merged rows is a place of the earlier groups, or of the last one. */
  lemma MergedPlace(groups: seq<Group>, spec: Spec, i: nat)
    requires i < |AllDesired(groups)|
    ensures groups != []
    ensures var init, last := groups[..|groups| - 1], groups[|groups| - 1];
            var start := |AllDesired(init)|;
            && start <= |AllDesired(groups)| == start + |last.desired|
            && AllDesired(groups)[i] == (if i < start then AllDesired(init)[i] else last.desired[i - start])
            && MergedPlan(groups, spec).matched[i]
            == (if i < start then MergedPlan(init, spec).matched[i] else PlanGroup(last, spec).matched[i - start])
  {
    hide PlanGroup;
  }

  lemma {:induction false} MergedUnmatchedIsAbsent(groups: seq<Group>, rows: Contents, spec: Spec, i: nat)
    requires forall j :: 0 <= j < |groups| ==> Fits(groups[j], rows, spec)
    requires i < |AllDesired(groups)| && MergedPlan(groups, spec).matched[i].None?
    ensures forall id :: id in rows ==> spec.key(rows[id]) != spec.key(AllDesired(groups)[i])
    decreases |groups|
  {
    hide MergedPlan, AllDesired, PlanGroup, Fits;
    MergedPlace(groups, spec, i);
    var init, last := groups[..|groups| - 1], groups[|groups| - 1];
    if i < |AllDesired(init)| {
      MergedUnmatchedIsAbsent(init, rows, spec, i);
    } else {
      UnmatchedKeyIsAbsent(last, rows, spec, i - |AllDesired(init)|);
    }
  }

  /** Reconciling groups whose desired keys are all different never breaks a unique key, at no row written. */
  lemma {:induction false} UniqueThroughout(db: Db, groups: seq<Group>, spec: Spec, storage: Storage)
    requires Unique(db.rows, spec.key) && KeyIgnores(spec.key, spec.owned)
    requires forall j :: 0 <= j < |groups| ==> Fits(groups[j], db.rows, spec)
    requires NoRepeats(DesiredKeys(AllDesired(groups), spec.key))
    requires forall row :: row in AllDesired(groups) ==> spec.key(NewRow(row, storage)) == spec.key(row)
    ensures forall rows :: rows in ApplyTrace(db, MergedPlan(groups, spec), AllDesired(groups), spec.owned, storage) ==>
              Unique(rows, spec.key)
    ensures Unique(ApplyPlan(db, MergedPlan(groups, spec), AllDesired(groups), storage).rows, spec.key)
  {
    var plan, desired := MergedPlan(groups, spec), AllDesired(groups);
    var dks := DesiredKeys(desired, spec.key);
    var missing, news := Missing(plan.matched), News(plan.matched, db.next, desired);
    hide MergedPlan, AllDesired;
    PositionsAreRanked(plan.matched, None);
    forall i, j | 0 <= i < j < |news| ensures spec.key(news[i].row) != spec.key(news[j].row) {
      assert dks[missing[i]] != dks[missing[j]];
    }
    forall i, id | 0 <= i < |news| && id in db.rows ensures spec.key(db.rows[id]) != spec.key(news[i].row) {
      MergedUnmatchedIsAbsent(groups, db.rows, spec, missing[i]);
    }
    MergedShape(groups, spec);
    TraceIsUnique(db, plan, desired, spec.key, spec.owned, storage);
  }
}
