/** The database table a plan is applied to: pure row writes, and the table object they act on. */
module Tables {
  import opened Occurrences
  import opened Wrappers
  import opened Rows
  import opened Planning

  type Contents = map<Id, Row>

  // ---- one row-level write at a time ----

  /** What the columns of `values` hold once the database has stored them. */
  function AsStored(values: Row, storage: Storage): Row {
    map c | c in values :: storage.round(c, values[c])
  }

  /** `UPDATE ... WHERE id = id`: nothing happens when no row has that id. */
  function UpdateRow(rows: Contents, update: (Id, Row), storage: Storage): Contents {
    if update.0 in rows then rows[update.0 := rows[update.0] + AsStored(update.1, storage)] else rows
  }

  /** `INSERT`: columns that are not given take their defaults. */
  function InsertRow(rows: Contents, row: Stored, storage: Storage): Contents {
    rows[row.id := NewRow(row.row, storage)]
  }

  function NewRow(values: Row, storage: Storage): Row {
    storage.defaults + AsStored(values, storage)
  }

  function UpdateAll(rows: Contents, updates: seq<(Id, Row)>, storage: Storage): Contents {
    if updates == [] then rows
    else UpdateRow(UpdateAll(rows, updates[..|updates| - 1], storage), updates[|updates| - 1], storage)
  }

  function InsertAll(rows: Contents, batch: seq<Stored>, storage: Storage): Contents {
    if batch == [] then rows
    else InsertRow(InsertAll(rows, batch[..|batch| - 1], storage), batch[|batch| - 1], storage)
  }

  function DeleteAll(rows: Contents, ids: seq<Id>): Contents {
    map id | id in rows && id !in ids :: rows[id]
  }

  /** The contents after each row an update statement writes. */
  function UpdateTrace(rows: Contents, updates: seq<(Id, Row)>, storage: Storage): seq<Contents> {
    seq(|updates|, i requires 0 <= i < |updates| => UpdateAll(rows, updates[..i + 1], storage))
  }

  /** The contents after each row the insert statements write. */
  function InsertTrace(rows: Contents, batch: seq<Stored>, storage: Storage): seq<Contents> {
    seq(|batch|, i requires 0 <= i < |batch| => InsertAll(rows, batch[..i + 1], storage))
  }

  // ---- applying a plan ----

  /** The ids of all desired rows: the matched id, or the next one of the sequence. */
  function AssignIds(matched: seq<Option<Id>>, next: Id): (ids: seq<Id>)
    ensures |ids| == |matched|
  {
    seq(|matched|, i requires 0 <= i < |matched| =>
      match matched[i] case Some(id) => id case None => next + Rank(matched, i))
  }

  function Missing(matched: seq<Option<Id>>): seq<nat> {
    Positions(matched, None)
  }

  /** The rows to insert, in the order desired, with the ids the sequence gives them. */
  function News(matched: seq<Option<Id>>, next: Id, desired: seq<Row>): seq<Stored>
    requires |matched| == |desired|
  {
    var missing := Missing(matched);
    seq(|missing|, j requires 0 <= j < |missing| => Stored(next + j, desired[missing[j]]))
  }

  /** The set of columns each row carries. */
  function ColumnSets(news: seq<Stored>): seq<set<Column>> {
    seq(|news|, j requires 0 <= j < |news| => news[j].row.Keys)
  }

  /** The rows that carry exactly `columns`. */
  function Batch(news: seq<Stored>, columns: set<Column>): seq<Stored> {
    if news == [] then []
    else
      var n := |news| - 1;
      Batch(news[..n], columns) + if news[n].row.Keys == columns then [news[n]] else []
  }

  function BatchesInOrder(news: seq<Stored>, order: seq<set<Column>>): seq<Stored> {
    if order == [] then []
    else BatchesInOrder(news, order[..|order| - 1]) + Batch(news, order[|order| - 1])
  }

  /** The rows batch after batch: one batch per column set, in order of first appearance. */
  function BatchOrder(news: seq<Stored>): seq<Stored> {
    BatchesInOrder(news, Distinct(ColumnSets(news)))
  }

  /** A table's contents together with the next value of its id sequence. */
  datatype Db = Db(rows: Contents, next: Id)

  /** One statement can insert these rows: they carry the same columns, and their ids are free. */
  ghost predicate Insertable(batch: seq<Stored>, rows: Contents) {
    && (forall row :: row in batch ==> row.row.Keys == batch[0].row.Keys)
    && (forall i :: 0 <= i < |batch| ==> batch[i].id !in rows)
    && DistinctIds(batch)
  }

  /** Every new row's id is beyond every stored one. */
  ghost predicate Beyond(news: seq<Stored>, rows: Contents) {
    forall id, row :: id in rows && row in news ==> id < row.id
  }

  ghost predicate SequenceAhead(db: Db) {
    forall id :: id in db.rows ==> id < db.next
  }

  /** Applying a plan, with the missing rows inserted one by one in the order desired. */
  function ApplyPlan(db: Db, plan: Plan, desired: seq<Row>, storage: Storage): Db
    requires |plan.matched| == |desired|
  {
    var updated := UpdateAll(db.rows, plan.updates, storage);
    var inserted := InsertAll(updated, News(plan.matched, db.next, desired), storage);
    Db(DeleteAll(inserted, plan.deletes), db.next + |Missing(plan.matched)|)
  }

  /** The contents after every row-level write of an apply, in the order the statements are sent. */
  function ApplyTrace(db: Db, plan: Plan, desired: seq<Row>, owned: seq<Column>, storage: Storage): seq<Contents>
    requires |plan.matched| == |desired|
  {
    var batch := BatchOrder(News(plan.matched, db.next, desired));
    var updated := UpdateAll(db.rows, plan.updates, storage);
    (if owned == [] then [] else UpdateTrace(db.rows, plan.updates, storage))
    + InsertTrace(updated, batch, storage)
    + if plan.deletes == [] then [] else [DeleteAll(InsertAll(updated, batch, storage), plan.deletes)]
  }

  lemma InsertStep(rows: Contents, batch: seq<Stored>, i: nat, storage: Storage)
    requires i < |batch|
    ensures InsertAll(rows, batch[..i + 1], storage) ==
            InsertRow(InsertAll(rows, batch[..i], storage), batch[i], storage)
  {
    assert batch[..i + 1][..i] == batch[..i];
  }

  lemma SameColumns(batch: seq<Stored>, rows: Contents, i: nat)
    requires Insertable(batch, rows) && i < |batch|
    ensures batch[i].row.Keys == batch[0].row.Keys
  {
    assert batch[i] in batch;
  }

  // ---- the table object ----

  class SqlTable {
    const storage: Storage
    var rows: Contents
    var next: Id
    /** What the table held after each row written so far. */
    ghost var history: seq<Contents>

    constructor (storage: Storage, rows: Contents, next: Id)
      ensures this.storage == storage && this.rows == rows && this.next == next && history == []
    {
      this.storage, this.rows, this.next, this.history := storage, rows, next, [];
    }

    /** The sequence is ahead of every stored id, so an id it hands out is new. */
    ghost predicate Valid()
      reads this
    {
      SequenceAhead(State())
    }

    ghost function State(): Db
      reads this
    {
      Db(rows, next)
    }

    /** One batched `UPDATE`: the columns set are the owned ones, which every entry supplies. */
    method Update(owned: seq<Column>, updates: seq<(Id, Row)>)
      requires forall u :: u in updates ==> u.1.Keys == set c | c in owned
      modifies this
      ensures rows == UpdateAll(old(rows), updates, storage) && next == old(next)
      ensures history == old(history) + UpdateTrace(old(rows), updates, storage)
    {
      for i := 0 to |updates|
        invariant rows == UpdateAll(old(rows), updates[..i], storage) && next == old(next)
        invariant history == old(history) + UpdateTrace(old(rows), updates, storage)[..i]
      {
        assert updates[i] in updates;
        assert updates[..i + 1][..i] == updates[..i];
        UpdateOne(owned, updates[i]);
      }
      assert updates[..|updates|] == updates;
    }

    /** One row of an `UPDATE`; an id that is not stored writes nothing. */
    method UpdateOne(owned: seq<Column>, update: (Id, Row))
      requires update.1.Keys == set c | c in owned
      modifies this
      ensures rows == UpdateRow(old(rows), update, storage) && next == old(next)
      ensures history == old(history) + [rows]
    {
      var (id, values) := update;
      if id in rows {
        var written := map c | c in owned :: storage.round(c, values[c]);
        assert written == AsStored(values, storage);
        rows := rows[id := rows[id] + written];
      }
      history := history + [rows];
    }

    /** `nextval`, `n` times. */
    method Allocate(n: nat) returns (ids: seq<Id>)
      modifies this`next
      ensures next == old(next) + n
      ensures |ids| == n && forall i :: 0 <= i < n ==> ids[i] == old(next) + i
    {
      ids := [];
      for i := 0 to n
        invariant next == old(next) + i
        invariant |ids| == i && forall j :: 0 <= j < i ==> ids[j] == old(next) + j
      {
        ids := ids + [next];
        next := next + 1;
      }
    }

    /** One batched `INSERT`. It takes its columns from its first row and writes no others. */
    method Insert(batch: seq<Stored>)
      requires Insertable(batch, rows)
      modifies this`rows, this`history
      ensures rows == InsertAll(old(rows), batch, storage)
      ensures history == old(history) + InsertTrace(old(rows), batch, storage)
    {
      assert batch[..0] == [] && InsertAll(rows, [], storage) == rows;
      hide InsertAll, Insertable;
      for i := 0 to |batch|
        invariant rows == InsertAll(old(rows), batch[..i], storage)
        invariant history == old(history) + InsertTrace(old(rows), batch, storage)[..i]
      {
        InsertStep(old(rows), batch, i, storage);
        SameColumns(batch, old(rows), i);
        InsertOne(batch[0].row.Keys, batch[i]);
      }
      assert batch[..|batch|] == batch;
    }

    /** One row of an `INSERT` into these columns. */
    method InsertOne(columns: set<Column>, row: Stored)
      requires row.row.Keys == columns
      modifies this`rows, this`history
      ensures rows == InsertRow(old(rows), row, storage)
      ensures history == old(history) + [rows]
    {
      var written := map c | c in columns :: storage.round(c, row.row[c]);
      assert written == AsStored(row.row, storage);
      rows := rows[row.id := storage.defaults + written];
      history := history + [rows];
    }

    /** `DELETE ... WHERE id IN (ids)`. */
    method Delete(ids: seq<Id>)
      modifies this`rows, this`history
      ensures rows == DeleteAll(old(rows), ids)
      ensures history == old(history) + [rows]
    {
      rows := map id | id in rows && id !in ids :: rows[id];
      history := history + [rows];
    }
  }
}
