/** What the row writes do to a table: contents by contents, and independence of the order of inserts. */
module TableLaws {
  import opened Occurrences
  import opened Wrappers
  import opened Rows
  import opened Tables

  ghost function IdSet(batch: seq<Stored>): set<Id> {
    set row | row in batch :: row.id
  }

  /** Inserts add exactly the ids of the batch, and leave every other row as it was. */
  lemma {:induction false} InsertAllFrame(rows: Contents, batch: seq<Stored>, storage: Storage)
    ensures InsertAll(rows, batch, storage).Keys == rows.Keys + IdSet(batch)
    ensures forall id :: id in rows && id !in IdSet(batch) ==> InsertAll(rows, batch, storage)[id] == rows[id]
  {
    if batch != [] {
      var init, last := batch[..|batch| - 1], batch[|batch| - 1];
      assert batch == init + [last];
      InsertAllFrame(rows, init, storage);
      assert IdSet(batch) == IdSet(init) + {last.id};
    }
  }

  lemma {:induction false} InsertAllWrites(rows: Contents, batch: seq<Stored>, storage: Storage, k: nat)
    requires DistinctIds(batch) && k < |batch|
    ensures batch[k].id in InsertAll(rows, batch, storage)
    ensures InsertAll(rows, batch, storage)[batch[k].id] == NewRow(batch[k].row, storage)
  {
    if k < |batch| - 1 {
      InsertAllWrites(rows, batch[..|batch| - 1], storage, k);
    }
  }

  /** The order in which rows with distinct ids are inserted does not matter. */
  lemma InsertOrderIsIrrelevant(rows: Contents, a: seq<Stored>, b: seq<Stored>, storage: Storage)
    requires DistinctIds(a) && DistinctIds(b)
    requires forall row :: row in a <==> row in b
    ensures InsertAll(rows, a, storage) == InsertAll(rows, b, storage)
  {
    InsertAllFrame(rows, a, storage);
    InsertAllFrame(rows, b, storage);
    var x, y := InsertAll(rows, a, storage), InsertAll(rows, b, storage);
    assert IdSet(a) == IdSet(b);
    forall id | id in x.Keys ensures x[id] == y[id] {
      if id in IdSet(a) {
        var i :| 0 <= i < |a| && a[i].id == id;
        assert a[i] in b;
        var j :| 0 <= j < |b| && b[j] == a[i];
        InsertAllWrites(rows, a, storage, i);
        InsertAllWrites(rows, b, storage, j);
      }
    }
  }

  lemma {:induction false} InsertAllAppend(rows: Contents, a: seq<Stored>, b: seq<Stored>, storage: Storage)
    ensures InsertAll(rows, a + b, storage) == InsertAll(InsertAll(rows, a, storage), b, storage)
  {
    if b == [] {
      assert a + b == a;
    } else {
      var init := b[..|b| - 1];
      assert (a + b)[..|a + b| - 1] == a + init;
      InsertAllAppend(rows, a, init, storage);
    }
  }

  lemma InsertTraceAppend(rows: Contents, a: seq<Stored>, b: seq<Stored>, storage: Storage)
    ensures InsertTrace(rows, a + b, storage)
         == InsertTrace(rows, a, storage) + InsertTrace(InsertAll(rows, a, storage), b, storage)
  {
    hide InsertAll;
    forall i | 0 <= i < |a + b|
      ensures InsertAll(rows, (a + b)[..i + 1], storage)
           == (InsertTrace(rows, a, storage) + InsertTrace(InsertAll(rows, a, storage), b, storage))[i]
    {
      if i < |a| {
        assert (a + b)[..i + 1] == a[..i + 1];
      } else {
        assert (a + b)[..i + 1] == a + b[..i + 1 - |a|];
        InsertAllAppend(rows, a, b[..i + 1 - |a|], storage);
      }
    }
  }

  lemma {:induction false} UpdateAllAppend(rows: Contents, a: seq<(Id, Row)>, b: seq<(Id, Row)>, storage: Storage)
    ensures UpdateAll(rows, a + b, storage) == UpdateAll(UpdateAll(rows, a, storage), b, storage)
  {
    if b == [] {
      assert a + b == a;
    } else {
      var init := b[..|b| - 1];
      assert (a + b)[..|a + b| - 1] == a + init;
      UpdateAllAppend(rows, a, init, storage);
    }
  }

  /** Updates add no row, remove none, and touch only the rows they name. */
  lemma {:induction false} UpdateAllFrame(rows: Contents, updates: seq<(Id, Row)>, storage: Storage)
    ensures UpdateAll(rows, updates, storage).Keys == rows.Keys
    ensures forall id :: id in rows && (forall u :: u in updates ==> u.0 != id) ==>
              UpdateAll(rows, updates, storage)[id] == rows[id]
  {
    if updates != [] {
      var n := |updates| - 1;
      assert updates == updates[..n] + [updates[n]];
      UpdateAllFrame(rows, updates[..n], storage);
      assert forall u :: u in updates[..n] ==> u in updates;
    }
  }

  /** An update that names a row once writes its values over that row, and no other column. */
  lemma {:induction false} UpdateAllWrites(rows: Contents, updates: seq<(Id, Row)>, storage: Storage, k: nat)
    requires k < |updates| && updates[k].0 in rows
    requires forall i :: 0 <= i < |updates| && i != k ==> updates[i].0 != updates[k].0
    ensures updates[k].0 in UpdateAll(rows, updates, storage)
    ensures UpdateAll(rows, updates, storage)[updates[k].0]
         == rows[updates[k].0] + AsStored(updates[k].1, storage)
  {
    var n := |updates| - 1;
    UpdateAllFrame(rows, updates, storage);
    UpdateAllFrame(rows, updates[..n], storage);
    if k < n {
      UpdateAllWrites(rows, updates[..n], storage, k);
    } else {
      assert forall u :: u in updates[..n] ==> u.0 != updates[k].0;
    }
  }

  // ---- batches ----

  lemma {:induction false} BatchExact(news: seq<Stored>, columns: set<Column>)
    ensures forall row :: row in Batch(news, columns) <==> row in news && row.row.Keys == columns
    ensures DistinctIds(news) ==> DistinctIds(Batch(news, columns))
  {
    if news != [] {
      var n := |news| - 1;
      assert news == news[..n] + [news[n]];
      BatchExact(news[..n], columns);
      var front := Batch(news[..n], columns);
      assert Batch(news, columns) == front + if news[n].row.Keys == columns then [news[n]] else [];
      hide Batch;
      forall i | 0 <= i < |front| ensures DistinctIds(news) ==> front[i].id != news[n].id {
        assert front[i] in front;
      }
    }
  }

  /** The rows of a batch keep their order. */
  lemma {:induction false} BatchAscends(news: seq<Stored>, columns: set<Column>)
    requires forall i, j :: 0 <= i < j < |news| ==> news[i].id < news[j].id
    ensures var batch := Batch(news, columns); forall i, j :: 0 <= i < j < |batch| ==> batch[i].id < batch[j].id
  {
    if news != [] {
      var n := |news| - 1;
      BatchAscends(news[..n], columns);
      BatchExact(news[..n], columns);
      var front := Batch(news[..n], columns);
      forall i | 0 <= i < |front| ensures front[i].id < news[n].id {
        assert front[i] in front;
      }
    }
  }

  lemma DistinctIdsAppend(a: seq<Stored>, b: seq<Stored>)
    requires DistinctIds(a) && DistinctIds(b) && IdSet(a) !! IdSet(b)
    ensures DistinctIds(a + b)
  {
    forall i, j | 0 <= i < j < |a + b| ensures (a + b)[i].id != (a + b)[j].id {
      if i < |a| <= j {
        assert a[i].id in IdSet(a) && b[j - |a|].id in IdSet(b);
      }
    }
  }

  /** The batches of some column sets hold every row carrying one of them, once. */
  lemma {:induction false} BatchesExact(news: seq<Stored>, order: seq<set<Column>>)
    requires DistinctIds(news) && NoRepeats(order)
    ensures forall row :: row in BatchesInOrder(news, order) <==> row in news && row.row.Keys in order
    ensures DistinctIds(BatchesInOrder(news, order))
  {
    if order != [] {
      var n := |order| - 1;
      assert order == order[..n] + [order[n]];
      BatchesExact(news, order[..n]);
      BatchExact(news, order[n]);
      var front, back := BatchesInOrder(news, order[..n]), Batch(news, order[n]);
      forall a, b | a in front && b in back ensures a.id != b.id {
        assert order[n] !in order[..n];
        assert a in news && b in news && a != b;
      }
      DistinctIdsAppend(front, back);
    }
  }

  /** The batches together hold every new row exactly once. */
  lemma BatchOrderExact(news: seq<Stored>)
    requires DistinctIds(news)
    ensures DistinctIds(BatchOrder(news))
    ensures forall row :: row in BatchOrder(news) <==> row in news
  {
    BatchesExact(news, Distinct(ColumnSets(news)));
    forall row | row in news ensures row.row.Keys in Distinct(ColumnSets(news)) {
      var j :| 0 <= j < |news| && news[j] == row;
      assert ColumnSets(news)[j] in ColumnSets(news);
    }
  }

  /** Inserting batch by batch leaves the table that inserting one by one leaves. */
  lemma BatchingEqualsOneByOne(rows: Contents, news: seq<Stored>, storage: Storage)
    requires DistinctIds(news)
    ensures InsertAll(rows, BatchOrder(news), storage) == InsertAll(rows, news, storage)
  {
    BatchOrderExact(news);
    InsertOrderIsIrrelevant(rows, BatchOrder(news), news, storage);
  }

  // ---- ids ----

  /** The j-th missing row is inserted under the j-th id drawn. */
  lemma MissingGetsDrawnId(matched: seq<Option<Id>>, next: Id, desired: seq<Row>, i: nat)
    requires i < |matched| == |desired| && matched[i].None?
    ensures var j := AssignIds(matched, next)[i] - next;
            0 <= j < |Missing(matched)| && News(matched, next, desired)[j] == Stored(next + j, desired[i])
  {
    PositionOfRank(matched, i);
  }

  lemma NewsAreNew(matched: seq<Option<Id>>, next: Id, desired: seq<Row>)
    requires |matched| == |desired|
    ensures forall row :: row in News(matched, next, desired) ==> row.id >= next
    ensures DistinctIds(News(matched, next, desired))
  {
  }

  /** Missing rows get distinct ids, ascending in the order desired, all from the sequence. */
  lemma NewIdsAscend(matched: seq<Option<Id>>, next: Id, i: nat, j: nat)
    requires i < j < |matched| && matched[i].None? && matched[j].None?
    ensures next <= AssignIds(matched, next)[i] < AssignIds(matched, next)[j] < next + |Missing(matched)|
  {
    RankFollowsPosition(matched, i, j);
    PositionOfRank(matched, j);
  }
}
