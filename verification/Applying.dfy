/** Executing plans against a table: one plan, and the merged plans of many groups. */
module Applying {
  import opened Occurrences
  import opened Wrappers
  import opened Rows
  import opened Planning
  import opened Tables
  import opened TableLaws

  /** The positions `enumerate` finds without an id. */
  method MissingPlaces(matched: seq<Option<Id>>) returns (missing: seq<nat>)
    ensures missing == Missing(matched)
  {
    missing := [];
    for i := 0 to |matched|
      invariant missing == Missing(matched[..i])
    {
      assert matched[..i + 1][..i] == matched[..i];
      if matched[i].None? {
        missing := missing + [i];
      }
    }
    assert matched[..|matched|] == matched;
  }

  /** Write each drawn id into the place that was missing one. */
  method FillIds(matched: seq<Option<Id>>, missing: seq<nat>, drawn: seq<Id>, ghost next: Id)
    returns (ids: seq<Id>)
    requires missing == Missing(matched) && |drawn| == |missing|
    requires forall i :: 0 <= i < |drawn| ==> drawn[i] == next + i
    ensures ids == AssignIds(matched, next)
  {
    var slots := matched;
    var j := 0;
    while j < |missing|
      invariant j <= |missing|
      invariant Filled(slots, matched, next, j)
    {
      FillStep(slots, matched, next, j);
      slots := slots[missing[j] := Some(drawn[j])];
      j := j + 1;
    }
    AllFilled(slots, matched, next);
    ids := seq(|slots|, p requires 0 <= p < |slots| && slots[p].Some? => slots[p].value);
  }

  /** The first `j` missing places have been given their ids. */
  ghost predicate Filled(slots: seq<Option<Id>>, matched: seq<Option<Id>>, next: Id, j: nat) {
    && |slots| == |matched|
    && forall p: nat :: p < |matched| ==>
         slots[p] == if matched[p].None? && Rank(matched, p) < j then Some(next + Rank(matched, p)) else matched[p]
  }

  lemma FillStep(slots: seq<Option<Id>>, matched: seq<Option<Id>>, next: Id, j: nat)
    requires Filled(slots, matched, next, j) && j < |Missing(matched)|
    ensures Filled(slots[Missing(matched)[j] := Some(next + j)], matched, next, j + 1)
  {
    var place := Missing(matched)[j];
    PositionsAreRanked(matched, None);
    forall p: nat | p < |matched| && p != place && matched[p].None? ensures Rank(matched, p) != j {
      PositionOfRank(matched, p);
    }
  }

  lemma AllFilled(slots: seq<Option<Id>>, matched: seq<Option<Id>>, next: Id)
    requires Filled(slots, matched, next, |Missing(matched)|)
    ensures |slots| == |matched|
    ensures forall p :: 0 <= p < |slots| ==> slots[p] == Some(AssignIds(matched, next)[p])
  {
    forall p: nat | p < |matched| && matched[p].None? ensures Rank(matched, p) < |Missing(matched)| {
      PositionOfRank(matched, p);
    }
  }

  lemma GroupStep(news: seq<Stored>, i: nat)
    requires i < |news|
    ensures var columns := news[i].row.Keys;
            forall s :: Batch(news[..i + 1], s) == Batch(news[..i], s) + if s == columns then [news[i]] else []
    ensures var columns := news[i].row.Keys;
            var order := Distinct(ColumnSets(news[..i]));
            Distinct(ColumnSets(news[..i + 1])) == if columns in order then order else order + [columns]
  {
    assert news[..i + 1][..i] == news[..i];
    assert ColumnSets(news[..i + 1])[..i] == ColumnSets(news[..i]);
  }

  /** The batches filled so far: one per column set met, in order of first appearance. */
  ghost predicate Grouped(batches: map<set<Column>, seq<Stored>>, order: seq<set<Column>>, news: seq<Stored>) {
    && order == Distinct(ColumnSets(news))
    && (forall s :: s in batches <==> s in order)
    && (forall s :: Lookup(batches, s) == Batch(news, s))
  }

  lemma GroupedStep(batches: map<set<Column>, seq<Stored>>, order: seq<set<Column>>, news: seq<Stored>, i: nat)
    requires i < |news| && Grouped(batches, order, news[..i])
    ensures var columns := news[i].row.Keys;
            Grouped(batches[columns := Lookup(batches, columns) + [news[i]]],
                    if columns in batches then order else order + [columns], news[..i + 1])
  {
    hide Batch, Distinct, ColumnSets;
    GroupStep(news, i);
    var columns := news[i].row.Keys;
    var next := batches[columns := Lookup(batches, columns) + [news[i]]];
    forall s ensures Lookup(next, s) == Batch(news[..i + 1], s) {
      assert Lookup(batches, s) == Batch(news[..i], s);
    }
  }

  lemma GroupedBatch(batches: map<set<Column>, seq<Stored>>, order: seq<set<Column>>, news: seq<Stored>, i: nat)
    requires i < |order| && Grouped(batches, order, news)
    ensures order[i] in batches && batches[order[i]] == Batch(news, order[i])
  {
    assert order[i] in order;
    assert Lookup(batches, order[i]) == Batch(news, order[i]);
  }

  /** Group the new rows by the columns they carry. */
  method GroupByColumns(news: seq<Stored>)
    returns (batches: map<set<Column>, seq<Stored>>, order: seq<set<Column>>)
    ensures Grouped(batches, order, news)
  {
    batches, order := map[], [];
    var i := 0;
    while i < |news|
      invariant i <= |news|
      invariant Grouped(batches, order, news[..i])
    {
      var columns := news[i].row.Keys;
      GroupedStep(batches, order, news, i);
      if columns !in batches {
        order := order + [columns];
      }
      batches := batches[columns := Lookup(batches, columns) + [news[i]]];
      i := i + 1;
    }
    assert news[..i] == news;
  }

  /** With no owned columns an update has nothing to write. */
  lemma {:induction false} EmptyUpdates(rows: Contents, updates: seq<(Id, Row)>, storage: Storage)
    requires forall u :: u in updates ==> u.1.Keys == {}
    ensures updates == [] ==> UpdateTrace(rows, updates, storage) == []
    ensures UpdateAll(rows, updates, storage) == rows
  {
    if updates != [] {
      var n := |updates| - 1;
      assert updates[n] in updates;
      assert forall u :: u in updates[..n] ==> u in updates;
      EmptyUpdates(rows, updates[..n], storage);
      assert AsStored(updates[n].1, storage) == map[];
      if updates[n].0 in rows {
        assert rows[updates[n].0] + map[] == rows[updates[n].0];
      }
    }
  }

  /** The rows of the first `i` batches. */
  ghost function Sent(news: seq<Stored>, order: seq<set<Column>>, i: nat): seq<Stored>
    requires i <= |order|
  {
    BatchesInOrder(news, order[..i])
  }

  /** The next batch carries one column set, and its ids are free. */
  lemma NextBatch(news: seq<Stored>, order: seq<set<Column>>, i: nat, before: Contents, now: Contents)
    requires i < |order| && NoRepeats(order) && DistinctIds(news)
    requires Beyond(news, before)
    requires now.Keys == before.Keys + IdSet(Sent(news, order, i))
    ensures Sent(news, order, i + 1) == Sent(news, order, i) + Batch(news, order[i])
    ensures forall row :: row in Batch(news, order[i]) ==> row.row.Keys == order[i] && row.id !in now
    ensures DistinctIds(Batch(news, order[i]))
  {
    assert order[..i + 1][..i] == order[..i];
    BatchesExact(news, order[..i]);
    BatchExact(news, order[i]);
    assert Sent(news, order, i + 1) == Sent(news, order, i) + Batch(news, order[i]);
    hide Batch, Sent, BatchesInOrder;
    forall row | row in Batch(news, order[i]) ensures row.id !in IdSet(Sent(news, order, i)) {
      assert order[i] !in order[..i];
      assert forall other :: other in Sent(news, order, i) ==> other in news && other != row;
      assert forall other :: other in news && other != row ==> other.id != row.id;
    }
  }

  /** What one more insert statement adds. */
  lemma BatchStep(news: seq<Stored>, order: seq<set<Column>>, i: nat, before: Contents, storage: Storage)
    requires i < |order| && NoRepeats(order) && DistinctIds(news)
    requires Beyond(news, before)
    ensures var sent, batch := Sent(news, order, i), Batch(news, order[i]);
            var now := InsertAll(before, sent, storage);
            && Insertable(batch, now)
            && InsertAll(before, Sent(news, order, i + 1), storage) == InsertAll(now, batch, storage)
            && InsertTrace(before, Sent(news, order, i + 1), storage)
            == InsertTrace(before, sent, storage) + InsertTrace(now, batch, storage)
  {
    var sent, batch := Sent(news, order, i), Batch(news, order[i]);
    InsertAllFrame(before, sent, storage);
    NextBatch(news, order, i, before, InsertAll(before, sent, storage));
    InsertAllAppend(before, sent, batch, storage);
    InsertTraceAppend(before, sent, batch, storage);
  }

  /** The table holds what it held `before`, and the rows sent since. */
  ghost predicate Sending(table: SqlTable, before: Contents, history: seq<Contents>, sent: seq<Stored>)
    reads table
  {
    && table.rows == InsertAll(before, sent, table.storage)
    && table.history == history + InsertTrace(before, sent, table.storage)
  }

  method SendBatch(table: SqlTable, batch: seq<Stored>, ghost news: seq<Stored>, ghost order: seq<set<Column>>,
                   ghost i: nat, ghost before: Contents, ghost history: seq<Contents>)
    requires i < |order| && NoRepeats(order) && DistinctIds(news) && Beyond(news, before)
    requires batch == Batch(news, order[i])
    requires Sending(table, before, history, Sent(news, order, i))
    modifies table`rows, table`history
    ensures Sending(table, before, history, Sent(news, order, i + 1))
  {
    hide InsertAll, InsertTrace, Batch, Insertable, Beyond, DistinctIds, Sent, NoRepeats;
    BatchStep(news, order, i, before, table.storage);
    table.Insert(batch);
  }

  /** One insert statement per column set. */
  method InsertBatches(table: SqlTable, news: seq<Stored>)
    requires DistinctIds(news) && Beyond(news, table.rows)
    modifies table`rows, table`history
    ensures Sending(table, old(table.rows), old(table.history), BatchOrder(news))
  {
    var batches, order := GroupByColumns(news);
    GroupedOrder(batches, order, news);
    NothingSent(table, news, order);
    hide Grouped, Batch, Beyond, DistinctIds, Sent, BatchOrder, Sending, NoRepeats;
    var i := 0;
    while i < |order|
      invariant i <= |order|
      invariant Sending(table, old(table.rows), old(table.history), Sent(news, order, i))
    {
      GroupedBatch(batches, order, news, i);
      SendBatch(table, batches[order[i]], news, order, i, old(table.rows), old(table.history));
      i := i + 1;
    }
    AllSent(news, order);
  }

  lemma AllSent(news: seq<Stored>, order: seq<set<Column>>)
    requires order == Distinct(ColumnSets(news))
    ensures Sent(news, order, |order|) == BatchOrder(news)
  {
    assert order[..|order|] == order;
  }

  lemma GroupedOrder(batches: map<set<Column>, seq<Stored>>, order: seq<set<Column>>, news: seq<Stored>)
    requires Grouped(batches, order, news)
    ensures order == Distinct(ColumnSets(news)) && NoRepeats(order)
  {
  }

  lemma NothingSent(table: SqlTable, news: seq<Stored>, order: seq<set<Column>>)
    ensures Sending(table, table.rows, table.history, Sent(news, order, 0))
  {
  }

  /** Execute a plan and return an id for every desired row. */
  method ApplyReconciliation(table: SqlTable, plan: Plan, desired: seq<Row>, owned: seq<Column>)
    returns (ids: seq<Id>)
    requires table.Valid()
    requires |plan.matched| == |desired|
    requires forall u :: u in plan.updates ==> u.1.Keys == set c | c in owned
    modifies table
    ensures table.State() == ApplyPlan(old(table.State()), plan, desired, table.storage)
    ensures ids == AssignIds(plan.matched, old(table.next))
    ensures table.history == old(table.history) + ApplyTrace(old(table.State()), plan, desired, owned, table.storage)
  {
    hide UpdateAll, InsertAll, UpdateTrace, InsertTrace, BatchOrder, News, AssignIds, DeleteAll, ApplyTrace, Missing;
    TraceInParts(table.State(), plan, desired, owned, table.storage, table.history);
    BatchesAsOne(UpdateAll(table.rows, plan.updates, table.storage), plan, desired, table.next, table.storage);
    WriteUpdates(table, plan.updates, owned);
    ids := WriteInserts(table, plan.matched, desired);
    if plan.deletes != [] {
      table.Delete(plan.deletes);
    }
  }

  /** The update statement, when there is anything to write. */
  method WriteUpdates(table: SqlTable, updates: seq<(Id, Row)>, owned: seq<Column>)
    requires table.Valid() && forall u :: u in updates ==> u.1.Keys == set c | c in owned
    modifies table
    ensures table.Valid() && table.next == old(table.next)
    ensures table.rows == UpdateAll(old(table.rows), updates, table.storage)
    ensures table.history == old(table.history)
         + if owned == [] || updates == [] then [] else UpdateTrace(old(table.rows), updates, table.storage)
  {
    UpdateAllFrame(table.rows, updates, table.storage);
    if owned != [] && updates != [] {
      table.Update(owned, updates);
    } else {
      EmptyUpdates(table.rows, updates, table.storage);
    }
  }

  /** Draw an id for every missing row, and insert the missing rows batch by batch. */
  method WriteInserts(table: SqlTable, matched: seq<Option<Id>>, desired: seq<Row>) returns (ids: seq<Id>)
    requires table.Valid() && |matched| == |desired|
    modifies table
    ensures ids == AssignIds(matched, old(table.next))
    ensures table.next == old(table.next) + |Missing(matched)|
    ensures var batch := BatchOrder(News(matched, old(table.next), desired));
            && table.rows == InsertAll(old(table.rows), batch, table.storage)
            && table.history == old(table.history) + InsertTrace(old(table.rows), batch, table.storage)
  {
    hide InsertAll, InsertTrace, BatchOrder, News, AssignIds;
    ghost var db := table.State();
    var missing := MissingPlaces(matched);
    var drawn: seq<Id> := [];
    if missing != [] {
      drawn := table.Allocate(|missing|);
    }
    ids := FillIds(matched, missing, drawn, db.next);
    var news := NewRows(matched, missing, ids, desired, db);
    NewsAreBeyond(news, table.rows, db);
    InsertBatches(table, news);
  }

  /** The states an apply passes through, statement by statement. */
  lemma TraceInParts(db: Db, plan: Plan, desired: seq<Row>, owned: seq<Column>, storage: Storage,
                     history: seq<Contents>)
    requires |plan.matched| == |desired|
    ensures var batch := BatchOrder(News(plan.matched, db.next, desired));
            var updated := UpdateAll(db.rows, plan.updates, storage);
            var written := UpdateTrace(db.rows, plan.updates, storage);
            var afterUpdates := history + if owned == [] || plan.updates == [] then [] else written;
            var afterInserts := afterUpdates + InsertTrace(updated, batch, storage);
            history + ApplyTrace(db, plan, desired, owned, storage) ==
            if plan.deletes == [] then afterInserts
            else afterInserts + [DeleteAll(InsertAll(updated, batch, storage), plan.deletes)]
  {
    assert plan.updates == [] ==> UpdateTrace(db.rows, plan.updates, storage) == [];
    hide UpdateAll, InsertAll, UpdateTrace, InsertTrace, DeleteAll, BatchOrder, News;
    var batch := BatchOrder(News(plan.matched, db.next, desired));
    var updated := UpdateAll(db.rows, plan.updates, storage);
    AppendInTurn(history,
                 if owned == [] then [] else UpdateTrace(db.rows, plan.updates, storage),
                 InsertTrace(updated, batch, storage),
                 if plan.deletes == [] then [] else [DeleteAll(InsertAll(updated, batch, storage), plan.deletes)]);
  }

  lemma AppendInTurn<T>(a: seq<T>, b: seq<T>, c: seq<T>, d: seq<T>)
    ensures a + (b + c + d) == a + b + c + d && a + b + c + [] == a + b + c
  {
  }

  /** Inserting in batches is inserting one by one, and deleting nothing changes nothing. */
  lemma BatchesAsOne(rows: Contents, plan: Plan, desired: seq<Row>, next: Id, storage: Storage)
    requires |plan.matched| == |desired|
    ensures var news := News(plan.matched, next, desired);
            var inserted := InsertAll(rows, BatchOrder(news), storage);
            inserted == InsertAll(rows, news, storage) && DeleteAll(inserted, []) == inserted
  {
    NewsAreNew(plan.matched, next, desired);
    BatchingEqualsOneByOne(rows, News(plan.matched, next, desired), storage);
  }

  lemma NewsAreBeyond(news: seq<Stored>, rows: Contents, db: Db)
    requires SequenceAhead(db) && rows.Keys == db.rows.Keys
    requires forall row :: row in news ==> row.id >= db.next
    ensures Beyond(news, rows)
  {
  }

  /** The rows to insert: the desired row at each missing place, under the id drawn for it. */
  method NewRows(matched: seq<Option<Id>>, missing: seq<nat>, ids: seq<Id>, desired: seq<Row>, ghost db: Db)
    returns (news: seq<Stored>)
    requires |matched| == |desired| && missing == Missing(matched) && ids == AssignIds(matched, db.next)
    ensures news == News(matched, db.next, desired)
    ensures DistinctIds(news) && forall row :: row in news ==> row.id >= db.next
  {
    PositionsAreRanked(matched, None);
    news := seq(|missing|, j requires 0 <= j < |missing| => Stored(ids[missing[j]], desired[missing[j]]));
  }
}

/** Reconciling one group, and many groups at once. */
module Reconciling {
  import opened Occurrences
  import opened Wrappers
  import opened Rows
  import opened Planning
  import opened Tables
  import opened TableLaws
  import opened Applying
  import opened PlanningLaws

  /** One call's rows: those stored in its scope, and those it should hold. */
  datatype Group = Group(existing: seq<Stored>, desired: seq<Row>)
  datatype Outcome = Outcome(plan: Plan, ids: seq<Id>)

  method Reconcile(table: SqlTable, existing: seq<Stored>, desired: seq<Row>, spec: Spec)
    returns (plan: Plan, ids: seq<Id>)
    requires table.Valid()
    modifies table
    ensures plan == PlanOf(existing, desired, spec)
    ensures |plan.matched| == |desired|
    ensures table.State() == ApplyPlan(old(table.State()), plan, desired, table.storage)
    ensures ids == AssignIds(plan.matched, old(table.next))
    ensures table.history ==
            old(table.history) + ApplyTrace(old(table.State()), plan, desired, spec.owned, table.storage)
  {
    plan := PlanReconciliation(existing, desired, spec);
    PlanShape(existing, desired, spec);
    ids := ApplyReconciliation(table, plan, desired, spec.owned);
  }

  /** A plan answers for every desired row, and its updates set exactly the owned columns. */
  lemma PlanShape(existing: seq<Stored>, desired: seq<Row>, spec: Spec)
    ensures |PlanOf(existing, desired, spec).matched| == |desired|
    ensures forall u :: u in PlanOf(existing, desired, spec).updates ==> u.1.Keys == set c | c in spec.owned
  {
    DecideShape(Partners(existing, desired, spec.key), desired, spec);
  }

  lemma {:induction false} DecideShape(partners: seq<Option<Stored>>, desired: seq<Row>, spec: Spec)
    requires |partners| == |desired|
    ensures |Decide(partners, desired, spec).matched| == |desired|
    ensures forall u :: u in Decide(partners, desired, spec).updates ==> u.1.Keys == set c | c in spec.owned
  {
    if partners != [] {
      var n := |partners| - 1;
      DecideShape(partners[..n], desired[..n], spec);
      assert OwnedValues(desired[n], spec).Keys == set c | c in spec.owned;
    }
  }

  // ---- many groups, written at once ----

  function Append(a: Plan, b: Plan): Plan {
    Plan(a.updates + b.updates, a.inserts + b.inserts, a.deletes + b.deletes, a.kept + b.kept, a.matched + b.matched)
  }

  function PlanGroup(group: Group, spec: Spec): (plan: Plan)
    ensures |plan.matched| == |group.desired|
  {
    PlanShape(group.existing, group.desired, spec);
    PlanOf(group.existing, group.desired, spec)
  }

  function AllDesired(groups: seq<Group>): seq<Row> {
    if groups == [] then [] else AllDesired(groups[..|groups| - 1]) + groups[|groups| - 1].desired
  }

  function MergedPlan(groups: seq<Group>, spec: Spec): (plan: Plan)
    ensures |plan.matched| == |AllDesired(groups)|
  {
    if groups == [] then EMPTY_PLAN
    else Append(MergedPlan(groups[..|groups| - 1], spec), PlanGroup(groups[|groups| - 1], spec))
  }

  /** The ids of all groups cut back to the groups they belong to. */
  function SliceBack(groups: seq<Group>, spec: Spec, ids: seq<Id>): seq<Outcome>
    requires |ids| == |AllDesired(groups)|
  {
    if groups == [] then []
    else
      var init, last := groups[..|groups| - 1], groups[|groups| - 1];
      var start := |AllDesired(init)|;
      SliceBack(init, spec, ids[..start]) + [Outcome(PlanGroup(last, spec), ids[start..])]
  }

  method ReconcileGroups(table: SqlTable, groups: seq<Group>, spec: Spec) returns (results: seq<Outcome>)
    requires table.Valid()
    modifies table
    ensures table.State() == ApplyPlan(old(table.State()), MergedPlan(groups, spec), AllDesired(groups), table.storage)
    ensures results == SliceBack(groups, spec, AssignIds(MergedPlan(groups, spec).matched, old(table.next)))
    ensures table.history == old(table.history)
         + ApplyTrace(old(table.State()), MergedPlan(groups, spec), AllDesired(groups), spec.owned, table.storage)
  {
    hide ApplyPlan, ApplyTrace, SliceBack, AssignIds, PlanOf;
    var plans: seq<Plan> := [];
    for i := 0 to |groups|
      invariant unchanged(table)
      invariant |plans| == i && forall j :: 0 <= j < i ==> plans[j] == PlanGroup(groups[j], spec)
    {
      var plan := PlanReconciliation(groups[i].existing, groups[i].desired, spec);
      plans := plans + [plan];
    }
    var merged, allDesired := EMPTY_PLAN, [];
    for i := 0 to |groups|
      invariant unchanged(table)
      invariant merged == MergedPlan(groups[..i], spec) && allDesired == AllDesired(groups[..i])
    {
      assert groups[..i + 1][..i] == groups[..i];
      merged := Append(merged, plans[i]);
      allDesired := allDesired + groups[i].desired;
    }
    assert groups[..|groups|] == groups;
    MergedShape(groups, spec);
    var ids := ApplyReconciliation(table, merged, allDesired, spec.owned);
    results := CutResults(groups, spec, plans, ids);
  }

  method CutResults(groups: seq<Group>, spec: Spec, plans: seq<Plan>, ids: seq<Id>) returns (results: seq<Outcome>)
    requires |ids| == |AllDesired(groups)|
    requires |plans| == |groups| && forall j :: 0 <= j < |groups| ==> plans[j] == PlanGroup(groups[j], spec)
    ensures results == SliceBack(groups, spec, ids)
  {
    hide SliceBack, AllDesired, PlanGroup;
    results := [];
    var start := 0;
    NothingCut(groups, spec, ids);
    for i := 0 to |groups|
      invariant start == |AllDesired(groups[..i])| <= |ids|
      invariant results == SliceBack(groups[..i], spec, ids[..start])
    {
      CutStep(groups, spec, ids, i);
      var end := start + |groups[i].desired|;
      results := results + [Outcome(plans[i], ids[start..end])];
      start := end;
    }
    assert groups[..|groups|] == groups;
    assert ids[..start] == ids;
  }

  lemma NothingCut(groups: seq<Group>, spec: Spec, ids: seq<Id>)
    ensures AllDesired(groups[..0]) == [] && SliceBack(groups[..0], spec, ids[..0]) == []
  {
  }

  lemma CutStep(groups: seq<Group>, spec: Spec, ids: seq<Id>, i: nat)
    requires i < |groups| && |ids| == |AllDesired(groups)|
    ensures var start, end := |AllDesired(groups[..i])|, |AllDesired(groups[..i + 1])|;
            && start <= end == start + |groups[i].desired| <= |ids|
            && SliceBack(groups[..i + 1], spec, ids[..end])
            == SliceBack(groups[..i], spec, ids[..start]) + [Outcome(PlanGroup(groups[i], spec), ids[start..end])]
  {
    assert groups[..i + 1][..i] == groups[..i];
    AllDesiredPrefix(groups, i + 1);
    var start, end := |AllDesired(groups[..i])|, |AllDesired(groups[..i + 1])|;
    assert ids[..end][..start] == ids[..start];
    assert ids[..end][start..] == ids[start..end];
  }

  lemma {:induction false} AllDesiredPrefix(groups: seq<Group>, i: nat)
    requires i <= |groups|
    ensures |AllDesired(groups[..i])| <= |AllDesired(groups)|
  {
    if i == |groups| {
      assert groups[..i] == groups;
    } else {
      assert groups[..|groups| - 1][..i] == groups[..i];
      AllDesiredPrefix(groups[..|groups| - 1], i);
    }
  }

  lemma {:induction false} MergedShape(groups: seq<Group>, spec: Spec)
    ensures forall u :: u in MergedPlan(groups, spec).updates ==> u.1.Keys == set c | c in spec.owned
  {
    if groups != [] {
      var init, last := groups[..|groups| - 1], groups[|groups| - 1];
      MergedShape(init, spec);
      PlanShape(last.existing, last.desired, spec);
    }
  }

  lemma PlacesTogether(a: seq<Row>, b: seq<Row>, ma: seq<Option<Id>>, mb: seq<Option<Id>>)
    requires |a| == |ma| && |b| == |mb|
    ensures At(a + b, Positions(ma + mb, None)) == At(a, Positions(ma, None)) + At(b, Positions(mb, None))
  {
    PositionsAppend(ma, mb, None);
  }

  /** The merged plan inserts the rows of all groups that have no match, in order. */
  lemma {:induction false} MergedInserts(groups: seq<Group>, spec: Spec)
    ensures var merged := MergedPlan(groups, spec);
            merged.inserts == At(AllDesired(groups), Positions(merged.matched, None))
  {
    if groups != [] {
      var init, last := groups[..|groups| - 1], groups[|groups| - 1];
      MergedInserts(init, spec);
      DecideInserts(Partners(last.existing, last.desired, spec.key), last.desired, spec);
      PlacesTogether(AllDesired(init), last.desired, MergedPlan(init, spec).matched, PlanGroup(last, spec).matched);
      hide PlanOf, At, Positions, Partner, Decide;
    }
  }

  ghost predicate GroupCalls(groups: seq<Group>, spec: Spec, d: Decision) {
    exists i :: 0 <= i < |groups| && Calls(PlanGroup(groups[i], spec), d)
  }

  ghost predicate GroupDeletes(groups: seq<Group>, spec: Spec, id: Id) {
    exists i :: 0 <= i < |groups| && id in PlanGroup(groups[i], spec).deletes
  }

  lemma GroupOneMore(init: seq<Group>, last: Group, spec: Spec, d: Decision, id: Id)
    ensures GroupCalls(init + [last], spec, d) <==> GroupCalls(init, spec, d) || Calls(PlanGroup(last, spec), d)
    ensures GroupDeletes(init + [last], spec, id) <==>
              GroupDeletes(init, spec, id) || id in PlanGroup(last, spec).deletes
  {
    hide Calls, PlanGroup;
    var groups := init + [last];
    assert groups[|init|] == last && forall i :: 0 <= i < |init| ==> groups[i] == init[i];
  }

  lemma CallsAppend(a: Plan, b: Plan, d: Decision)
    ensures Calls(Append(a, b), d) <==> Calls(a, d) || Calls(b, d)
  {
  }

  /** The merged plan calls for what the plan of some group calls for, and for nothing else. */
  lemma {:induction false} MergedPlanExactly(groups: seq<Group>, spec: Spec, d: Decision, id: Id)
    ensures Calls(MergedPlan(groups, spec), d) <==> GroupCalls(groups, spec, d)
    ensures id in MergedPlan(groups, spec).deletes <==> GroupDeletes(groups, spec, id)
  {
    hide Calls, PlanGroup;
    if groups == [] {
      NoCalls(d);
    } else {
      var init, last := groups[..|groups| - 1], groups[|groups| - 1];
      assert groups == init + [last];
      MergedPlanExactly(init, spec, d, id);
      GroupOneMore(init, last, spec, d, id);
      CallsAppend(MergedPlan(init, spec), PlanGroup(last, spec), d);
      hide GroupCalls, GroupDeletes;
    }
  }

  lemma NoCalls(d: Decision)
    ensures !Calls(EMPTY_PLAN, d)
  {
  }

  // ---- the same groups, one after another ----

  /** `Reconcile` on each group in turn: the contents left, and what each call returned. */
  ghost function RunInTurn(db: Db, groups: seq<Group>, spec: Spec, storage: Storage): (Db, seq<Outcome>) {
    if groups == [] then (db, [])
    else
      var (before, results) := RunInTurn(db, groups[..|groups| - 1], spec, storage);
      var group := groups[|groups| - 1];
      var plan := PlanGroup(group, spec);
      (ApplyPlan(before, plan, group.desired, storage), results + [Outcome(plan, AssignIds(plan.matched, before.next))])
  }

  /** Every id a plan updates or deletes is one the sequence has passed. */
  ghost predicate Below(plan: Plan, next: Id) {
    && (forall u :: u in plan.updates ==> u.0 < next)
    && (forall id :: id in plan.deletes ==> id < next)
  }

  lemma {:induction false} CountAppend<K>(a: seq<K>, b: seq<K>, k: K)
    ensures Count(a + b, k) == Count(a, k) + Count(b, k)
  {
    if b == [] {
      assert a + b == a;
    } else {
      assert (a + b)[..|a + b| - 1] == a + b[..|b| - 1];
      CountAppend(a, b[..|b| - 1], k);
    }
  }

  lemma AssignIdsAppend(a: seq<Option<Id>>, b: seq<Option<Id>>, next: Id)
    ensures |Missing(a + b)| == |Missing(a)| + |Missing(b)|
    ensures AssignIds(a + b, next) == AssignIds(a, next) + AssignIds(b, next + |Missing(a)|)
  {
    CountAppend(a, b, None);
    forall i | 0 <= i < |a + b| && (a + b)[i].None?
      ensures AssignIds(a + b, next)[i] == (AssignIds(a, next) + AssignIds(b, next + |Missing(a)|))[i]
    {
      if i < |a| {
        assert (a + b)[..i] == a[..i];
      } else {
        assert (a + b)[..i] == a + b[..i - |a|];
        CountAppend(a, b[..i - |a|], None);
      }
    }
  }

  lemma NewsAppend(a: seq<Option<Id>>, b: seq<Option<Id>>, next: Id, da: seq<Row>, db: seq<Row>)
    requires |a| == |da| && |b| == |db|
    ensures News(a + b, next, da + db) == News(a, next, da) + News(b, next + |Missing(a)|, db)
  {
    PositionsAppend(a, b, None);
  }

  lemma {:induction false} PositionsAppend<K>(a: seq<K>, b: seq<K>, k: K)
    ensures Positions(a + b, k) ==
            Positions(a, k) + seq(|Positions(b, k)|, j requires 0 <= j < |Positions(b, k)| => |a| + Positions(b, k)[j])
  {
    if b == [] {
      assert a + b == a;
    } else {
      assert (a + b)[..|a + b| - 1] == a + b[..|b| - 1];
      PositionsAppend(a, b[..|b| - 1], k);
    }
  }

  // Writes to different rows commute, so the writes of two groups can be merged.

  lemma {:induction false} UpdateDeleteCommute(rows: Contents, updates: seq<(Id, Row)>, ids: seq<Id>, storage: Storage)
    ensures UpdateAll(DeleteAll(rows, ids), updates, storage) == DeleteAll(UpdateAll(rows, updates, storage), ids)
  {
    if updates != [] {
      UpdateDeleteCommute(rows, updates[..|updates| - 1], ids, storage);
    }
  }

  lemma {:induction false} UpdateInsertRowCommute(rows: Contents, updates: seq<(Id, Row)>, row: Stored,
                                                  storage: Storage)
    requires forall u :: u in updates ==> u.0 != row.id
    ensures UpdateAll(InsertRow(rows, row, storage), updates, storage)
         == InsertRow(UpdateAll(rows, updates, storage), row, storage)
  {
    if updates != [] {
      var n := |updates| - 1;
      assert updates == updates[..n] + [updates[n]];
      UpdateInsertRowCommute(rows, updates[..n], row, storage);
      UpdateInsertCommuteOnce(UpdateAll(rows, updates[..n], storage), updates[n], row, storage);
    }
  }

  lemma UpdateInsertCommuteOnce(rows: Contents, update: (Id, Row), row: Stored, storage: Storage)
    requires update.0 != row.id
    ensures UpdateRow(InsertRow(rows, row, storage), update, storage) ==
            InsertRow(UpdateRow(rows, update, storage), row, storage)
  {
  }

  lemma {:induction false} UpdateInsertCommute(rows: Contents, updates: seq<(Id, Row)>, news: seq<Stored>,
                                               storage: Storage)
    requires forall u, row :: u in updates && row in news ==> u.0 != row.id
    ensures UpdateAll(InsertAll(rows, news, storage), updates, storage)
         == InsertAll(UpdateAll(rows, updates, storage), news, storage)
  {
    if news != [] {
      var n := |news| - 1;
      assert news == news[..n] + [news[n]];
      UpdateInsertCommute(rows, updates, news[..n], storage);
      UpdateInsertRowCommute(InsertAll(rows, news[..n], storage), updates, news[n], storage);
    }
  }

  lemma {:induction false} InsertDeleteCommute(rows: Contents, news: seq<Stored>, ids: seq<Id>, storage: Storage)
    requires forall row :: row in news ==> row.id !in ids
    ensures InsertAll(DeleteAll(rows, ids), news, storage) == DeleteAll(InsertAll(rows, news, storage), ids)
  {
    if news != [] {
      var n := |news| - 1;
      assert news == news[..n] + [news[n]];
      InsertDeleteCommute(rows, news[..n], ids, storage);
      InsertDeleteCommuteOnce(InsertAll(rows, news[..n], storage), news[n], ids, storage);
    }
  }

  lemma InsertDeleteCommuteOnce(rows: Contents, row: Stored, ids: seq<Id>, storage: Storage)
    requires row.id !in ids
    ensures InsertRow(DeleteAll(rows, ids), row, storage) == DeleteAll(InsertRow(rows, row, storage), ids)
  {
  }

  /** Two plans applied one after the other equal the two merged and applied at once. */
  lemma MergingIsSequencing(db: Db, a: Plan, rowsA: seq<Row>, b: Plan, rowsB: seq<Row>, storage: Storage)
    requires |a.matched| == |rowsA| && |b.matched| == |rowsB|
    requires Below(a, db.next) && Below(b, db.next)
    ensures ApplyPlan(ApplyPlan(db, a, rowsA, storage), b, rowsB, storage) ==
            ApplyPlan(db, Append(a, b), rowsA + rowsB, storage)
  {
    hide UpdateAll, InsertAll, DeleteAll, News, Missing;
    var next := db.next + |Missing(a.matched)|;
    var na, nb := News(a.matched, db.next, rowsA), News(b.matched, next, rowsB);
    NewsAreNew(a.matched, db.next, rowsA);
    NewsAreNew(b.matched, next, rowsB);
    var r1 := UpdateAll(db.rows, a.updates, storage);
    var r2 := InsertAll(r1, na, storage);
    calc {
      InsertAll(UpdateAll(DeleteAll(r2, a.deletes), b.updates, storage), nb, storage);
      { UpdateDeleteCommute(r2, b.updates, a.deletes, storage); }
      InsertAll(DeleteAll(UpdateAll(r2, b.updates, storage), a.deletes), nb, storage);
      { InsertDeleteCommute(UpdateAll(r2, b.updates, storage), nb, a.deletes, storage); }
      DeleteAll(InsertAll(UpdateAll(r2, b.updates, storage), nb, storage), a.deletes);
      { UpdateInsertCommute(r1, b.updates, na, storage); }
      DeleteAll(InsertAll(InsertAll(UpdateAll(r1, b.updates, storage), na, storage), nb, storage), a.deletes);
      { UpdateAllAppend(db.rows, a.updates, b.updates, storage);
        InsertAllAppend(UpdateAll(r1, b.updates, storage), na, nb, storage); }
      DeleteAll(InsertAll(UpdateAll(db.rows, a.updates + b.updates, storage), na + nb, storage), a.deletes);
    }
    NewsAppend(a.matched, b.matched, db.next, rowsA, rowsB);
    AssignIdsAppend(a.matched, b.matched, db.next);
    var r3 := InsertAll(UpdateAll(db.rows, a.updates + b.updates, storage), na + nb, storage);
    DeleteAllAppend(r3, a.deletes, b.deletes);
  }

  lemma DeleteAllAppend(rows: Contents, a: seq<Id>, b: seq<Id>)
    ensures DeleteAll(DeleteAll(rows, a), b) == DeleteAll(rows, a + b)
  {
  }

  /** Writing all groups at once is reconciling them in turn: the same table, the same plans, the same ids. */
  lemma {:induction false} GroupsRefineInTurn(db: Db, groups: seq<Group>, spec: Spec, storage: Storage)
    requires forall g, row :: g in groups && row in g.existing ==> row.id < db.next
    ensures var plan := MergedPlan(groups, spec);
            && ApplyPlan(db, plan, AllDesired(groups), storage) == RunInTurn(db, groups, spec, storage).0
            && SliceBack(groups, spec, AssignIds(plan.matched, db.next)) == RunInTurn(db, groups, spec, storage).1
            && Below(plan, db.next)
  {
    if groups == [] {
      assert DeleteAll(db.rows, []) == db.rows;
    } else {
      var init, last := groups[..|groups| - 1], groups[|groups| - 1];
      assert groups == init + [last];
      GroupsRefineInTurn(db, init, spec, storage);
      var a, b := MergedPlan(init, spec), PlanGroup(last, spec);
      PlanIsBelow(last, spec, db.next);
      RefineStep(db, a, AllDesired(init), b, last.desired, storage);
    }
  }

  lemma RefineStep(db: Db, a: Plan, rowsA: seq<Row>, b: Plan, rowsB: seq<Row>, storage: Storage)
    requires |a.matched| == |rowsA| && |b.matched| == |rowsB|
    requires Below(a, db.next) && Below(b, db.next)
    ensures Below(Append(a, b), db.next)
    ensures ApplyPlan(ApplyPlan(db, a, rowsA, storage), b, rowsB, storage) ==
            ApplyPlan(db, Append(a, b), rowsA + rowsB, storage)
    ensures var ids := AssignIds(Append(a, b).matched, db.next);
            && ids[..|rowsA|] == AssignIds(a.matched, db.next)
            && ids[|rowsA|..] == AssignIds(b.matched, ApplyPlan(db, a, rowsA, storage).next)
  {
    MergingIsSequencing(db, a, rowsA, b, rowsB, storage);
    AssignIdsAppend(a.matched, b.matched, db.next);
  }

  /** A plan updates and deletes only rows it was given. */
  lemma PlanIsBelow(group: Group, spec: Spec, next: Id)
    requires forall row :: row in group.existing ==> row.id < next
    ensures Below(PlanGroup(group, spec), next)
  {
    var plan := PlanGroup(group, spec);
    forall id | id in Ids(group.existing) ensures id < next {
      var j :| 0 <= j < |group.existing| && group.existing[j].id == id;
      assert group.existing[j] in group.existing;
    }
    forall u | u in plan.updates ensures u.0 < next {
      var j :| 0 <= j < |plan.updates| && plan.updates[j] == u;
      assert UpdateIds(plan.updates)[j] == u.0;
      UpdatedIsStored(group.existing, group.desired, spec, u.0);
    }
    forall id | id in plan.deletes ensures id < next {
      DeletedIsStored(group.existing, group.desired, spec, id);
    }
  }
}
