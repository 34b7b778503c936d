/** Reconciling many groups again: what the groups find of themselves after all of them were written. */
module GroupConvergence {
  import opened Wrappers
  import opened Rows
  import opened Planning
  import opened Tables
  import opened Reconciling
  import opened ReconciliationLaws

  /** No row is of two scopes. */
  ghost predicate DisjointScopes(scopes: seq<Row -> bool>) {
    forall i, j :: 0 <= i < |scopes| && 0 <= j < |scopes| && i != j ==> Disjoint(scopes[i], scopes[j])
  }

  ghost predicate Disjoint(scope: Row -> bool, other: Row -> bool) {
    forall row :: scope(row) ==> !other(row)
  }

  /** Each group was read from its own scope, and its desired rows belong there. */
  ghost predicate GroupsRead(db: Db, groups: seq<Group>, scopes: seq<Row -> bool>, spec: Spec, storage: Storage) {
    && SequenceAhead(db) && |groups| == |scopes| && DisjointScopes(scopes)
    && (forall i :: 0 <= i < |groups| ==> Scan(groups[i].existing, db.rows, scopes[i]))
    && (forall i :: 0 <= i < |groups| ==> Settled(groups[i].desired, spec, storage, scopes[i]))
  }

  /** The two tables hold the same rows of the scope. */
  ghost predicate SameIn(scope: Row -> bool, a: Contents, b: Contents) {
    forall id :: (InScope(scope, a, id) <==> InScope(scope, b, id)) && (InScope(scope, a, id) ==> a[id] == b[id])
  }

  lemma ScanFrame(scope: Row -> bool, a: Contents, b: Contents, read: seq<Stored>)
    requires SameIn(scope, a, b)
    ensures Scan(read, a, scope) <==> Scan(read, b, scope)
  {
  }

  lemma SameInItself(scope: Row -> bool, a: Contents)
    ensures SameIn(scope, a, a)
  {
  }

  lemma ScopesAsMany(db: Db, groups: seq<Group>, scopes: seq<Row -> bool>, spec: Spec, storage: Storage)
    requires GroupsRead(db, groups, scopes, spec, storage)
    ensures |groups| == |scopes|
  {
    hide Scan, Settled;
  }

  lemma SameInTransitive(scope: Row -> bool, a: Contents, b: Contents, c: Contents)
    requires SameIn(scope, a, b) && SameIn(scope, b, c)
    ensures SameIn(scope, a, c)
  {
  }

  /** Reconciling a group leaves every scope apart from its own as it was. */
  lemma OtherScopeIsUntouched(db: Db, group: Group, scope: Row -> bool, other: Row -> bool, spec: Spec,
                              storage: Storage)
    requires SequenceAhead(db) && Scan(group.existing, db.rows, scope)
    requires Settled(group.desired, spec, storage, scope) && Disjoint(scope, other)
    ensures var after := Reconciled(db, group.existing, group.desired, spec, storage);
            SequenceAhead(after) && SameIn(other, db.rows, after.rows)
  {
    hide Reconciled, Settled;
    var after := Reconciled(db, group.existing, group.desired, spec, storage);
    StaysAhead(db, group.existing, group.desired, spec, storage);
    forall id
      ensures InScope(other, db.rows, id) <==> InScope(other, after.rows, id)
      ensures InScope(other, db.rows, id) ==> db.rows[id] == after.rows[id]
    {
      OtherRowIsUntouched(db, group, scope, other, spec, storage, id);
    }
  }

  lemma OtherRowIsUntouched(db: Db, group: Group, scope: Row -> bool, other: Row -> bool, spec: Spec, storage: Storage,
                            id: Id)
    requires SequenceAhead(db) && Scan(group.existing, db.rows, scope)
    requires Settled(group.desired, spec, storage, scope) && Disjoint(scope, other)
    ensures var after := Reconciled(db, group.existing, group.desired, spec, storage);
            && (InScope(other, db.rows, id) <==> InScope(other, after.rows, id))
            && (InScope(other, db.rows, id) ==> db.rows[id] == after.rows[id])
  {
    hide Reconciled, Settled, IdsOf;
    var after := Reconciled(db, group.existing, group.desired, spec, storage);
    ScanIsReadFrom(group.existing, db.rows, scope);
    RestIsUntouched(db, group.existing, group.desired, spec, storage, id);
    ScopeIsReturnedIds(db, group.existing, group.desired, spec, storage, scope, id);
    if id in Ids(group.existing) {
      var p :| 0 <= p < |group.existing| && group.existing[p].id == id;
      assert group.existing[p] in group.existing;
    }
  }

  /** The table after the first groups. */
  ghost function DbAfter(db: Db, groups: seq<Group>, n: nat, spec: Spec, storage: Storage): Db
    requires n <= |groups|
  {
    RunInTurn(db, groups[..n], spec, storage).0
  }

  lemma AfterOneMore(db: Db, groups: seq<Group>, n: nat, spec: Spec, storage: Storage)
    requires n < |groups|
    ensures DbAfter(db, groups, n + 1, spec, storage) ==
            Reconciled(DbAfter(db, groups, n, spec, storage), groups[n].existing, groups[n].desired, spec, storage)
  {
    assert groups[..n + 1][..n] == groups[..n];
  }

  lemma AfterNone(db: Db, groups: seq<Group>, spec: Spec, storage: Storage)
    ensures DbAfter(db, groups, 0, spec, storage) == db
  {
  }

  /** One group more leaves the scopes of all others as they were. */
  lemma NextGroupKeepsScope(db: Db, groups: seq<Group>, scopes: seq<Row -> bool>, spec: Spec, storage: Storage,
                            n: nat, j: nat)
    requires GroupsRead(db, groups, scopes, spec, storage) && n < |groups| && j < |groups| && j != n
    requires var now := DbAfter(db, groups, n, spec, storage);
             SequenceAhead(now) && Scan(groups[n].existing, now.rows, scopes[n])
    ensures var now, next := DbAfter(db, groups, n, spec, storage), DbAfter(db, groups, n + 1, spec, storage);
            SameIn(scopes[j], now.rows, next.rows)
  {
    hide Reconciled, Settled, Scan, DbAfter, SameIn;
    AfterOneMore(db, groups, n, spec, storage);
    OtherScopeIsUntouched(DbAfter(db, groups, n, spec, storage), groups[n], scopes[n], scopes[j], spec, storage);
  }

  /** Rows of no group's scope stay as they were, and none is added. */
  lemma {:induction false} OutsideIsUntouched(db: Db, groups: seq<Group>, scopes: seq<Row -> bool>,
                                              other: Row -> bool, spec: Spec, storage: Storage, n: nat)
    requires GroupsRead(db, groups, scopes, spec, storage) && n <= |groups|
    requires forall i :: 0 <= i < |scopes| ==> Disjoint(scopes[i], other)
    ensures SameIn(other, db.rows, DbAfter(db, groups, n, spec, storage).rows)
  {
    AfterNone(db, groups, spec, storage);
    SameInItself(other, db.rows);
    hide Reconciled, Settled, Scan, DbAfter, SameIn, Disjoint;
    if n > 0 {
      var before, now := DbAfter(db, groups, n - 1, spec, storage), DbAfter(db, groups, n, spec, storage);
      OutsideIsUntouched(db, groups, scopes, other, spec, storage, n - 1);
      GroupIsRead(db, groups, scopes, spec, storage, n - 1);
      AfterOneMore(db, groups, n - 1, spec, storage);
      OtherScopeIsUntouched(before, groups[n - 1], scopes[n - 1], other, spec, storage);
      SameInTransitive(other, db.rows, before.rows, now.rows);
    }
  }

  /** The groups that come first leave the scopes of later ones as they were. */
  lemma {:induction false} FirstGroupsKeepScope(db: Db, groups: seq<Group>, scopes: seq<Row -> bool>, spec: Spec,
                                                storage: Storage, n: nat, j: nat)
    requires GroupsRead(db, groups, scopes, spec, storage) && n <= j < |groups|
    ensures SequenceAhead(DbAfter(db, groups, n, spec, storage))
    ensures SameIn(scopes[j], db.rows, DbAfter(db, groups, n, spec, storage).rows)
    decreases n, 0
  {
    AfterNone(db, groups, spec, storage);
    hide Reconciled, Settled, Scan, DbAfter;
    if n > 0 {
      var before, now := DbAfter(db, groups, n - 1, spec, storage), DbAfter(db, groups, n, spec, storage);
      GroupIsRead(db, groups, scopes, spec, storage, n - 1);
      FirstGroupsKeepScope(db, groups, scopes, spec, storage, n - 1, j);
      NextGroupKeepsScope(db, groups, scopes, spec, storage, n - 1, j);
      SameInTransitive(scopes[j], db.rows, before.rows, now.rows);
      AfterOneMore(db, groups, n - 1, spec, storage);
      StaysAhead(before, groups[n - 1].existing, groups[n - 1].desired, spec, storage);
    }
  }

  /** When its turn comes, a group is still as it was read. */
  lemma {:induction false} GroupIsRead(db: Db, groups: seq<Group>, scopes: seq<Row -> bool>, spec: Spec,
                                       storage: Storage, n: nat)
    requires GroupsRead(db, groups, scopes, spec, storage) && n < |groups|
    ensures var now := DbAfter(db, groups, n, spec, storage);
            SequenceAhead(now) && Scan(groups[n].existing, now.rows, scopes[n])
    decreases n, 1
  {
    hide Reconciled, Settled, Scan, DbAfter, SameIn;
    FirstGroupsKeepScope(db, groups, scopes, spec, storage, n, n);
    ScanFrame(scopes[n], db.rows, DbAfter(db, groups, n, spec, storage).rows, groups[n].existing);
  }

  /** The groups that come later leave the scope of an earlier one as it was left. */
  lemma {:induction false} LaterGroupsKeepScope(db: Db, groups: seq<Group>, scopes: seq<Row -> bool>, spec: Spec,
                                                storage: Storage, i: nat, n: nat)
    requires GroupsRead(db, groups, scopes, spec, storage) && i < n <= |groups|
    ensures var left, now := DbAfter(db, groups, i + 1, spec, storage), DbAfter(db, groups, n, spec, storage);
            SameIn(scopes[i], left.rows, now.rows)
    decreases n
  {
    hide Reconciled, Settled, Scan, DbAfter, SameIn, GroupsRead;
    ScopesAsMany(db, groups, scopes, spec, storage);
    if n > i + 1 {
      GroupIsRead(db, groups, scopes, spec, storage, n - 1);
      LaterGroupsKeepScope(db, groups, scopes, spec, storage, i, n - 1);
      NextGroupKeepsScope(db, groups, scopes, spec, storage, n - 1, i);
      SameInTransitive(scopes[i], DbAfter(db, groups, i + 1, spec, storage).rows,
                       DbAfter(db, groups, n - 1, spec, storage).rows, DbAfter(db, groups, n, spec, storage).rows);
    } else {
      SameInItself(scopes[i], DbAfter(db, groups, n, spec, storage).rows);
    }
  }

  /** What a group finds of itself in the end is what it left when its turn was over. */
  lemma {:induction false} GroupFindsItself(db: Db, groups: seq<Group>, scopes: seq<Row -> bool>, spec: Spec,
                                            storage: Storage, i: nat, again: seq<Stored>)
    requires GroupsRead(db, groups, scopes, spec, storage) && i < |groups|
    requires Scan(again, RunInTurn(db, groups, spec, storage).0.rows, scopes[i])
    ensures var before := DbAfter(db, groups, i, spec, storage);
            && SequenceAhead(before) && Scan(groups[i].existing, before.rows, scopes[i])
            && Scan(again, Reconciled(before, groups[i].existing, groups[i].desired, spec, storage).rows, scopes[i])
  {
    assert groups[..|groups|] == groups;
    assert DbAfter(db, groups, |groups|, spec, storage) == RunInTurn(db, groups, spec, storage).0;
    hide Reconciled, Settled, Scan, DbAfter, RunInTurn, SameIn;
    GroupIsRead(db, groups, scopes, spec, storage, i);
    AfterOneMore(db, groups, i, spec, storage);
    LaterGroupsKeepScope(db, groups, scopes, spec, storage, i, |groups|);
    ScanFrame(scopes[i], DbAfter(db, groups, i + 1, spec, storage).rows,
              DbAfter(db, groups, |groups|, spec, storage).rows, again);
  }

  /** Planning a group again, after all of them were written, gives its rows the ids they have, and is a no-op
      exactly when the rows inserted for the group survived storage. */
  lemma {:induction false} SecondRunOfGroup(db: Db, groups: seq<Group>, scopes: seq<Row -> bool>, spec: Spec,
                                            storage: Storage, i: nat, again: seq<Stored>)
    requires GroupsRead(db, groups, scopes, spec, storage) && Quantized(spec, storage) && i < |groups|
    requires Scan(again, RunInTurn(db, groups, spec, storage).0.rows, scopes[i])
    ensures var existing, desired := groups[i].existing, groups[i].desired;
            var plan := PlanOf(again, desired, spec);
            && plan.inserts == [] && plan.deletes == []
            && (plan.IsNoop() <==>
                forall j :: 0 <= j < |desired| && Partner(existing, desired, spec.key, j).None? ==>
                  Survives(desired[j], spec, storage))
  {
    hide Reconciled, Settled, Scan, DbAfter, RunInTurn, PlanOf, Partner, Quantized, Survives;
    var before := DbAfter(db, groups, i, spec, storage);
    GroupFindsItself(db, groups, scopes, spec, storage, i, again);
    PlanningAgainKeepsIds(before, groups[i].existing, groups[i].desired, spec, storage, scopes[i], again);
    SecondRunIsNoop(before, groups[i].existing, groups[i].desired, spec, storage, scopes[i], again);
  }

  /** The groups with what is read for them now. */
  function Reread(groups: seq<Group>, found: seq<seq<Stored>>): seq<Group>
    requires |groups| == |found|
  {
    seq(|groups|, i requires 0 <= i < |groups| => Group(found[i], groups[i].desired))
  }

  /** After a second run of all groups, a third one is a no-op for each of them. */
  lemma {:induction false} ThirdRunOfGroup(db: Db, groups: seq<Group>, scopes: seq<Row -> bool>, spec: Spec,
                                           storage: Storage, found: seq<seq<Stored>>, i: nat, third: seq<Stored>)
    requires GroupsRead(db, groups, scopes, spec, storage) && Quantized(spec, storage)
    requires i < |groups| == |found|
    requires var db1 := RunInTurn(db, groups, spec, storage).0;
             && (forall j :: 0 <= j < |groups| ==> Scan(found[j], db1.rows, scopes[j]))
             && Scan(third, RunInTurn(db1, Reread(groups, found), spec, storage).0.rows, scopes[i])
    ensures PlanOf(third, groups[i].desired, spec).IsNoop()
  {
    hide Reconciled, Settled, Scan, RunInTurn, PlanOf, Partner, Quantized, Survives;
    var db1, desired := RunInTurn(db, groups, spec, storage).0, groups[i].desired;
    AllStaysAhead(db, groups, scopes, spec, storage);
    assert GroupsRead(db1, Reread(groups, found), scopes, spec, storage);
    SecondRunOfGroup(db1, Reread(groups, found), scopes, spec, storage, i, third);
    forall j | 0 <= j < |desired| ensures Partner(found[i], desired, spec.key, j).Some? {
      GroupFindsItself(db, groups, scopes, spec, storage, i, found[i]);
      var before := DbAfter(db, groups, i, spec, storage);
      SamePairing(before, groups[i].existing, desired, spec, storage, scopes[i], found[i], j);
    }
  }

  lemma AllStaysAhead(db: Db, groups: seq<Group>, scopes: seq<Row -> bool>, spec: Spec, storage: Storage)
    requires GroupsRead(db, groups, scopes, spec, storage)
    ensures SequenceAhead(RunInTurn(db, groups, spec, storage).0)
  {
    if groups != [] {
      var n := |groups| - 1;
      assert groups[..n + 1] == groups;
      assert DbAfter(db, groups, n + 1, spec, storage) == RunInTurn(db, groups, spec, storage).0;
      hide Reconciled, Settled, Scan, RunInTurn, DbAfter;
      GroupIsRead(db, groups, scopes, spec, storage, n);
      AfterOneMore(db, groups, n, spec, storage);
      StaysAhead(DbAfter(db, groups, n, spec, storage), groups[n].existing, groups[n].desired, spec, storage);
    }
  }
}
