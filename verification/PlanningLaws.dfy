/** What a plan says about every stored row and every desired row. */
module PlanningLaws {
  import opened Occurrences
  import opened Wrappers
  import opened Rows
  import opened Planning

  /** The stored row at `p` and the desired row at `i` have the same key, and the same rank within it. */
  ghost predicate SameSlot(existing: seq<Stored>, desired: seq<Row>, key: Row -> Key, p: nat, i: nat)
    requires p < |existing| && i < |desired|
  {
    var eks, dks := StoredKeys(existing, key), DesiredKeys(desired, key);
    eks[p] == dks[i] && Rank(eks, p) == Rank(dks, i)
  }

  /** The rows of a key are the ones at the positions of that key. */
  lemma {:induction false} RowsOfKeyAt(existing: seq<Stored>, key: Row -> Key, k: Key)
    ensures var slots := Positions(StoredKeys(existing, key), k);
            && |RowsOfKey(existing, key, k)| == |slots|
            && forall j :: 0 <= j < |slots| ==> RowsOfKey(existing, key, k)[j] == existing[slots[j]]
  {
    if existing != [] {
      var n := |existing| - 1;
      RowsOfKeyAt(existing[..n], key, k);
      assert StoredKeys(existing, key)[..n] == StoredKeys(existing[..n], key);
    }
  }

  /** A desired row has a partner exactly when its key has more stored rows than its rank. */
  lemma PartnerSlot(existing: seq<Stored>, desired: seq<Row>, key: Row -> Key, i: nat) returns (p: nat)
    requires i < |desired|
    ensures var eks, dks := StoredKeys(existing, key), DesiredKeys(desired, key);
            && (Partner(existing, desired, key, i).Some? <==> Rank(dks, i) < Count(eks, dks[i]))
            && (Partner(existing, desired, key, i).Some? ==>
                  p < |existing| && SameSlot(existing, desired, key, p, i)
                  && Partner(existing, desired, key, i) == Some(existing[p]))
  {
    var eks, dks := StoredKeys(existing, key), DesiredKeys(desired, key);
    RowsOfKeyAt(existing, key, dks[i]);
    PositionsAreRanked(eks, dks[i]);
    p := if Rank(dks, i) < Count(eks, dks[i]) then Positions(eks, dks[i])[Rank(dks, i)] else 0;
  }

  /** The row in the same slot is the partner. */
  lemma SameSlotIsPartner(existing: seq<Stored>, desired: seq<Row>, key: Row -> Key, p: nat, i: nat)
    requires p < |existing| && i < |desired| && SameSlot(existing, desired, key, p, i)
    ensures Partner(existing, desired, key, i) == Some(existing[p])
  {
    var eks := StoredKeys(existing, key);
    RowsOfKeyAt(existing, key, eks[p]);
    PositionOfRank(eks, p);
  }

  /** A stored row is some desired row's partner exactly when its rank is below the number of desired rows of its
      key. */
  lemma {:induction false} SlotTakenExactly(existing: seq<Stored>, desired: seq<Row>, key: Row -> Key, p: nat)
    requires p < |existing| && DistinctIds(existing)
    ensures Rank(StoredKeys(existing, key), p) < Count(DesiredKeys(desired, key), key(existing[p].row)) <==>
            exists i: nat :: i < |desired| && Partner(existing, desired, key, i) == Some(existing[p])
  {
    if Rank(StoredKeys(existing, key), p) < Count(DesiredKeys(desired, key), key(existing[p].row)) {
      var i := SlotTaken(existing, desired, key, p);
      SameSlotIsPartner(existing, desired, key, p, i);
    }
    if i: nat :| i < |desired| && Partner(existing, desired, key, i) == Some(existing[p]) {
      var q := PartnerSlot(existing, desired, key, i);
      assert existing[q].id == existing[p].id;
      SlotTakenOnlyIf(existing, desired, key, p, i);
    }
  }

  /** A stored row shares its slot with some desired row when enough rows of its key are desired, and only then. */
  lemma SlotTaken(existing: seq<Stored>, desired: seq<Row>, key: Row -> Key, p: nat) returns (i: nat)
    requires p < |existing|
    requires Rank(StoredKeys(existing, key), p) < Count(DesiredKeys(desired, key), key(existing[p].row))
    ensures i < |desired| && SameSlot(existing, desired, key, p, i)
  {
    PositionsAreRanked(DesiredKeys(desired, key), key(existing[p].row));
    i := Positions(DesiredKeys(desired, key), key(existing[p].row))[Rank(StoredKeys(existing, key), p)];
  }

  lemma SlotTakenOnlyIf(existing: seq<Stored>, desired: seq<Row>, key: Row -> Key, p: nat, i: nat)
    requires p < |existing| && i < |desired| && SameSlot(existing, desired, key, p, i)
    ensures Rank(StoredKeys(existing, key), p) < Count(DesiredKeys(desired, key), key(existing[p].row))
  {
    PositionOfRank(DesiredKeys(desired, key), i);
  }

  // ---- the decisions ----

  function UpdateIds(updates: seq<(Id, Row)>): seq<Id> {
    seq(|updates|, j requires 0 <= j < |updates| => updates[j].0)
  }

  datatype Decision = Update(update: (Id, Row)) | Keep(id: Id) | Insert(row: Row)

  ghost function Decided(partners: seq<Option<Stored>>, desired: seq<Row>, spec: Spec, i: int): Decision
    requires |partners| == |desired| && 0 <= i < |partners|
  {
    match partners[i]
    case None => Insert(desired[i])
    case Some(current) =>
      if Changed(current.row, desired[i], spec)
      then Update((current.id, OwnedValues(desired[i], spec)))
      else Keep(current.id)
  }

  /** The plan calls for this: the update, the row that stays as it is, or the insert. */
  ghost predicate Calls(plan: Plan, d: Decision) {
    match d
    case Update(u) => u in plan.updates
    case Keep(id) => id in plan.kept
    case Insert(row) => row in plan.inserts
  }

  ghost predicate IsDecided(partners: seq<Option<Stored>>, desired: seq<Row>, spec: Spec, d: Decision)
    requires |partners| == |desired|
  {
    exists i :: 0 <= i < |partners| && Decided(partners, desired, spec, i) == d
  }

  /** Every pair is decided by itself, and nothing else is: no partner inserts, a change updates, agreement keeps. */
  lemma {:induction false} DecideExact(partners: seq<Option<Stored>>, desired: seq<Row>, spec: Spec)
    requires |partners| == |desired|
    ensures forall d :: Calls(Decide(partners, desired, spec), d) <==> IsDecided(partners, desired, spec, d)
  {
    if partners != [] {
      var n := |partners| - 1;
      DecideExact(partners[..n], desired[..n], spec);
      CallsOneMore(partners, desired, spec);
      DecidedOneMore(partners, desired, spec);
      hide Calls, IsDecided, Decide, Decided;
    }
  }

  lemma DecidedIsCalled(partners: seq<Option<Stored>>, desired: seq<Row>, spec: Spec, i: nat)
    requires i < |partners| == |desired|
    ensures Calls(Decide(partners, desired, spec), Decided(partners, desired, spec, i))
  {
    DecideExact(partners, desired, spec);
    assert IsDecided(partners, desired, spec, Decided(partners, desired, spec, i));
    hide Calls, Decide, Decided;
  }

  lemma CallsOneMore(partners: seq<Option<Stored>>, desired: seq<Row>, spec: Spec)
    requires |partners| == |desired| > 0
    ensures var n := |partners| - 1;
            forall d :: Calls(Decide(partners, desired, spec), d) <==>
              Calls(Decide(partners[..n], desired[..n], spec), d) || d == Decided(partners, desired, spec, n)
  {
    var n := |partners| - 1;
    var before := Decide(partners[..n], desired[..n], spec);
    assert Decide(partners, desired, spec) == Extended(before, partners[n], desired[n], spec);
    hide Decide, Changed, OwnedValues;
  }

  lemma DecidedOneMore(partners: seq<Option<Stored>>, desired: seq<Row>, spec: Spec)
    requires |partners| == |desired| > 0
    ensures var n := |partners| - 1;
            forall d :: IsDecided(partners, desired, spec, d) <==>
              IsDecided(partners[..n], desired[..n], spec, d) || d == Decided(partners, desired, spec, n)
  {
    var n := |partners| - 1;
    forall d | IsDecided(partners[..n], desired[..n], spec, d) ensures IsDecided(partners, desired, spec, d) {
      var i :| 0 <= i < n && Decided(partners[..n], desired[..n], spec, i) == d;
      assert Decided(partners, desired, spec, i) == d;
    }
    forall d | IsDecided(partners, desired, spec, d)
      ensures IsDecided(partners[..n], desired[..n], spec, d) || d == Decided(partners, desired, spec, n)
    {
      var i :| 0 <= i <= n && Decided(partners, desired, spec, i) == d;
      assert i < n ==> Decided(partners[..n], desired[..n], spec, i) == d;
    }
  }

  /** The rows at some places. */
  function At(rows: seq<Row>, places: seq<nat>): seq<Row>
    requires forall j :: 0 <= j < |places| ==> places[j] < |rows|
  {
    seq(|places|, j requires 0 <= j < |places| => rows[places[j]])
  }

  /** The id of every partner is recorded, and every pair is decided once. */
  lemma {:induction false} DecideMatches(partners: seq<Option<Stored>>, desired: seq<Row>, spec: Spec)
    requires |partners| == |desired|
    ensures var plan := Decide(partners, desired, spec);
            && |plan.matched| == |partners|
            && (forall i :: 0 <= i < |partners| ==>
                  plan.matched[i] == if partners[i].Some? then Some(partners[i].value.id) else None)
            && |plan.updates| + |plan.kept| + |plan.inserts| == |partners|
  {
    if partners != [] {
      DecideMatches(partners[..|partners| - 1], desired[..|partners| - 1], spec);
      DecideNext(partners, desired, spec);
      hide Decide;
    }
  }

  /** The rows without a partner are inserted, in the order desired, and no others. */
  lemma {:induction false} DecideInserts(partners: seq<Option<Stored>>, desired: seq<Row>, spec: Spec)
    requires |partners| == |desired|
    ensures var plan := Decide(partners, desired, spec);
            |plan.matched| == |desired| && plan.inserts == At(desired, Positions(plan.matched, None))
  {
    DecideMatches(partners, desired, spec);
    if partners != [] {
      var n := |partners| - 1;
      var init, row := desired[..n], desired[n];
      assert desired == init + [row];
      hide Decide, Positions, At;
      DecideInserts(partners[..n], init, spec);
      DecideNext(partners, desired, spec);
      DecideMatches(partners[..n], init, spec);
      PlacesOneMore(init, row, Decide(partners[..n], init, spec).matched, Decide(partners, desired, spec).matched[n]);
    }
  }

  lemma PlacesOneMore(init: seq<Row>, row: Row, matched: seq<Option<Id>>, id: Option<Id>)
    requires |init| == |matched|
    ensures At(init + [row], Positions(matched + [id], None)) ==
            At(init, Positions(matched, None)) + if id.None? then [row] else []
  {
    assert (matched + [id])[..|matched|] == matched;
    assert Positions(matched + [id], None) == Positions(matched, None) + if id.None? then [|matched|] else [];
    hide Positions, At;
    AtAppend(init, row, Positions(matched, None));
  }

  lemma AtAppend(init: seq<Row>, row: Row, places: seq<nat>)
    requires forall j :: 0 <= j < |places| ==> places[j] < |init|
    ensures At(init + [row], places) == At(init, places)
    ensures At(init + [row], places + [|init|]) == At(init, places) + [row]
  {
  }

  lemma DecideNext(partners: seq<Option<Stored>>, desired: seq<Row>, spec: Spec)
    requires |partners| == |desired| > 0
    ensures var n := |partners| - 1;
            var before, plan := Decide(partners[..n], desired[..n], spec), Decide(partners, desired, spec);
            var id := if partners[n].Some? then Some(partners[n].value.id) else None;
            && plan.matched == before.matched + [id]
            && plan.inserts == before.inserts + (if partners[n].None? then [desired[n]] else [])
            && |plan.updates| + |plan.kept| == |before.updates| + |before.kept| + if partners[n].Some? then 1 else 0
  {
    var n := |partners| - 1;
    var before := Decide(partners[..n], desired[..n], spec);
    assert Decide(partners, desired, spec) == Extended(before, partners[n], desired[n], spec);
    hide Decide, Changed, OwnedValues;
  }

  /** An updated or kept id is that of a partner. */
  lemma {:induction false} DecidedHasPartner(partners: seq<Option<Stored>>, desired: seq<Row>, spec: Spec, id: Id)
    returns (i: nat)
    requires |partners| == |desired|
    requires var plan := Decide(partners, desired, spec); id in UpdateIds(plan.updates) || id in plan.kept
    ensures i < |partners| && partners[i].Some? && partners[i].value.id == id
  {
    var n := |partners| - 1;
    var before := Decide(partners[..n], desired[..n], spec);
    if partners[n].Some? && partners[n].value.id == id {
      i := n;
    } else {
      assert UpdateIds(Decide(partners, desired, spec).updates)[..|before.updates|] == UpdateIds(before.updates);
      i := DecidedHasPartner(partners[..n], desired[..n], spec, id);
    }
  }

  /** Every partner is updated or kept. */
  lemma {:induction false} PartnerIsDecided(partners: seq<Option<Stored>>, desired: seq<Row>, spec: Spec, i: nat)
    requires i < |partners| == |desired| && partners[i].Some?
    ensures var plan := Decide(partners, desired, spec);
            partners[i].value.id in UpdateIds(plan.updates) + plan.kept
  {
    var n := |partners| - 1;
    var plan, before := Decide(partners, desired, spec), Decide(partners[..n], desired[..n], spec);
    if i < n {
      PartnerIsDecided(partners[..n], desired[..n], spec, i);
      assert UpdateIds(before.updates) == UpdateIds(plan.updates)[..|before.updates|];
    } else if Changed(partners[n].value.row, desired[n], spec) {
      assert UpdateIds(plan.updates)[|before.updates|] == partners[n].value.id;
    } else {
      assert plan.kept[|before.kept|] == partners[n].value.id;
    }
  }

  ghost predicate DistinctPartners(partners: seq<Option<Stored>>) {
    forall i, j :: 0 <= i < j < |partners| && partners[i].Some? && partners[j].Some? ==>
      partners[i].value.id != partners[j].value.id
  }

  lemma {:induction false} DecidedOnce(partners: seq<Option<Stored>>, desired: seq<Row>, spec: Spec)
    requires |partners| == |desired| && DistinctPartners(partners)
    ensures var plan := Decide(partners, desired, spec);
            NoRepeats(UpdateIds(plan.updates)) && NoRepeats(plan.kept)
            && forall id :: id in UpdateIds(plan.updates) ==> id !in plan.kept
  {
    if partners != [] {
      var n := |partners| - 1;
      var before := Decide(partners[..n], desired[..n], spec);
      DecidedOnce(partners[..n], desired[..n], spec);
      if partners[n].Some? {
        var id := partners[n].value.id;
        if id in UpdateIds(before.updates) || id in before.kept {
          var i := DecidedHasPartner(partners[..n], desired[..n], spec, id);
        }
        var u := (id, OwnedValues(desired[n], spec));
        assert UpdateIds(before.updates + [u]) == UpdateIds(before.updates) + [id];
      }
    }
  }

  lemma PartnersDistinct(existing: seq<Stored>, desired: seq<Row>, key: Row -> Key)
    requires DistinctIds(existing)
    ensures DistinctPartners(Partners(existing, desired, key))
  {
    var partners := Partners(existing, desired, key);
    forall i, j | 0 <= i < j < |partners| && partners[i].Some? && partners[j].Some?
      ensures partners[i].value.id != partners[j].value.id
    {
      var p := PartnerSlot(existing, desired, key, i);
      var q := PartnerSlot(existing, desired, key, j);
      if p == q {
        SameSlotSamePosition(DesiredKeys(desired, key), i, j);
      }
    }
  }

  // ---- what is deleted ----

  lemma {:induction false} RowsOfKeyExact(existing: seq<Stored>, key: Row -> Key, k: Key)
    ensures forall row :: row in RowsOfKey(existing, key, k) <==> row in existing && key(row.row) == k
    ensures DistinctIds(existing) ==> DistinctIds(RowsOfKey(existing, key, k))
  {
    if existing != [] {
      var n := |existing| - 1;
      assert existing == existing[..n] + [existing[n]];
      RowsOfKeyExact(existing[..n], key, k);
      var front := RowsOfKey(existing[..n], key, k);
      forall i | 0 <= i < |front| ensures DistinctIds(existing) ==> front[i].id != existing[n].id {
        assert front[i] in front;
      }
    }
  }

  lemma {:induction false} SurplusRows(existing: seq<Stored>, dks: seq<Key>, key: Row -> Key, order: seq<Key>)
    requires DistinctIds(existing) && NoRepeats(order)
    ensures var surplus := Surplus(existing, dks, key, order);
            && DistinctIds(surplus)
            && (forall row :: row in surplus <==>
                  key(row.row) in order
                  && row in After(RowsOfKey(existing, key, key(row.row)), Count(dks, key(row.row))))
  {
    if order != [] {
      var n := |order| - 1;
      var k := order[n];
      assert order == order[..n] + [k];
      SurplusRows(existing, dks, key, order[..n]);
      RowsOfKeyExact(existing, key, k);
      var front, back := Surplus(existing, dks, key, order[..n]), After(RowsOfKey(existing, key, k), Count(dks, k));
      forall row | row in back ensures row in existing && key(row.row) == k {
        assert row in RowsOfKey(existing, key, k);
      }
      forall a, b | a in front && b in back ensures a.id != b.id {
        RowsOfKeyExact(existing, key, key(a.row));
        assert a in RowsOfKey(existing, key, key(a.row));
        assert a != b && a in existing && b in existing;
      }
      forall i, j | 0 <= i < j < |front + back| ensures (front + back)[i].id != (front + back)[j].id {
        if i < |front| <= j {
          assert front[i] in front && back[j - |front|] in back;
        }
      }
    }
  }

  /** A stored row is deleted exactly when its rank is beyond what is desired of its key. */
  lemma DeletedExactly(existing: seq<Stored>, desired: seq<Row>, spec: Spec, p: nat)
    requires DistinctIds(existing) && p < |existing|
    ensures existing[p].id in PlanOf(existing, desired, spec).deletes <==>
            Rank(StoredKeys(existing, spec.key), p) >= Count(DesiredKeys(desired, spec.key), spec.key(existing[p].row))
  {
    var eks, dks := StoredKeys(existing, spec.key), DesiredKeys(desired, spec.key);
    var surplus := Surplus(existing, dks, spec.key, Distinct(eks));
    assert PlanOf(existing, desired, spec).deletes == Ids(surplus);
    assert eks[p] in eks && eks[p] == spec.key(existing[p].row);
    hide Surplus, RowsOfKey, After, Rank, Count, Distinct, Decide, StoredKeys, DesiredKeys;
    SurplusRows(existing, dks, spec.key, Distinct(eks));
    BeyondCount(existing, spec.key, p, Count(dks, eks[p]));
    SurplusFromExisting(existing, dks, spec.key, Distinct(eks));
    IdIn(surplus, existing, p);
  }

  lemma IdIn(some: seq<Stored>, existing: seq<Stored>, p: nat)
    requires DistinctIds(existing) && p < |existing| && forall row :: row in some ==> row in existing
    ensures existing[p].id in Ids(some) <==> existing[p] in some
  {
    if existing[p] in some {
      var j :| 0 <= j < |some| && some[j] == existing[p];
      assert Ids(some)[j] == existing[p].id;
    }
    if existing[p].id in Ids(some) {
      var j :| 0 <= j < |some| && some[j].id == existing[p].id;
      assert some[j] in some && some[j] in existing;
    }
  }

  /** Among the rows of its key, a row comes after the first `n` exactly when its rank is at least `n`. */
  lemma BeyondCount(existing: seq<Stored>, key: Row -> Key, p: nat, n: nat)
    requires DistinctIds(existing) && p < |existing|
    ensures var eks := StoredKeys(existing, key);
            existing[p] in After(RowsOfKey(existing, key, eks[p]), n) <==> Rank(eks, p) >= n
  {
    var eks := StoredKeys(existing, key);
    var rows := RowsOfKey(existing, key, eks[p]);
    RowsOfKeyAt(existing, key, eks[p]);
    PositionOfRank(eks, p);
    hide RowsOfKey, Positions, Rank, After, StoredKeys;
    RowsOfKeyExact(existing, key, eks[p]);
    InAfter(rows, Rank(eks, p), n, existing[p]);
  }

  lemma InAfter(rows: seq<Stored>, r: nat, n: nat, row: Stored)
    requires DistinctIds(rows) && r < |rows| && rows[r] == row
    ensures row in After(rows, n) <==> r >= n
  {
    if r >= n {
      assert After(rows, n)[r - n] == row;
    }
    if row in After(rows, n) {
      var q :| 0 <= q < |After(rows, n)| && After(rows, n)[q] == row;
      assert rows[q + n].id == rows[r].id;
    }
  }

  lemma {:induction false} SurplusFromExisting(existing: seq<Stored>, dks: seq<Key>, key: Row -> Key, order: seq<Key>)
    ensures forall row :: row in Surplus(existing, dks, key, order) ==> row in existing
  {
    if order != [] {
      var n := |order| - 1;
      SurplusFromExisting(existing, dks, key, order[..n]);
      RowsOfKeyExact(existing, key, order[n]);
      assert forall row :: row in After(RowsOfKey(existing, key, order[n]), Count(dks, order[n])) ==>
          row in RowsOfKey(existing, key, order[n]);
    }
  }

  // ---- the plan as a whole ----

  /** Matching follows slots: the id recorded for a desired row is that of the stored row in its slot. */
  lemma MatchedBySlot(existing: seq<Stored>, desired: seq<Row>, spec: Spec, p: nat, i: nat)
    requires DistinctIds(existing) && p < |existing| && i < |desired|
    ensures var matched := PlanOf(existing, desired, spec).matched;
            && |matched| == |desired|
            && (matched[i] == Some(existing[p].id) <==> SameSlot(existing, desired, spec.key, p, i))
  {
    DecideMatches(Partners(existing, desired, spec.key), desired, spec);
    var q := PartnerSlot(existing, desired, spec.key, i);
    if SameSlot(existing, desired, spec.key, p, i) {
      SameSlotIsPartner(existing, desired, spec.key, p, i);
    }
  }

  /** A desired row is inserted exactly when its rank is beyond what is stored under its key. */
  lemma InsertedExactly(existing: seq<Stored>, desired: seq<Row>, spec: Spec, i: nat)
    requires i < |desired|
    ensures var matched := PlanOf(existing, desired, spec).matched;
            |matched| == |desired|
            && (matched[i].None? <==>
                Rank(DesiredKeys(desired, spec.key), i) >= Count(StoredKeys(existing, spec.key), spec.key(desired[i])))
            && (matched[i].Some? ==> matched[i].value in Ids(existing))
  {
    DecideMatches(Partners(existing, desired, spec.key), desired, spec);
    var q := PartnerSlot(existing, desired, spec.key, i);
    if PlanOf(existing, desired, spec).matched[i].Some? {
      assert Ids(existing)[q] == existing[q].id;
    }
  }

  /** The places of the desired rows of key `k` that are matched. */
  ghost function MatchedPlaces(existing: seq<Stored>, desired: seq<Row>, spec: Spec, k: Key): set<nat> {
    set i: nat | i < |desired| && spec.key(desired[i]) == k && Partner(existing, desired, spec.key, i).Some?
  }

  function Lesser(a: nat, b: nat): nat {
    if a < b then a else b
  }

  /** Under each key as many desired rows are matched as there are, or as many as are stored, whichever is less. */
  lemma {:induction false} MatchedPerKey(existing: seq<Stored>, desired: seq<Row>, spec: Spec, k: Key)
    ensures |MatchedPlaces(existing, desired, spec, k)| ==
            Lesser(Count(StoredKeys(existing, spec.key), k), Count(DesiredKeys(desired, spec.key), k))
    ensures var matched := PlanOf(existing, desired, spec).matched;
            |matched| == |desired| && forall i: nat :: i in MatchedPlaces(existing, desired, spec, k) <==>
              i < |desired| && spec.key(desired[i]) == k && matched[i].Some?
  {
    var slots := Positions(DesiredKeys(desired, spec.key), k);
    var taken := slots[..Lesser(Count(StoredKeys(existing, spec.key), k), |slots|)];
    DecideMatches(Partners(existing, desired, spec.key), desired, spec);
    PositionsAreRanked(DesiredKeys(desired, spec.key), k);
    assert Ascending(taken);
    AscendingSize(taken);
    hide Decide, Surplus;
    forall i: nat ensures i in MatchedPlaces(existing, desired, spec, k) <==> i in taken {
      MatchedPlace(existing, desired, spec, k, i);
    }
    assert MatchedPlaces(existing, desired, spec, k) == Elements(taken);
  }

  lemma MatchedPlace(existing: seq<Stored>, desired: seq<Row>, spec: Spec, k: Key, i: nat)
    ensures var slots := Positions(DesiredKeys(desired, spec.key), k);
            i in MatchedPlaces(existing, desired, spec, k) <==>
            i in slots[..Lesser(Count(StoredKeys(existing, spec.key), k), |slots|)]
  {
    var dks := DesiredKeys(desired, spec.key);
    var slots, stored := Positions(dks, k), Count(StoredKeys(existing, spec.key), k);
    PositionsAreRanked(dks, k);
    if i < |desired| && dks[i] == k {
      var p := PartnerSlot(existing, desired, spec.key, i);
      PositionOfRank(dks, i);
      hide Partner, Positions, Rank;
      if i in slots[..Lesser(stored, |slots|)] {
        var j :| 0 <= j < Lesser(stored, |slots|) && slots[j] == i;
        assert Rank(dks, i) == j;
      }
      if Rank(dks, i) < stored {
        assert slots[..Lesser(stored, |slots|)][Rank(dks, i)] == i;
      }
    }
  }

  /** Every stored id is updated, kept or deleted: exactly one of the three, exactly once. */
  lemma PlanSplitsExisting(existing: seq<Stored>, desired: seq<Row>, spec: Spec)
    requires DistinctIds(existing)
    ensures var plan := PlanOf(existing, desired, spec);
            var touched := UpdateIds(plan.updates) + plan.kept + plan.deletes;
            NoRepeats(touched) && forall id :: id in touched <==> id in Ids(existing)
  {
    var plan := PlanOf(existing, desired, spec);
    var touched := UpdateIds(plan.updates) + plan.kept + plan.deletes;
    var partners := Partners(existing, desired, spec.key);
    PartnersDistinct(existing, desired, spec.key);
    DecidedOnce(partners, desired, spec);
    SurplusRows(existing, DesiredKeys(desired, spec.key), spec.key, Distinct(StoredKeys(existing, spec.key)));
    forall id | id in UpdateIds(plan.updates) || id in plan.kept ensures id in Ids(existing) && id !in plan.deletes {
      MatchedIsStored(existing, desired, spec, id);
    }
    forall id | id in plan.deletes ensures id in Ids(existing) {
      DeletedIsStored(existing, desired, spec, id);
    }
    forall id | id in Ids(existing) ensures id in touched {
      var p :| 0 <= p < |existing| && existing[p].id == id;
      StoredIsTouched(existing, desired, spec, p);
    }
    AppendThree(UpdateIds(plan.updates), plan.kept, plan.deletes);
  }

  lemma AppendThree(a: seq<Id>, b: seq<Id>, c: seq<Id>)
    requires NoRepeats(a) && NoRepeats(b) && NoRepeats(c)
    requires forall id :: id in a ==> id !in b && id !in c
    requires forall id :: id in b ==> id !in c
    ensures NoRepeats(a + b + c)
  {
    forall i, j | 0 <= i < j < |a + b + c| ensures (a + b + c)[i] != (a + b + c)[j] {
      if |a| <= i < |a + b| { assert (a + b + c)[i] in b; }
      if i < |a| { assert (a + b + c)[i] in a; }
      if |a| <= j < |a + b| { assert (a + b + c)[j] in b; }
      if |a + b| <= j { assert (a + b + c)[j] in c; }
    }
  }

  /** An updated or kept id belongs to a stored row whose slot is taken. */
  lemma MatchedIsStored(existing: seq<Stored>, desired: seq<Row>, spec: Spec, id: Id)
    requires DistinctIds(existing)
    requires var plan := PlanOf(existing, desired, spec); id in UpdateIds(plan.updates) || id in plan.kept
    ensures id in Ids(existing) && id !in PlanOf(existing, desired, spec).deletes
  {
    UpdatedIsStored(existing, desired, spec, id);
    var plan, partners := PlanOf(existing, desired, spec), Partners(existing, desired, spec.key);
    var i := DecidedHasPartner(partners, desired, spec, id);
    var p := PartnerSlot(existing, desired, spec.key, i);
    SlotTakenOnlyIf(existing, desired, spec.key, p, i);
    DeletedExactly(existing, desired, spec, p);
  }

  lemma UpdatedIsStored(existing: seq<Stored>, desired: seq<Row>, spec: Spec, id: Id)
    requires var plan := PlanOf(existing, desired, spec); id in UpdateIds(plan.updates) || id in plan.kept
    ensures id in Ids(existing)
  {
    var i := DecidedHasPartner(Partners(existing, desired, spec.key), desired, spec, id);
    var p := PartnerSlot(existing, desired, spec.key, i);
    assert Ids(existing)[p] == id;
  }

  lemma DeletedIsStored(existing: seq<Stored>, desired: seq<Row>, spec: Spec, id: Id)
    requires id in PlanOf(existing, desired, spec).deletes
    ensures id in Ids(existing)
  {
    var dks := DesiredKeys(desired, spec.key);
    var surplus := Surplus(existing, dks, spec.key, Distinct(StoredKeys(existing, spec.key)));
    var j :| 0 <= j < |surplus| && surplus[j].id == id;
    SurplusFromExisting(existing, dks, spec.key, Distinct(StoredKeys(existing, spec.key)));
    assert surplus[j] in surplus;
    var p :| 0 <= p < |existing| && existing[p] == surplus[j];
    assert Ids(existing)[p] == id;
  }

  lemma StoredIsTouched(existing: seq<Stored>, desired: seq<Row>, spec: Spec, p: nat)
    requires DistinctIds(existing) && p < |existing|
    ensures var plan := PlanOf(existing, desired, spec);
            existing[p].id in UpdateIds(plan.updates) + plan.kept + plan.deletes
  {
    var plan := PlanOf(existing, desired, spec);
    if Rank(StoredKeys(existing, spec.key), p) < Count(DesiredKeys(desired, spec.key), spec.key(existing[p].row)) {
      var i := SlotTaken(existing, desired, spec.key, p);
      SameSlotIsPartner(existing, desired, spec.key, p, i);
      PartnerIsDecided(Partners(existing, desired, spec.key), desired, spec, i);
    } else {
      DeletedExactly(existing, desired, spec, p);
    }
  }
}
