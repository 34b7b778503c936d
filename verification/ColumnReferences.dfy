/** The `col_refs` links of many columns, reconciled under their unique key. */
module ColumnReferences {
  import opened Occurrences
  import opened Rows
  import opened Planning
  import opened PlanningLaws
  import opened Tables
  import opened Reconciling
  import opened UniqueKeys
  import opened ReconciliationLaws
  import opened GroupConvergence

  /** A citation: a bare reference id, or a dict of the link's columns. */
  datatype Citation = Bare(refId: Value) | Fields(given: Row)

  const LINK_COLUMNS: seq<Column> := ["col_id", "ref_id", "ref_type", "locator"]
  const LINK_SPEC := Spec(KeyColumns(LINK_COLUMNS), ["locator_url"], (c: Column, v: Value) => v)

  /** A dict citation gives a `ref_id` and any of the other columns, but never the column it is cited by. */
  predicate WellFormed(citation: Citation) {
    citation.Fields? ==>
      "ref_id" in citation.given && citation.given.Keys <= {"ref_id", "ref_type", "locator", "locator_url"}
  }

  function Link(col: Value, citation: Citation): Row {
    var given := if citation.Bare? then map["ref_id" := citation.refId] else citation.given;
    map["col_id" := col, "ref_type" := Text("unspecified"), "locator" := Null, "locator_url" := Null] + given
  }

  /** The links of a column, each unique key kept once, where it is first cited. */
  function FirstPerKey(col: Value, citations: seq<Citation>): seq<Row> {
    if citations == [] then []
    else
      var links := FirstPerKey(col, citations[..|citations| - 1]);
      var link := Link(col, citations[|citations| - 1]);
      if LINK_SPEC.key(link) in DesiredKeys(links, LINK_SPEC.key) then links else links + [link]
  }

  /** A repeated citation is one link: `setdefault` on the unique key. */
  method Deduplicate(col: Value, citations: seq<Citation>) returns (links: seq<Row>)
    ensures links == FirstPerKey(col, citations)
  {
    var seen: set<Key> := {};
    links := [];
    for i := 0 to |citations|
      invariant links == FirstPerKey(col, citations[..i])
      invariant forall k :: k in seen <==> k in DesiredKeys(links, LINK_SPEC.key)
    {
      assert citations[..i + 1][..i] == citations[..i];
      var link := Link(col, citations[i]);
      var k := LINK_SPEC.key(link);
      assert DesiredKeys(links + [link], LINK_SPEC.key) == DesiredKeys(links, LINK_SPEC.key) + [k];
      if k !in seen {
        seen := seen + {k};
        links := links + [link];
      }
    }
    assert citations[..|citations|] == citations;
  }

  lemma LinkColumns(col: Value, citation: Citation)
    requires WellFormed(citation)
    ensures var link := Link(col, citation);
            Get(link, "col_id") == col && forall c :: c in LINK_COLUMNS ==> c in link
  {
  }

  /** Each cited key is linked exactly once, and every link is one of the citations, under the column's own id. */
  lemma {:induction false} FirstPerKeyExact(col: Value, citations: seq<Citation>)
    requires forall c :: c in citations ==> WellFormed(c)
    ensures var links := FirstPerKey(col, citations);
            && NoRepeats(DesiredKeys(links, LINK_SPEC.key))
            && (forall link :: link in links ==> exists c :: c in citations && link == Link(col, c))
            && (forall c :: c in citations ==> LINK_SPEC.key(Link(col, c)) in DesiredKeys(links, LINK_SPEC.key))
  {
    if citations != [] {
      var n := |citations| - 1;
      assert citations == citations[..n] + [citations[n]];
      FirstPerKeyExact(col, citations[..n]);
      var links, link := FirstPerKey(col, citations[..n]), Link(col, citations[n]);
      assert DesiredKeys(links + [link], LINK_SPEC.key) == DesiredKeys(links, LINK_SPEC.key) + [LINK_SPEC.key(link)];
      assert citations[n] in citations;
    }
  }

  // ---- all columns at once ----

  datatype Cited = Cited(col: Value, citations: seq<Citation>)

  function ColumnOf(row: Row): Key {
    KeyColumns(["col_id"])(row)
  }

  /** `WHERE col_id = ANY(cols)`. */
  function CitedBy(refs: seq<Cited>): Row -> bool {
    (row: Row) => exists i :: 0 <= i < |refs| && Get(row, "col_id") == refs[i].col
  }

  function LinkGroup(cited: Cited, stored: seq<Stored>): Group {
    Group(RowsOfKey(stored, ColumnOf, Key([cited.col])), FirstPerKey(cited.col, cited.citations))
  }

  function LinkGroups(refs: seq<Cited>, stored: seq<Stored>): seq<Group> {
    seq(|refs|, i requires 0 <= i < |refs| => LinkGroup(refs[i], stored))
  }

  ghost predicate DistinctColumns(refs: seq<Cited>) {
    forall i, j :: 0 <= i < j < |refs| ==> refs[i].col != refs[j].col
  }

  ghost predicate AllWellFormed(refs: seq<Cited>) {
    forall i, c :: 0 <= i < |refs| && c in refs[i].citations ==> WellFormed(c)
  }

  /** The columns of the unique key are stored as they are sent. */
  ghost predicate KeepsLinkColumns(storage: Storage) {
    forall c, v :: c in LINK_COLUMNS ==> storage.round(c, v) == v
  }

  lemma LinkKeyIgnoresOwned()
    ensures KeyIgnores(LINK_SPEC.key, LINK_SPEC.owned)
  {
    forall row: Row, values: Row | values.Keys == (set c | c in LINK_SPEC.owned)
      ensures LINK_SPEC.key(row + values) == LINK_SPEC.key(row)
    {
      assert "locator_url" !in LINK_COLUMNS;
      assert forall c :: c in LINK_COLUMNS ==> Get(row + values, c) == Get(row, c);
      SameColumnsSameKey(row + values, row);
    }
  }

  lemma SameColumnsSameKey(a: Row, b: Row)
    requires forall c :: c in LINK_COLUMNS ==> Get(a, c) == Get(b, c)
    ensures LINK_SPEC.key(a) == LINK_SPEC.key(b)
  {
    assert LINK_SPEC.key(a).parts == LINK_SPEC.key(b).parts;
  }

  lemma SameKeySameColumn(a: Row, b: Row)
    requires LINK_SPEC.key(a) == LINK_SPEC.key(b)
    ensures Get(a, "col_id") == Get(b, "col_id")
  {
    assert LINK_SPEC.key(a).parts[0] == LINK_SPEC.key(b).parts[0];
  }

  /** A stored link has the key it was sent with, and the column it is of. */
  lemma StoredLinkKey(col: Value, citation: Citation, storage: Storage)
    requires WellFormed(citation) && KeepsLinkColumns(storage)
    ensures LINK_SPEC.key(NewRow(Link(col, citation), storage)) == LINK_SPEC.key(Link(col, citation))
  {
    var link := Link(col, citation);
    LinkColumns(col, citation);
    forall c | c in LINK_COLUMNS ensures Get(NewRow(link, storage), c) == Get(link, c) {
      assert AsStored(link, storage)[c] == storage.round(c, link[c]);
    }
    SameColumnsSameKey(NewRow(link, storage), link);
  }

  lemma LinkIsOfColumn(col: Value, citations: seq<Citation>)
    requires forall c :: c in citations ==> WellFormed(c)
    ensures forall link :: link in FirstPerKey(col, citations) ==> Get(link, "col_id") == col
  {
    FirstPerKeyExact(col, citations);
    forall link | link in FirstPerKey(col, citations) ensures Get(link, "col_id") == col {
      var c :| c in citations && link == Link(col, c);
      LinkColumns(col, c);
    }
  }

  /** Reading the links of the cited columns reads each group whole. */
  lemma GroupFits(cited: Cited, refs: seq<Cited>, stored: seq<Stored>, rows: Contents)
    requires Scan(stored, rows, CitedBy(refs)) && cited in refs
    requires forall c :: c in cited.citations ==> WellFormed(c)
    ensures Fits(LinkGroup(cited, stored), rows, LINK_SPEC)
  {
    var group := LinkGroup(cited, stored);
    FirstPerKeyExact(cited.col, cited.citations);
    LinkIsOfColumn(cited.col, cited.citations);
    hide FirstPerKey, RowsOfKey, Scan;
    forall id, d | id in rows && d in group.desired && LINK_SPEC.key(rows[id]) == LINK_SPEC.key(d)
      ensures Stored(id, rows[id]) in group.existing
    {
      SameKeySameColumn(rows[id], d);
      LinkIsRead(cited, refs, stored, rows, id);
    }
  }

  /** Every stored link of a cited column is among those read for the column. */
  lemma LinkIsRead(cited: Cited, refs: seq<Cited>, stored: seq<Stored>, rows: Contents, id: Id)
    requires Scan(stored, rows, CitedBy(refs)) && cited in refs && id in rows && Get(rows[id], "col_id") == cited.col
    ensures Stored(id, rows[id]) in RowsOfKey(stored, ColumnOf, Key([cited.col]))
  {
    hide RowsOfKey;
    RowsOfKeyExact(stored, ColumnOf, Key([cited.col]));
    assert InScope(CitedBy(refs), rows, id);
    var p :| 0 <= p < |stored| && stored[p].id == id;
    assert stored[p] in stored && stored[p] == Stored(id, rows[id]);
    assert ColumnOf(rows[id]).parts == [cited.col];
  }

  lemma NoRepeatsAppend<T>(a: seq<T>, b: seq<T>)
    requires NoRepeats(a) && NoRepeats(b) && forall x, y :: 0 <= x < |a| && 0 <= y < |b| ==> a[x] != b[y]
    ensures NoRepeats(a + b)
  {
  }

  lemma OtherColumnOtherKey(col: Value, citation: Citation, link: Row)
    requires WellFormed(citation) && Get(link, "col_id") != col
    ensures LINK_SPEC.key(Link(col, citation)) != LINK_SPEC.key(link)
  {
    LinkColumns(col, citation);
    if LINK_SPEC.key(Link(col, citation)) == LINK_SPEC.key(link) {
      SameKeySameColumn(Link(col, citation), link);
    }
  }

  ghost predicate IsCitedLink(refs: seq<Cited>, link: Row) {
    exists i, c :: 0 <= i < |refs| && c in refs[i].citations && link == Link(refs[i].col, c)
  }

  lemma {:induction false} AllLinksAreCited(refs: seq<Cited>, stored: seq<Stored>)
    requires AllWellFormed(refs)
    ensures forall link :: link in AllDesired(LinkGroups(refs, stored)) ==> IsCitedLink(refs, link)
  {
    if refs != [] {
      var n := |refs| - 1;
      var groups := LinkGroups(refs, stored);
      assert groups[..n] == LinkGroups(refs[..n], stored);
      AllLinksAreCited(refs[..n], stored);
      FirstPerKeyExact(refs[n].col, refs[n].citations);
      hide FirstPerKey, Link;
      forall link | link in AllDesired(groups[..n]) ensures IsCitedLink(refs, link) {
        var i, c :| 0 <= i < n && c in refs[..n][i].citations && link == Link(refs[..n][i].col, c);
        assert c in refs[i].citations;
      }
    }
  }

  /** Links of different columns never share a key. */
  lemma {:induction false} AllKeysDistinct(refs: seq<Cited>, stored: seq<Stored>)
    requires DistinctColumns(refs) && AllWellFormed(refs)
    ensures NoRepeats(DesiredKeys(AllDesired(LinkGroups(refs, stored)), LINK_SPEC.key))
  {
    if refs != [] {
      var n := |refs| - 1;
      var groups := LinkGroups(refs, stored);
      assert groups[..n] == LinkGroups(refs[..n], stored);
      AllKeysDistinct(refs[..n], stored);
      AllLinksAreCited(refs[..n], stored);
      FirstPerKeyExact(refs[n].col, refs[n].citations);
      LinkIsOfColumn(refs[n].col, refs[n].citations);
      OneColumnMore(refs, n, AllDesired(groups[..n]), FirstPerKey(refs[n].col, refs[n].citations));
    }
  }

  lemma OneColumnMore(refs: seq<Cited>, n: nat, front: seq<Row>, back: seq<Row>)
    requires DistinctColumns(refs) && AllWellFormed(refs) && n < |refs|
    requires forall link :: link in front ==> IsCitedLink(refs[..n], link)
    requires forall link :: link in back ==> Get(link, "col_id") == refs[n].col
    requires NoRepeats(DesiredKeys(front, LINK_SPEC.key)) && NoRepeats(DesiredKeys(back, LINK_SPEC.key))
    ensures NoRepeats(DesiredKeys(front + back, LINK_SPEC.key))
  {
    hide Link;
    var fks, bks := DesiredKeys(front, LINK_SPEC.key), DesiredKeys(back, LINK_SPEC.key);
    assert DesiredKeys(front + back, LINK_SPEC.key) == fks + bks;
    forall x, y | 0 <= x < |fks| && 0 <= y < |bks| ensures fks[x] != bks[y] {
      assert front[x] in front && back[y] in back;
      var i, c :| 0 <= i < n && c in refs[..n][i].citations && front[x] == Link(refs[..n][i].col, c);
      OtherColumnOtherKey(refs[i].col, c, back[y]);
    }
    NoRepeatsAppend(fks, bks);
  }

  /** The unique key of `col_refs` holds after every row a reconciliation of citations writes. */
  lemma CitationsStayUnique(db: Db, refs: seq<Cited>, stored: seq<Stored>, storage: Storage)
    requires Unique(db.rows, LINK_SPEC.key) && KeepsLinkColumns(storage)
    requires DistinctColumns(refs) && AllWellFormed(refs) && Scan(stored, db.rows, CitedBy(refs))
    ensures var groups := LinkGroups(refs, stored);
            var plan := MergedPlan(groups, LINK_SPEC);
            forall rows :: rows in ApplyTrace(db, plan, AllDesired(groups), LINK_SPEC.owned, storage)
              ==> Unique(rows, LINK_SPEC.key)
  {
    var groups := LinkGroups(refs, stored);
    LinkKeyIgnoresOwned();
    AllKeysDistinct(refs, stored);
    AllLinksAreCited(refs, stored);
    forall i | 0 <= i < |groups| ensures Fits(groups[i], db.rows, LINK_SPEC) {
      GroupFits(refs[i], refs, stored, db.rows);
    }
    forall row | row in AllDesired(groups) ensures LINK_SPEC.key(NewRow(row, storage)) == LINK_SPEC.key(row) {
      var i, c :| 0 <= i < |refs| && c in refs[i].citations && row == Link(refs[i].col, c);
      StoredLinkKey(refs[i].col, c, storage);
    }
    UniqueThroughout(db, groups, LINK_SPEC, storage);
  }

  /** Reconcile the links of many columns at once. `stored` is what the table held for them, in id order. */
  method ReconcileColumnsReferences(table: SqlTable, refs: seq<Cited>, stored: seq<Stored>)
    returns (results: seq<(Value, Plan)>)
    requires table.Valid() && Unique(table.rows, LINK_SPEC.key) && KeepsLinkColumns(table.storage)
    requires DistinctColumns(refs) && AllWellFormed(refs) && Scan(stored, table.rows, CitedBy(refs))
    modifies table
    ensures var groups := LinkGroups(refs, stored);
            table.State() == RunInTurn(old(table.State()), groups, LINK_SPEC, table.storage).0
    ensures old(table.history) <= table.history
    ensures forall i :: |old(table.history)| <= i < |table.history| ==> Unique(table.history[i], LINK_SPEC.key)
    ensures |results| == |refs|
    ensures forall i :: 0 <= i < |refs| ==>
              results[i] == (refs[i].col, PlanGroup(LinkGroup(refs[i], stored), LINK_SPEC))
  {
    hide RunInTurn, SliceBack, ApplyPlan, ApplyTrace, MergedPlan, AllDesired, PlanGroup, Unique, Scan;
    results := [];
    if refs == [] {
      NothingInTurn(table.State(), table.storage);
      return;
    }
    var groups := BuildGroups(refs, stored);
    CitationsStayUnique(table.State(), refs, stored, table.storage);
    GroupsAreBelow(table.State(), refs, stored);
    GroupsRefineInTurn(table.State(), groups, LINK_SPEC, table.storage);
    var outcomes := ReconcileGroups(table, groups, LINK_SPEC);
    SlicesArePlans(groups, LINK_SPEC, AssignIds(MergedPlan(groups, LINK_SPEC).matched, old(table.next)));
    results := seq(|refs|, i requires 0 <= i < |refs| && i < |outcomes| => (refs[i].col, outcomes[i].plan));
  }

  lemma NothingInTurn(db: Db, storage: Storage)
    ensures RunInTurn(db, LinkGroups([], []), LINK_SPEC, storage).0 == db
    ensures forall stored :: LinkGroups([], stored) == LinkGroups([], [])
  {
  }

  /** The stored links and the wanted ones, column by column. */
  method BuildGroups(refs: seq<Cited>, stored: seq<Stored>) returns (groups: seq<Group>)
    ensures groups == LinkGroups(refs, stored)
  {
    hide FirstPerKey, RowsOfKey, Queued, Lookup, After;
    var existing, order := QueuesByKey(stored, ColumnOf);
    groups := [];
    for i := 0 to |refs|
      invariant groups == LinkGroups(refs[..i], stored)
    {
      var cited := refs[i];
      var links := Deduplicate(cited.col, cited.citations);
      QueueOfColumn(existing, stored, Key([cited.col]));
      LinkGroupsAppend(refs[..i], cited, stored);
      assert refs[..i + 1] == refs[..i] + [cited];
      groups := groups + [Group(Lookup(existing, Key([cited.col])), links)];
    }
    assert refs[..|refs|] == refs;
  }

  lemma QueueOfColumn(existing: map<Key, seq<Stored>>, stored: seq<Stored>, k: Key)
    requires Queued(existing, stored, [], ColumnOf)
    ensures Lookup(existing, k) == RowsOfKey(stored, ColumnOf, k)
  {
    hide RowsOfKey;
  }

  lemma LinkGroupsAppend(refs: seq<Cited>, cited: Cited, stored: seq<Stored>)
    ensures LinkGroups(refs + [cited], stored) == LinkGroups(refs, stored) + [LinkGroup(cited, stored)]
  {
    hide LinkGroup;
  }

  lemma GroupsAreBelow(db: Db, refs: seq<Cited>, stored: seq<Stored>)
    requires SequenceAhead(db) && Scan(stored, db.rows, CitedBy(refs))
    ensures forall g, row :: g in LinkGroups(refs, stored) && row in g.existing ==> row.id < db.next
  {
    forall g, row | g in LinkGroups(refs, stored) && row in g.existing ensures row.id < db.next {
      var i :| 0 <= i < |refs| && g == LinkGroup(refs[i], stored);
      RowsOfKeyExact(stored, ColumnOf, Key([refs[i].col]));
      assert row in stored;
    }
  }

  lemma {:induction false} SlicesArePlans(groups: seq<Group>, spec: Spec, ids: seq<Id>)
    requires |ids| == |AllDesired(groups)|
    ensures |SliceBack(groups, spec, ids)| == |groups|
    ensures forall i :: 0 <= i < |groups| ==> SliceBack(groups, spec, ids)[i].plan == PlanGroup(groups[i], spec)
  {
    hide PlanGroup;
    if groups != [] {
      var init := groups[..|groups| - 1];
      SlicesArePlans(init, spec, ids[..|AllDesired(init)|]);
    }
  }

  // ---- citing again ----

  /** The links of one column. */
  function ColumnScope(col: Value): Row -> bool {
    (row: Row) => Get(row, "col_id") == col
  }

  function ColumnScopes(refs: seq<Cited>): seq<Row -> bool> {
    seq(|refs|, i requires 0 <= i < |refs| => ColumnScope(refs[i].col))
  }

  /** Locators' addresses, which are all a link owns, are stored as they are sent. */
  ghost predicate KeepsAddresses(storage: Storage) {
    forall v :: storage.round("locator_url", v) == v
  }

  /** Reading all cited columns and picking one out is reading that one. */
  lemma ColumnIsScanned(cited: Cited, refs: seq<Cited>, stored: seq<Stored>, rows: Contents)
    requires Scan(stored, rows, CitedBy(refs)) && cited in refs
    ensures Scan(RowsOfKey(stored, ColumnOf, Key([cited.col])), rows, ColumnScope(cited.col))
  {
    hide RowsOfKey;
    var links := RowsOfKey(stored, ColumnOf, Key([cited.col]));
    RowsOfKeyAscend(stored, ColumnOf, Key([cited.col]));
    RowsOfKeyExact(stored, ColumnOf, Key([cited.col]));
    forall link | link in links ensures Get(link.row, "col_id") == cited.col {
      assert ColumnOf(link.row).parts[0] == cited.col;
    }
    forall id | InScope(ColumnScope(cited.col), rows, id) ensures id in Ids(links) {
      LinkIsRead(cited, refs, stored, rows, id);
      var j :| 0 <= j < |links| && links[j] == Stored(id, rows[id]);
      assert Ids(links)[j] == id;
    }
  }

  /** The links of a column stay links of the column, under their key, as they are stored and updated. */
  lemma LinksSettle(cited: Cited, storage: Storage)
    requires KeepsLinkColumns(storage) && forall c :: c in cited.citations ==> WellFormed(c)
    ensures Settled(FirstPerKey(cited.col, cited.citations), LINK_SPEC, storage, ColumnScope(cited.col))
  {
    LinkKeyIgnoresOwned();
    FirstPerKeyExact(cited.col, cited.citations);
    hide FirstPerKey, KeyIgnores;
    forall link | link in FirstPerKey(cited.col, cited.citations)
      ensures LINK_SPEC.key(NewRow(link, storage)) == LINK_SPEC.key(link)
      ensures Get(NewRow(link, storage), "col_id") == cited.col && "locator_url" in link
    {
      var c :| c in cited.citations && link == Link(cited.col, c);
      StoredLinkKey(cited.col, c, storage);
      LinkColumns(cited.col, c);
      SameKeySameColumn(NewRow(link, storage), link);
    }
    forall row: Row, values: Row {:trigger row + values} | values.Keys == (set c | c in LINK_SPEC.owned)
      ensures Get(row + values, "col_id") == Get(row, "col_id")
    {
      assert "col_id" !in values;
    }
  }

  lemma LinkGroupsRead(db: Db, refs: seq<Cited>, stored: seq<Stored>, storage: Storage)
    requires SequenceAhead(db) && KeepsLinkColumns(storage)
    requires DistinctColumns(refs) && AllWellFormed(refs) && Scan(stored, db.rows, CitedBy(refs))
    ensures GroupsRead(db, LinkGroups(refs, stored), ColumnScopes(refs), LINK_SPEC, storage)
  {
    hide Scan, Settled, RowsOfKey, FirstPerKey;
    forall i | 0 <= i < |refs|
      ensures Scan(LinkGroups(refs, stored)[i].existing, db.rows, ColumnScopes(refs)[i])
      ensures Settled(LinkGroups(refs, stored)[i].desired, LINK_SPEC, storage, ColumnScopes(refs)[i])
    {
      ColumnIsScanned(refs[i], refs, stored, db.rows);
      LinksSettle(refs[i], storage);
    }
    assert DisjointScopes(ColumnScopes(refs));
  }

  /** Citing the same once more writes nothing, in any of the columns. */
  lemma {:induction false} CitationsConverge(db: Db, refs: seq<Cited>, stored: seq<Stored>, storage: Storage,
                                             again: seq<Stored>, i: nat)
    requires SequenceAhead(db) && KeepsLinkColumns(storage) && KeepsAddresses(storage)
    requires DistinctColumns(refs) && AllWellFormed(refs) && Scan(stored, db.rows, CitedBy(refs))
    requires Scan(again, RunInTurn(db, LinkGroups(refs, stored), LINK_SPEC, storage).0.rows, CitedBy(refs))
    requires i < |refs|
    ensures PlanGroup(LinkGroup(refs[i], again), LINK_SPEC).IsNoop()
  {
    var groups := LinkGroups(refs, stored);
    assert Quantized(LINK_SPEC, storage);
    assert forall row :: Survives(row, LINK_SPEC, storage);
    hide Scan, Settled, RowsOfKey, FirstPerKey, RunInTurn, Quantized, Survives, PlanOf, GroupsRead;
    LinkGroupsRead(db, refs, stored, storage);
    ColumnIsScanned(refs[i], refs, again, RunInTurn(db, groups, LINK_SPEC, storage).0.rows);
    SecondRunOfGroup(db, groups, ColumnScopes(refs), LINK_SPEC, storage, i, LinkGroup(refs[i], again).existing);
  }
}
