/** What the columns' links say once their citations are reconciled. */
module CitationLaws {
  import opened Occurrences
  import opened Rows
  import opened Planning
  import opened Tables
  import opened Reconciling
  import opened ReconciliationLaws
  import opened ReconciledRows
  import opened GroupConvergence
  import opened ColumnReferences

  /** What a citation gives for a column of the link, if anything. */
  function Given(citation: Citation, c: Column): Value {
    match citation
    case Bare(refId) => if c == "ref_id" then refId else Null
    case Fields(given) => Get(given, c)
  }

  /** A citation is well-formed exactly when it is bare, or gives the reference and any of the three other columns. */
  lemma {:induction false} WellFormedExactly(citation: Citation)
    ensures WellFormed(citation) <==>
            citation.Bare? || exists others: set<Column> ::
              others <= {"ref_type", "locator", "locator_url"} && citation.given.Keys == {"ref_id"} + others
  {
    if citation.Fields? && WellFormed(citation) {
      var others := citation.given.Keys - {"ref_id"};
      assert citation.given.Keys == {"ref_id"} + others;
      forall c | c in others ensures c in {"ref_type", "locator", "locator_url"} {
        assert c in {"ref_id", "ref_type", "locator", "locator_url"};
      }
    }
  }

  /** Column by column, a link says by which column the reference is cited, which reference, with which verb, where
      in it and under which address. */
  lemma {:induction false} LinkSays(col: Value, citation: Citation)
    requires WellFormed(citation)
    ensures var link := Link(col, citation);
            && link.Keys == {"col_id", "ref_id", "ref_type", "locator", "locator_url"}
            && link["col_id"] == col && link["ref_id"] == Given(citation, "ref_id")
            && link["locator"] == Given(citation, "locator")
            && link["locator_url"] == Given(citation, "locator_url")
            && link["ref_type"] == (if citation.Fields? && "ref_type" in citation.given
                                    then citation.given["ref_type"] else Text("unspecified"))
  {
    var link := Link(col, citation);
    assert link.Keys == {"col_id", "ref_id", "ref_type", "locator", "locator_url"};
  }

  /** Two links are one under the unique key exactly when column, reference, verb and locator are the same. */
  lemma {:induction false} SameLinkExactly(a: Row, b: Row)
    ensures LINK_SPEC.key(a) == LINK_SPEC.key(b) <==>
            && SameColumn(a, b, "col_id") && SameColumn(a, b, "ref_id")
            && SameColumn(a, b, "ref_type") && SameColumn(a, b, "locator")
  {
    SameKeyExactly(LINK_COLUMNS, a, b);
    assert LINK_COLUMNS[0] == "col_id" && LINK_COLUMNS[1] == "ref_id";
    assert LINK_COLUMNS[2] == "ref_type" && LINK_COLUMNS[3] == "locator";
    hide KeyColumns, SameColumn;
  }

  /** The first citation of each key is linked as it stands. */
  lemma {:induction false} FirstCitationIsLinked(col: Value, citations: seq<Citation>, k: nat)
    requires k < |citations|
    requires forall j :: 0 <= j < k ==> LINK_SPEC.key(Link(col, citations[j])) != LINK_SPEC.key(Link(col, citations[k]))
    ensures Link(col, citations[k]) in FirstPerKey(col, citations)
  {
    var n := |citations| - 1;
    if k < n {
      FirstCitationIsLinked(col, citations[..n], k);
    } else if LINK_SPEC.key(Link(col, citations[n])) in DesiredKeys(FirstPerKey(col, citations[..n]), LINK_SPEC.key) {
      LinkedKeyIsCited(col, citations[..n], LINK_SPEC.key(Link(col, citations[n])));
    }
  }

  lemma {:induction false} LinkedKeyIsCited(col: Value, citations: seq<Citation>, key: Key)
    requires key in DesiredKeys(FirstPerKey(col, citations), LINK_SPEC.key)
    ensures exists j :: 0 <= j < |citations| && LINK_SPEC.key(Link(col, citations[j])) == key
  {
    var n := |citations| - 1;
    var links, link := FirstPerKey(col, citations[..n]), Link(col, citations[n]);
    assert DesiredKeys(links + [link], LINK_SPEC.key) == DesiredKeys(links, LINK_SPEC.key) + [LINK_SPEC.key(link)];
    if key in DesiredKeys(links, LINK_SPEC.key) {
      LinkedKeyIsCited(col, citations[..n], key);
      var j :| 0 <= j < n && LINK_SPEC.key(Link(col, citations[..n][j])) == key;
      assert citations[j] == citations[..n][j];
    }
  }

  /** The stored row is this link: the same in the four columns of the key, and in the address. */
  ghost predicate Says(row: Row, link: Row) {
    LINK_SPEC.key(row) == LINK_SPEC.key(link) && SameColumn(row, link, "locator_url")
  }

  /** A row that agrees in the one owned column has the address that was cited. */
  lemma AgreeIsSameAddress(a: Row, b: Row)
    ensures Agree(a, b, LINK_SPEC) <==> SameColumn(a, b, "locator_url")
  {
    assert LINK_SPEC.owned[0] == "locator_url";
    assert Agree(a, b, LINK_SPEC) <==> Get(a, "locator_url") == Get(b, "locator_url");
  }

  /** After one column is reconciled, each of its links is stored under its own id. */
  lemma LinkIsStored(db: Db, cited: Cited, stored: seq<Stored>, storage: Storage, i: nat)
    requires SequenceAhead(db) && KeepsLinkColumns(storage) && KeepsAddresses(storage)
    requires forall c :: c in cited.citations ==> WellFormed(c)
    requires Scan(stored, db.rows, ColumnScope(cited.col))
    requires i < |FirstPerKey(cited.col, cited.citations)|
    ensures var links := FirstPerKey(cited.col, cited.citations);
            var id, after := IdsOf(db, stored, links, LINK_SPEC)[i], Reconciled(db, stored, links, LINK_SPEC, storage);
            id in after.rows && Says(after.rows[id], links[i])
  {
    var links := FirstPerKey(cited.col, cited.citations);
    ScanIsReadFrom(stored, db.rows, ColumnScope(cited.col));
    LinksSettle(cited, storage);
    assert Quantized(LINK_SPEC, storage);
    hide Scan, Settled, FirstPerKey, ReadFrom, IdsOf, Reconciled, Quantized;
    ReturnedRowKey(db, stored, links, LINK_SPEC, storage, ColumnScope(cited.col), i);
    var id, after := IdsOf(db, stored, links, LINK_SPEC)[i], Reconciled(db, stored, links, LINK_SPEC, storage);
    if id in db.rows {
      MatchedRowAgrees(db, stored, links, LINK_SPEC, storage, i);
      AgreeIsSameAddress(after.rows[id], links[i]);
    } else {
      NewRowSays(db, stored, links, LINK_SPEC, storage, i);
      FirstPerKeyExact(cited.col, cited.citations);
      assert links[i] in links;
      var c :| c in cited.citations && links[i] == Link(cited.col, c);
      LinkSays(cited.col, c);
    }
  }

  ghost predicate HasRow(found: seq<Stored>, link: Row) {
    exists p :: 0 <= p < |found| && Says(found[p].row, link)
  }

  ghost predicate HasLink(links: seq<Row>, row: Row) {
    exists j :: 0 <= j < |links| && Says(row, links[j])
  }

  /** The rows found and the links wanted are the same: every link is a row, every row is a link, one for one. */
  ghost predicate RowsAreLinks(found: seq<Stored>, links: seq<Row>) {
    && |found| == |links|
    && (forall j :: 0 <= j < |links| ==> HasRow(found, links[j]))
    && (forall p :: 0 <= p < |found| ==> HasLink(links, found[p].row))
  }

  /** Whatever the columns were linked to before, in the end the rows of each cited column are its links: one for
      each key it cites, with the address of the first citation of the key. */
  lemma {:induction false} CitationsAreStored(db: Db, refs: seq<Cited>, stored: seq<Stored>, storage: Storage,
                                              again: seq<Stored>, i: nat)
    requires SequenceAhead(db) && KeepsLinkColumns(storage) && KeepsAddresses(storage)
    requires DistinctColumns(refs) && AllWellFormed(refs) && Scan(stored, db.rows, CitedBy(refs))
    requires Scan(again, RunInTurn(db, LinkGroups(refs, stored), LINK_SPEC, storage).0.rows, CitedBy(refs))
    requires i < |refs|
    ensures RowsAreLinks(LinkGroup(refs[i], again).existing, FirstPerKey(refs[i].col, refs[i].citations))
  {
    assert ColumnScopes(refs)[i] == ColumnScope(refs[i].col);
    hide Scan, RowsOfKey, FirstPerKey, RunInTurn, GroupsRead, ColumnScopes, RowsAreLinks;
    var groups, found := LinkGroups(refs, stored), LinkGroup(refs[i], again).existing;
    LinkGroupsRead(db, refs, stored, storage);
    ColumnIsScanned(refs[i], refs, again, RunInTurn(db, groups, LINK_SPEC, storage).0.rows);
    GroupFindsItself(db, groups, ColumnScopes(refs), LINK_SPEC, storage, i, found);
    ColumnHoldsLinks(DbAfter(db, groups, i, LINK_SPEC, storage), refs[i], groups[i].existing, storage, found);
  }

  lemma LinkIsFound(db: Db, cited: Cited, stored: seq<Stored>, storage: Storage, found: seq<Stored>, j: nat)
    returns (p: nat)
    requires SequenceAhead(db) && KeepsLinkColumns(storage) && KeepsAddresses(storage)
    requires forall c :: c in cited.citations ==> WellFormed(c)
    requires Scan(stored, db.rows, ColumnScope(cited.col))
    requires var links := FirstPerKey(cited.col, cited.citations);
             Scan(found, Reconciled(db, stored, links, LINK_SPEC, storage).rows, ColumnScope(cited.col))
    requires j < |FirstPerKey(cited.col, cited.citations)|
    ensures p < |found| && Says(found[p].row, FirstPerKey(cited.col, cited.citations)[j])
    ensures found[p].id == IdsOf(db, stored, FirstPerKey(cited.col, cited.citations), LINK_SPEC)[j]
  {
    var links := FirstPerKey(cited.col, cited.citations);
    var ids, after := IdsOf(db, stored, links, LINK_SPEC), Reconciled(db, stored, links, LINK_SPEC, storage);
    hide Settled, FirstPerKey, IdsOf, Reconciled, Says;
    LinksSettle(cited, storage);
    LinkIsStored(db, cited, stored, storage, j);
    ScopeIsReturnedIds(db, stored, links, LINK_SPEC, storage, ColumnScope(cited.col), ids[j]);
    p :| p < |found| && found[p].id == ids[j];
    assert found[p] in found;
  }

  lemma FoundIsLink(db: Db, cited: Cited, stored: seq<Stored>, storage: Storage, found: seq<Stored>, p: nat)
    returns (j: nat)
    requires SequenceAhead(db) && KeepsLinkColumns(storage) && KeepsAddresses(storage)
    requires forall c :: c in cited.citations ==> WellFormed(c)
    requires Scan(stored, db.rows, ColumnScope(cited.col))
    requires var links := FirstPerKey(cited.col, cited.citations);
             Scan(found, Reconciled(db, stored, links, LINK_SPEC, storage).rows, ColumnScope(cited.col))
    requires p < |found|
    ensures j < |FirstPerKey(cited.col, cited.citations)|
    ensures Says(found[p].row, FirstPerKey(cited.col, cited.citations)[j])
    ensures found[p].id == IdsOf(db, stored, FirstPerKey(cited.col, cited.citations), LINK_SPEC)[j]
  {
    var links := FirstPerKey(cited.col, cited.citations);
    var ids, after := IdsOf(db, stored, links, LINK_SPEC), Reconciled(db, stored, links, LINK_SPEC, storage);
    assert found[p] in found;
    hide Settled, FirstPerKey, IdsOf, Reconciled, Says;
    LinksSettle(cited, storage);
    ScopeIsReturnedIds(db, stored, links, LINK_SPEC, storage, ColumnScope(cited.col), found[p].id);
    j :| j < |ids| && ids[j] == found[p].id;
    LinkIsStored(db, cited, stored, storage, j);
  }

  lemma ColumnHoldsLinks(db: Db, cited: Cited, stored: seq<Stored>, storage: Storage, found: seq<Stored>)
    requires SequenceAhead(db) && KeepsLinkColumns(storage) && KeepsAddresses(storage)
    requires forall c :: c in cited.citations ==> WellFormed(c)
    requires Scan(stored, db.rows, ColumnScope(cited.col))
    requires var links := FirstPerKey(cited.col, cited.citations);
             Scan(found, Reconciled(db, stored, links, LINK_SPEC, storage).rows, ColumnScope(cited.col))
    ensures RowsAreLinks(found, FirstPerKey(cited.col, cited.citations))
  {
    hide Says, FirstPerKey, IdsOf, Reconciled, Scan, KeepsLinkColumns, KeepsAddresses, ColumnScope, NoRepeats, ReadFrom,
         WellFormed, SequenceAhead;
    var links, scope := FirstPerKey(cited.col, cited.citations), ColumnScope(cited.col);
    var ids := IdsOf(db, stored, links, LINK_SPEC);
    forall j | 0 <= j < |links| ensures HasRow(found, links[j]) && ids[j] in Ids(found) {
      var p := LinkIsFound(db, cited, stored, storage, found, j);
      assert Ids(found)[p] == ids[j];
    }
    forall p | 0 <= p < |found| ensures HasLink(links, found[p].row) && Ids(found)[p] in ids {
      var j := FoundIsLink(db, cited, stored, storage, found, p);
      assert ids[j] == Ids(found)[p];
    }
    hide HasRow, HasLink;
    ScanIsReadFrom(stored, db.rows, scope);
    ReturnedIdsDistinct(db, stored, links, LINK_SPEC);
    ScanHasNoRepeats(found, Reconciled(db, stored, links, LINK_SPEC, storage).rows, scope);
    SameElementsSameSize(Ids(found), ids);
  }

  lemma ScanHasNoRepeats(existing: seq<Stored>, rows: Contents, scope: Row -> bool)
    requires Scan(existing, rows, scope)
    ensures NoRepeats(Ids(existing))
  {
  }

  /** The links of columns that are not cited stay as they were, and none is added. */
  lemma {:induction false} OtherLinksAreUntouched(db: Db, refs: seq<Cited>, stored: seq<Stored>, storage: Storage)
    requires SequenceAhead(db) && KeepsLinkColumns(storage)
    requires DistinctColumns(refs) && AllWellFormed(refs) && Scan(stored, db.rows, CitedBy(refs))
    ensures SameIn((row: Row) => !CitedBy(refs)(row), db.rows,
                   RunInTurn(db, LinkGroups(refs, stored), LINK_SPEC, storage).0.rows)
  {
    var other := (row: Row) => !CitedBy(refs)(row);
    var groups, scopes := LinkGroups(refs, stored), ColumnScopes(refs);
    forall i | 0 <= i < |groups| ensures Disjoint(scopes[i], other) {
      assert scopes[i] == ColumnScope(refs[i].col);
    }
    assert groups[..|groups|] == groups;
    hide RowsOfKey, FirstPerKey, RunInTurn, Scan, ColumnScopes, GroupsRead, Disjoint;
    LinkGroupsRead(db, refs, stored, storage);
    OutsideIsUntouched(db, groups, scopes, other, LINK_SPEC, storage, |groups|);
  }

  lemma {:induction false} SameElementsSameSize(a: seq<Id>, b: seq<Id>)
    requires NoRepeats(a) && NoRepeats(b) && forall id :: id in a <==> id in b
    ensures |a| == |b|
  {
    DistinctSize(a);
    DistinctSize(b);
    assert Elements(a) == Elements(b);
  }

  lemma {:induction false} DistinctSize(a: seq<Id>)
    requires NoRepeats(a)
    ensures |Elements(a)| == |a|
  {
    if a != [] {
      var init, last := a[..|a| - 1], a[|a| - 1];
      DistinctSize(init);
      assert last !in Elements(init) && a == init + [last];
      hide Elements, NoRepeats;
      ElementsAppend(init, last);
    }
  }
}
