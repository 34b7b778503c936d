/** What the slug migration leaves in every row and every table, and when it is refused, said of the rows alone. */
module MigrationLaws {
  import opened Wrappers
  import opened Slugs
  import opened KebabMigration

  // ---- the slug of a name ----

  predicate IsLowerOrDigit(c: char) {
    'a' <= c <= 'z' || '0' <= c <= '9'
  }

  ghost predicate NoneOf(s: string) {
    forall i :: 0 <= i < |s| ==> !IsLowerOrDigit(s[i])
  }

  ghost predicate AllOf(s: string) {
    s != "" && forall i :: 0 <= i < |s| ==> IsLowerOrDigit(s[i])
  }

  /** The first run of `s` is `run`: other characters before it, and another one after it, or the end. */
  ghost predicate RunAt(s: string, k: nat, run: string) {
    k + |run| <= |s| && NoneOf(s[..k]) && run <= s[k..] && AllOf(run)
    && (k + |run| < |s| ==> !IsLowerOrDigit(s[k + |run|]))
  }

  /** The runs of lower-case letters and digits in `s`, in order. */
  ghost predicate AreRuns(s: string, runs: seq<string>)
    decreases |runs|
  {
    if runs == [] then NoneOf(s)
    else exists k: nat :: RunAt(s, k, runs[0]) && AreRuns(s[k + |runs[0]|..], runs[1..])
  }

  function JoinHyphens(runs: seq<string>): string {
    if runs == [] then "" else if |runs| == 1 then runs[0] else runs[0] + "-" + JoinHyphens(runs[1..])
  }

  lemma {:induction false} HyphenateGap(gap: string, rest: string)
    requires NoneOf(gap) && gap != "" && (rest == "" || IsSlugChar(rest[0]))
    ensures Hyphenate(gap + rest) == "-" + Hyphenate(rest)
  {
    assert (gap + rest)[1..] == gap[1..] + rest;
    assert !IsSlugChar(gap[0]);
    if |gap| > 1 {
      assert !IsSlugChar(gap[1]);
      HyphenateGap(gap[1..], rest);
    } else {
      assert gap + rest == [gap[0]] + rest && gap[1..] + rest == rest;
    }
  }

  lemma {:induction false} HyphenateRun(run: string, rest: string)
    requires forall i :: 0 <= i < |run| ==> IsSlugChar(run[i])
    ensures Hyphenate(run + rest) == run + Hyphenate(rest)
  {
    if run == "" {
      assert run + rest == rest;
    } else {
      assert (run + rest)[1..] == run[1..] + rest;
      HyphenateRun(run[1..], rest);
      assert run == [run[0]] + run[1..];
    }
  }

  /** What stands before the first run becomes one hyphen, or nothing; so does what stands after the last. */
  function Edge(s: string): string {
    if s == "" then "" else "-"
  }

  lemma GapIsEdge(gap: string, rest: string)
    requires NoneOf(gap) && (rest == "" || IsSlugChar(rest[0]))
    ensures Hyphenate(gap + rest) == Edge(gap) + Hyphenate(rest)
  {
    if gap == "" {
      assert gap + rest == rest;
    } else {
      HyphenateGap(gap, rest);
    }
  }

  lemma RunStep(s: string, k: nat, run: string)
    requires RunAt(s, k, run)
    ensures Hyphenate(s) == Edge(s[..k]) + run + Hyphenate(s[k + |run|..])
    ensures s[k + |run|..] == "" || !IsSlugChar(s[k + |run|..][0])
    ensures k == 0 <==> IsSlugChar(s[0])
  {
    var gap, rest := s[..k], s[k + |run|..];
    assert s == gap + (run + rest);
    GapIsEdge(gap, run + rest);
    HyphenateRun(run, rest);
    assert s[k] == run[0];
    assert k > 0 ==> s[0] == gap[0];
    hide Hyphenate;
    assert Edge(gap) + (run + Hyphenate(rest)) == Edge(gap) + run + Hyphenate(rest);
  }

  lemma FirstRun(s: string, runs: seq<string>) returns (k: nat)
    requires AreRuns(s, runs) && runs != []
    ensures k + |runs[0]| <= |s| && RunAt(s, k, runs[0]) && AreRuns(s[k + |runs[0]|..], runs[1..])
    ensures s != "" && (s[..k] == "" <==> k == 0)
  {
    k :| RunAt(s, k, runs[0]) && AreRuns(s[k + |runs[0]|..], runs[1..]);
  }

  lemma NoRun(s: string)
    requires AreRuns(s, [])
    ensures Hyphenate(s) == Edge(s) == Edge(Edge(s))
  {
    GapIsEdge(s, "");
    assert s + "" == s;
  }

  lemma JoinUnfolds(runs: seq<string>)
    requires runs != []
    ensures JoinHyphens(runs) == if |runs| == 1 then runs[0] else runs[0] + "-" + JoinHyphens(runs[1..])
  {
  }

  /** Hyphenated, the runs are joined by hyphens, with at most one more at either end. */
  lemma {:induction false} HyphenateJoins(s: string, runs: seq<string>) returns (front: string, back: string)
    requires AreRuns(s, runs) && runs != []
    ensures Hyphenate(s) == front + JoinHyphens(runs) + back
    ensures back == Edge(back) && s != "" && front == (if IsSlugChar(s[0]) then "" else "-")
    decreases |runs|
  {
    hide *;
    var k := FirstRun(s, runs);
    var run, rest := runs[0], s[k + |runs[0]|..];
    RunStep(s, k, run);
    JoinUnfolds(runs);
    front := if k == 0 then "" else "-";
    EdgeOf(s[..k]);
    if |runs| == 1 {
      assert runs[1..] == [];
      NoRun(rest);
      back := Edge(rest);
    } else {
      var hyphen, end := HyphenateJoins(rest, runs[1..]);
      back := end;
      Regrouped(front, run, JoinHyphens(runs[1..]), back);
    }
  }

  lemma Regrouped(front: string, run: string, more: string, back: string)
    ensures front + run + ("-" + more + back) == front + (run + "-" + more) + back
  {
  }

  lemma EdgeOf(s: string)
    ensures Edge(s) == if s == "" then "" else "-"
  {
  }

  lemma {:induction false} JoinedEnds(runs: seq<string>, s: string)
    requires AreRuns(s, runs) && runs != []
    ensures var j := JoinHyphens(runs); j != "" && j[0] != '-' && j[|j| - 1] != '-'
    decreases |runs|
  {
    var k: nat :| RunAt(s, k, runs[0]) && AreRuns(s[k + |runs[0]|..], runs[1..]);
    assert IsLowerOrDigit(runs[0][0]) && IsLowerOrDigit(runs[0][|runs[0]| - 1]);
    if |runs| > 1 {
      JoinedEnds(runs[1..], s[k + |runs[0]|..]);
      var j, rest := JoinHyphens(runs), JoinHyphens(runs[1..]);
      assert j == runs[0] + "-" + rest && j[|j| - 1] == rest[|rest| - 1] && j[0] == runs[0][0];
    }
  }

  lemma StripEdges(front: string, middle: string, back: string)
    requires front == Edge(front) && back == Edge(back)
    requires middle != "" && middle[0] != '-' && middle[|middle| - 1] != '-'
    ensures StripHyphens(front + middle + back) == middle
  {
    var s := front + middle + back;
    if front != "" {
      assert s[1..] == middle + back && s[0] == '-';
    } else {
      assert s == middle + back;
    }
    StripKeeps(middle);
    if back != "" {
      assert (middle + back)[..|middle + back| - 1] == middle && (middle + back)[0] == middle[0];
      assert (middle + back)[|middle + back| - 1] == '-';
    } else {
      assert middle + back == middle;
    }
    assert StripHyphens(middle + back) == middle;
  }

  /** The runs of a text, read off from the front. */
  lemma {:induction false} RunsOf(s: string) returns (runs: seq<string>)
    ensures AreRuns(s, runs)
    decreases |s|
  {
    var k := 0;
    while k < |s| && !IsLowerOrDigit(s[k])
      invariant k <= |s| && NoneOf(s[..k])
    {
      k := k + 1;
    }
    if k == |s| {
      assert s[..k] == s;
      runs := [];
    } else {
      var n := k + 1;
      while n < |s| && IsLowerOrDigit(s[n])
        invariant k < n <= |s| && AllOf(s[k..n])
      {
        assert s[k..n + 1] == s[k..n] + [s[n]];
        n := n + 1;
      }
      var rest := RunsOf(s[n..]);
      runs := [s[k..n]] + rest;
      assert RunAt(s, k, runs[0]) && runs[1..] == rest;
    }
  }

  /** A slug is the runs of lower-case letters and digits of the lower-cased name, joined by single hyphens. */
  lemma {:induction false} SlugifyExactly(text: string, lower: string -> string) returns (runs: seq<string>)
    ensures AreRuns(lower(text), runs) && Slugify(text, lower) == JoinHyphens(runs)
  {
    var s := lower(text);
    runs := RunsOf(s);
    if runs == [] {
      GapIsEdge(s, "");
      assert s + "" == s;
      assert Hyphenate(s) == Edge(s) && "-"[1..] == "";
    } else {
      var front, back := HyphenateJoins(s, runs);
      JoinedEnds(runs, s);
      StripEdges(front, JoinHyphens(runs), back);
    }
  }

  ghost predicate JoinedFrom(s: string, runs: seq<string>) {
    runs != [] && (forall i :: 0 <= i < |runs| ==> AllOf(runs[i])) && s == JoinHyphens(runs)
  }

  /** The pattern of a slug is some such runs, at least one, with a hyphen between any two. */
  lemma {:induction false} IsSlugExactly(s: string)
    ensures IsSlug(s) <==> exists runs :: JoinedFrom(s, runs)
  {
    if IsSlug(s) {
      var runs := SlugRuns(s);
    }
    if runs :| JoinedFrom(s, runs) {
      RunsMakeSlug(runs);
    }
  }

  lemma {:induction false} RunsMakeSlug(runs: seq<string>)
    requires runs != [] && forall i :: 0 <= i < |runs| ==> AllOf(runs[i])
    ensures IsSlug(JoinHyphens(runs))
  {
    var run := runs[0];
    assert IsSlugChar(run[0]) && IsSlugChar(run[|run| - 1]);
    if |runs| > 1 {
      RunsMakeSlug(runs[1..]);
      var s, rest := JoinHyphens(runs), JoinHyphens(runs[1..]);
      assert s == run + "-" + rest && s[|s| - 1] == rest[|rest| - 1] && s[0] == run[0];
      forall i | 0 <= i < |s| ensures IsSlugChar(s[i]) || s[i] == '-' {
        if i < |run| {
          assert s[i] == run[i];
        } else if i > |run| {
          assert s[i] == rest[i - |run| - 1];
        }
      }
      forall i | 0 <= i < |s| - 1 ensures !(s[i] == '-' && s[i + 1] == '-') {
        if i < |run| {
          assert s[i] == run[i];
        } else {
          assert s[i + 1] == rest[i - |run|];
          if i > |run| {
            assert s[i] == rest[i - |run| - 1];
          }
        }
      }
    }
  }

  lemma {:induction false} SlugRuns(s: string) returns (runs: seq<string>)
    requires IsSlug(s)
    ensures JoinedFrom(s, runs)
    decreases |s|
  {
    var n := 1;
    while n < |s| && s[n] != '-'
      invariant 1 <= n <= |s| && forall i :: 0 <= i < n ==> s[i] != '-'
    {
      n := n + 1;
    }
    assert AllOf(s[..n]);
    if n == |s| {
      runs := [s];
      assert s[..n] == s;
    } else {
      var rest := s[n + 1..];
      assert rest != "" && rest[|rest| - 1] == s[|s| - 1] && rest[0] == s[n + 1];
      assert forall i :: 0 <= i < |rest| ==> rest[i] == s[n + 1 + i];
      assert Hyphenated(rest) by {
        forall i | 0 <= i < |rest| - 1 ensures !(rest[i] == '-' && rest[i + 1] == '-') {
          assert rest[i + 1] == s[n + 1 + i + 1];
        }
      }
      var more := SlugRuns(rest);
      runs := [s[..n]] + more;
      assert runs[1..] == more && s == s[..n] + "-" + rest;
    }
  }

  /** A prefix has an underscore exactly where the slug has a hyphen, and is the slug everywhere else. */
  lemma {:induction false} PrefixExactly(slug: string)
    ensures var prefix := TablePrefix(slug);
            |prefix| == |slug| && forall i :: 0 <= i < |slug| ==>
              if slug[i] == '-' then prefix[i] == '_' else prefix[i] == slug[i]
  {
  }

  // ---- the rows ----

  /** Every row ends under its slug. Its tables follow exactly if they were named after the old slug: the polygon table
      in one column, the line table in the other. */
  lemma {:induction false} MigratedRow(rows: Sources, lower: string -> string, id: SourceId)
    requires id in rows
    ensures MigratedAtOnce(rows, lower).Keys == rows.Keys
    ensures var was, now := rows[id], MigratedAtOnce(rows, lower)[id];
            var prefix := TablePrefix(Slugify(was.slug, lower));
            && now.slug == Slugify(was.slug, lower)
            && now.primaryTable == (if was.primaryTable == Some(was.slug + "_polygons")
                                    then Some(prefix + "_polygons") else was.primaryTable)
            && now.primaryLineTable == (if was.primaryLineTable == Some(was.slug + "_lines")
                                        then Some(prefix + "_lines") else was.primaryLineTable)
  {
    hide Slugify, TablePrefix;
    var was, prefix := rows[id], TablePrefix(Slugify(rows[id].slug, lower));
    assert was.slug + "_" + "polygons" == was.slug + "_polygons" && was.slug + "_" + "lines" == was.slug + "_lines";
    assert prefix + "_" + "polygons" == prefix + "_polygons" && prefix + "_" + "lines" == prefix + "_lines";
  }

  // ---- the staging tables ----

  ghost predicate IsStagingKind(kind: string) {
    kind == "polygons" || kind == "lines" || kind == "points"
  }

  /** The table is the one of this kind of some row, under its old slug, and its name changes with the slug. */
  ghost predicate MovesTable(rows: Sources, before: StagingTables, source: string, target: string,
                             lower: string -> string) {
    && source in before && source != target
    && exists id, kind :: id in rows && IsStagingKind(kind) && source == rows[id].slug + "_" + kind
                          && target == TablePrefix(Slugify(rows[id].slug, lower)) + "_" + kind
  }

  lemma KindsExactly(kind: string) returns (k: nat)
    ensures IsStagingKind(kind) ==> k < |STAGING_KINDS| && STAGING_KINDS[k] == kind
    ensures forall j :: 0 <= j < |STAGING_KINDS| ==> IsStagingKind(STAGING_KINDS[j])
  {
    k := if kind == "polygons" then 0 else if kind == "lines" then 1 else 2;
  }

  /** One of the moves takes the table there. */
  ghost predicate IsMove(before: StagingTables, moves: seq<Move>, source: string, target: string) {
    exists p :: 0 <= p < |moves| && Moves(before, moves[p]) && moves[p] == Move(source, target)
  }

  lemma MovesTableExactly(rows: Sources, renames: seq<Rename>, before: StagingTables, source: string, target: string,
                          lower: string -> string)
    requires Describes(renames, rows, lower)
    ensures MovesTable(rows, before, source, target, lower) <==> IsMove(before, MovesOf(renames), source, target)
  {
    hide Slugify, TablePrefix, Describes, IsStagingKind;
    if MovesTable(rows, before, source, target, lower) {
      var id, kind :| id in rows && IsStagingKind(kind) && source == rows[id].slug + "_" + kind
                      && target == TablePrefix(Slugify(rows[id].slug, lower)) + "_" + kind;
      var k := KindsExactly(kind);
      var i := RenameOf(renames, rows, id, lower);
      MoveAt(renames, i, k);
      assert MovesOf(renames)[3 * i + k] == Move(source, target);
    }
    if IsMove(before, MovesOf(renames), source, target) {
      var moves := MovesOf(renames);
      var p :| 0 <= p < |moves| && Moves(before, moves[p]) && moves[p] == Move(source, target);
      var id := RowOf(renames, rows, p / 3, lower);
      var k := KindsExactly("");
      assert IsStagingKind(STAGING_KINDS[p % 3]);
    }
  }

  /** All staging tables named after a slug take the new name at once, with what they hold. No other table changes. */
  lemma {:induction false} MigratedTables(rows: Sources, renames: seq<Rename>, before: StagingTables,
                                          after: StagingTables, lower: string -> string)
    requires Describes(renames, rows, lower) && MovedAtOnce(before, MovesOf(renames), after)
    ensures forall source, target :: MovesTable(rows, before, source, target, lower) ==>
              target in after && after[target] == before[source]
    ensures forall t :: t in after <==>
              || (t in before && forall target :: !MovesTable(rows, before, t, target, lower))
              || exists source :: MovesTable(rows, before, source, t, lower)
    ensures forall t :: t in after && (forall source :: !MovesTable(rows, before, source, t, lower)) ==>
              t in before && after[t] == before[t]
  {
    var moves := MovesOf(renames);
    forall source, target
      ensures MovesTable(rows, before, source, target, lower) <==> IsMove(before, moves, source, target)
    {
      MovesTableExactly(rows, renames, before, source, target, lower);
    }
    hide Describes, MovesTable, MovesOf, Slugify, TablePrefix;
    forall t ensures MovedFrom(before, moves, t) <==> exists target :: IsMove(before, moves, t, target)
             ensures MovedTo(before, moves, t) <==> exists source :: IsMove(before, moves, source, t) {
      MoveEnds(before, moves, t);
    }
    hide MovedFrom, MovedTo;
  }

  lemma MoveEnds(before: StagingTables, moves: seq<Move>, t: string)
    ensures MovedFrom(before, moves, t) <==> exists target :: IsMove(before, moves, t, target)
    ensures MovedTo(before, moves, t) <==> exists source :: IsMove(before, moves, source, t)
  {
    if MovedFrom(before, moves, t) {
      var p :| 0 <= p < |moves| && Moves(before, moves[p]) && moves[p].source == t;
      assert IsMove(before, moves, t, moves[p].target);
    }
    if MovedTo(before, moves, t) {
      var p :| 0 <= p < |moves| && Moves(before, moves[p]) && moves[p].target == t;
      assert IsMove(before, moves, moves[p].source, t);
    }
  }

  lemma MovedFromExactly(rows: Sources, renames: seq<Rename>, before: StagingTables, t: string, lower: string -> string)
    requires Describes(renames, rows, lower)
    ensures MovedFrom(before, MovesOf(renames), t) <==> exists target :: MovesTable(rows, before, t, target, lower)
  {
    forall target ensures MovesTable(rows, before, t, target, lower) <==> IsMove(before, MovesOf(renames), t, target) {
      MovesTableExactly(rows, renames, before, t, target, lower);
    }
    MoveEnds(before, MovesOf(renames), t);
    hide MovedFrom, MovesTable, IsMove, Describes, MovesOf;
  }

  /** The table `now` holds what `t` held. */
  predicate Holds(now: Option<string>, after: StagingTables, t: string, before: StagingTables)
    requires t in before
  {
    now.Some? && now.value in after && after[now.value] == before[t]
  }

  lemma FollowedIsHeld(rows: Sources, renames: seq<Rename>, before: StagingTables, after: StagingTables,
                       id: SourceId, t: string, k: nat, lower: string -> string)
    requires Describes(renames, rows, lower) && NoCollisions(renames) && KeepsLowerCase(lower)
    requires !Obstructed(before, MovesOf(renames)) && MovedAtOnce(before, MovesOf(renames), after)
    requires id in rows && t in before && k < |STAGING_KINDS|
    ensures var r := Rename(rows[id].slug, Slugify(rows[id].slug, lower));
            Holds(FollowTable(Some(t), r, STAGING_KINDS[k]), after, t, before) <==>
            t == StagingTable(rows[id].slug, STAGING_KINDS[k])
            || forall target :: !MovesTable(rows, before, t, target, lower)
  {
    MovedFromExactly(rows, renames, before, t, lower);
    FollowedNameIsFound(rows, renames, before, after, id, t, k, lower);
    hide Slugify, TablePrefix, KeepsLowerCase, NoCollisions, Describes, Obstructed, MovesOf, MovedAtOnce, MovesTable,
         MovedFrom, StagingTable;
  }

  /** Which name each column of a migrated row follows. */
  lemma FollowedColumns(rows: Sources, id: SourceId, lower: string -> string)
    requires id in rows
    ensures var was, now := rows[id], MigratedAtOnce(rows, lower)[id];
            var r := Rename(was.slug, Slugify(was.slug, lower));
            && now.primaryTable == FollowTable(was.primaryTable, r, STAGING_KINDS[0])
            && now.primaryLineTable == FollowTable(was.primaryLineTable, r, STAGING_KINDS[1])
            && StagingTable(was.slug, STAGING_KINDS[0]) == was.slug + "_polygons"
            && StagingTable(was.slug, STAGING_KINDS[1]) == was.slug + "_lines"
  {
    hide Slugify, TablePrefix;
    var was := rows[id];
    assert was.slug + "_" + "polygons" == was.slug + "_polygons" && was.slug + "_" + "lines" == was.slug + "_lines";
  }

  /** A migrated row goes on naming the table it named exactly when that was its own of the column's kind, or did not
      move: for the polygon table, and for the line table. */
  lemma {:induction false} TableIsFollowedExactly(rows: Sources, renames: seq<Rename>,
                                                  before: StagingTables, after: StagingTables,
                                                  id: SourceId, t: string, lower: string -> string)
    requires Describes(renames, rows, lower) && NoCollisions(renames) && KeepsLowerCase(lower)
    requires !Obstructed(before, MovesOf(renames)) && MovedAtOnce(before, MovesOf(renames), after)
    requires id in rows && t in before
    ensures var was, now := rows[id], MigratedAtOnce(rows, lower)[id];
            var stays := forall target :: !MovesTable(rows, before, t, target, lower);
            && (was.primaryTable == Some(t) ==>
                  (Holds(now.primaryTable, after, t, before) <==> t == was.slug + "_polygons" || stays))
            && (was.primaryLineTable == Some(t) ==>
                  (Holds(now.primaryLineTable, after, t, before) <==> t == was.slug + "_lines" || stays))
  {
    FollowedColumns(rows, id, lower);
    FollowedIsHeld(rows, renames, before, after, id, t, 0, lower);
    FollowedIsHeld(rows, renames, before, after, id, t, 1, lower);
    hide *;
  }

  // ---- refusals ----

  /** The constraints ask that no two rows have the same slug, and no two that name a primary table the same one. */
  lemma {:induction false} ConstraintsExactly(rows: Sources)
    ensures ConstraintsHold(rows) <==>
            forall a, b :: a in rows && b in rows && a != b ==>
              && rows[a].slug != rows[b].slug
              && (rows[a].primaryTable == None || rows[b].primaryTable == None
                  || rows[a].primaryTable.value != rows[b].primaryTable.value)
  {
    if ConstraintsHold(rows) {
      assert SlugsUnique(rows) && PrimaryUnique(rows);
    }
  }

  /** Slugs collide exactly when some row's new slug is empty or that of another row. */
  lemma {:induction false} CollisionsExactly(rows: Sources, renames: seq<Rename>, lower: string -> string)
    requires Describes(renames, rows, lower) && SlugsUnique(rows)
    ensures NoCollisions(renames) <==>
            && (forall id :: id in rows ==> Slugify(rows[id].slug, lower) != "")
            && (forall a, b :: a in rows && b in rows && a != b ==>
                  Slugify(rows[a].slug, lower) != Slugify(rows[b].slug, lower))
  {
    hide Slugify, Describes, DescribesRows;
    DescribedOnce(renames, rows, lower);
    if NoCollisions(renames) {
      forall id | id in rows ensures Slugify(rows[id].slug, lower) != "" {
        var i := RenameOf(renames, rows, id, lower);
      }
      forall a, b | a in rows && b in rows && a != b
        ensures Slugify(rows[a].slug, lower) != Slugify(rows[b].slug, lower)
      {
        var i := RenameOf(renames, rows, a, lower);
        var j := RenameOf(renames, rows, b, lower);
        assert i != j;
      }
    } else if i :| 0 <= i < |renames| && renames[i].becomes == "" {
      var id := RowOf(renames, rows, i, lower);
    } else {
      var i, j :| 0 <= i < j < |renames| && renames[i].becomes == renames[j].becomes;
      var a := RowOf(renames, rows, i, lower);
      var b := RowOf(renames, rows, j, lower);
      assert a != b;
    }
  }

  lemma DescribedOnce(renames: seq<Rename>, rows: Sources, lower: string -> string)
    requires Describes(renames, rows, lower)
    ensures forall i, j :: 0 <= i < j < |renames| ==> renames[i].was != renames[j].was
  {
    hide Slugify;
  }

  /** A table is in the way exactly when one that moves would take the name of one that is there. */
  lemma {:induction false} ObstructedExactly(rows: Sources, renames: seq<Rename>, before: StagingTables,
                                             lower: string -> string)
    requires Describes(renames, rows, lower)
    ensures Obstructed(before, MovesOf(renames)) <==>
            exists source, target :: MovesTable(rows, before, source, target, lower) && target in before
  {
    var moves := MovesOf(renames);
    forall source, target
      ensures MovesTable(rows, before, source, target, lower) <==> IsMove(before, moves, source, target)
    {
      MovesTableExactly(rows, renames, before, source, target, lower);
    }
    hide Describes, MovesTable, MovesOf, Slugify, TablePrefix;
    if Obstructed(before, moves) {
      var p :| 0 <= p < |moves| && Moves(before, moves[p]) && moves[p].target in before;
      assert IsMove(before, moves, moves[p].source, moves[p].target);
    }
  }

  /** The unique primary table is in the way exactly when one row names the polygon table of its old slug, and another
      the polygon table of the new slug of the first. */
  lemma {:induction false} ClashesExactly(rows: Sources, lower: string -> string)
    ensures Clashes(rows, lower) <==>
            exists a, b :: a in rows && b in rows && a != b
                           && rows[a].primaryTable == Some(rows[a].slug + "_polygons")
                           && rows[b].primaryTable == Some(TablePrefix(Slugify(rows[a].slug, lower)) + "_polygons")
  {
    hide Slugify, TablePrefix;
    forall a, b | a in rows && b in rows
      ensures TakenBy(rows, a, b, lower) <==>
              && a != b && rows[a].primaryTable == Some(rows[a].slug + "_polygons")
              && rows[b].primaryTable == Some(TablePrefix(Slugify(rows[a].slug, lower)) + "_polygons")
    {
      var prefix := TablePrefix(Slugify(rows[a].slug, lower));
      assert rows[a].slug + "_" + "polygons" == rows[a].slug + "_polygons";
      assert prefix + "_" + "polygons" == prefix + "_polygons";
    }
    hide TakenBy;
  }
}
