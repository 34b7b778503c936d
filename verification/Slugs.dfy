/** Map source slugs: kebab-case, and the table prefixes derived from them. */
module Slugs {

  predicate IsSlugChar(c: char) {
    'a' <= c <= 'z' || '0' <= c <= '9'
  }

  /** Runs of other characters become one hyphen each. */
  function Hyphenate(s: string): string {
    if s == "" then ""
    else if IsSlugChar(s[0]) then [s[0]] + Hyphenate(s[1..])
    else if |s| > 1 && !IsSlugChar(s[1]) then Hyphenate(s[1..])
    else "-" + Hyphenate(s[1..])
  }

  /** `strip("-")`. */
  function StripHyphens(s: string): string
    decreases |s|
  {
    if s == "" then ""
    else if s[0] == '-' then StripHyphens(s[1..])
    else if s[|s| - 1] == '-' then StripHyphens(s[..|s| - 1])
    else s
  }

  function Slugify(text: string, lower: string -> string): string {
    StripHyphens(Hyphenate(lower(text)))
  }

  function TablePrefix(slug: string): string {
    seq(|slug|, i requires 0 <= i < |slug| => if slug[i] == '-' then '_' else slug[i])
  }

  /** Hyphens and slug characters, and never two hyphens together. */
  predicate Hyphenated(s: string) {
    && (forall i :: 0 <= i < |s| ==> IsSlugChar(s[i]) || s[i] == '-')
    && (forall i :: 0 <= i < |s| - 1 ==> !(s[i] == '-' && s[i + 1] == '-'))
  }

  /** `^[a-z0-9]+(-[a-z0-9]+)*$` */
  predicate IsSlug(s: string) {
    s != "" && Hyphenated(s) && s[0] != '-' && s[|s| - 1] != '-'
  }

  /** Lower-casing leaves lower-case names, hyphens and underscores as they are. */
  ghost predicate KeepsLowerCase(lower: string -> string) {
    forall s :: (forall i :: 0 <= i < |s| ==> IsSlugChar(s[i]) || s[i] == '-' || s[i] == '_') ==> lower(s) == s
  }

  lemma {:induction false} HyphenateGives(s: string)
    ensures Hyphenated(Hyphenate(s))
    ensures s != "" && IsSlugChar(s[0]) ==> Hyphenate(s) != "" && IsSlugChar(Hyphenate(s)[0])
  {
    if s != "" {
      HyphenateGives(s[1..]);
    }
  }

  lemma {:induction false} StripGives(s: string)
    requires Hyphenated(s)
    ensures StripHyphens(s) == "" || IsSlug(StripHyphens(s))
    decreases |s|
  {
    if s != "" {
      if s[0] == '-' {
        StripGives(s[1..]);
      } else if s[|s| - 1] == '-' {
        StripGives(s[..|s| - 1]);
      }
    }
  }

  /** A name is slugified to a slug, or to nothing. */
  lemma SlugifyGivesSlug(text: string, lower: string -> string)
    ensures Slugify(text, lower) == "" || IsSlug(Slugify(text, lower))
  {
    HyphenateGives(lower(text));
    StripGives(Hyphenate(lower(text)));
  }

  /** Writing every hyphen of a slug as some other character and slugifying again gives the slug back. */
  lemma {:induction false} HyphenateRestores(slug: string, text: string)
    requires Hyphenated(slug) && |text| == |slug|
    requires forall i :: 0 <= i < |slug| ==> if slug[i] == '-' then !IsSlugChar(text[i]) else text[i] == slug[i]
    ensures Hyphenate(text) == slug
  {
    if slug != "" {
      HyphenateRestores(slug[1..], text[1..]);
      assert slug == [slug[0]] + slug[1..];
      if |slug| > 1 {
        assert slug[0] == '-' ==> text[1] == slug[1];
      }
    }
  }

  /** A slug is its own slug. */
  lemma SlugIsFixed(slug: string, lower: string -> string)
    requires IsSlug(slug) && KeepsLowerCase(lower)
    ensures Slugify(slug, lower) == slug
  {
    assert lower(slug) == slug;
    HyphenateRestores(slug, slug);
  }

  lemma SlugifyIdempotent(text: string, lower: string -> string)
    requires KeepsLowerCase(lower)
    ensures Slugify(Slugify(text, lower), lower) == Slugify(text, lower)
  {
    SlugifyGivesSlug(text, lower);
    if Slugify(text, lower) == "" {
      assert lower("") == "";
    } else {
      SlugIsFixed(Slugify(text, lower), lower);
    }
  }

  lemma HyphensBecomeOne(s: string)
    requires |s| == 4 && IsSlugChar(s[0]) && s[1] == '-' && s[2] == '-' && IsSlugChar(s[3])
    ensures Hyphenate(s) == [s[0], '-', s[3]]
  {
    var t := s[1..];
    assert t[1..] == s[2..] && s[2..][1..] == s[3..] == [s[3]] && s[3..][1..] == "";
    assert Hyphenate(s[3..]) == [s[3]];
    assert Hyphenate(s[2..]) == ['-', s[3]];
    assert Hyphenate(t) == ['-', s[3]];
  }

  lemma StripKeeps(s: string)
    requires s != "" && s[0] != '-' && s[|s| - 1] != '-'
    ensures StripHyphens(s) == s
  {
  }

  /** Two hyphens in a row become one. */
  lemma {:induction false} DoubledHyphen(lower: string -> string)
    requires KeepsLowerCase(lower)
    ensures Slugify("a--b", lower) == "a-b"
  {
    assert lower("a--b") == "a--b";
    hide KeepsLowerCase;
    HyphensBecomeOne("a--b");
    hide Hyphenate;
    StripKeeps("a-b");
  }

  /** A table prefix is slugified back to the slug it came from. */
  lemma PrefixSlugifiesBack(slug: string, lower: string -> string)
    requires IsSlug(slug) && KeepsLowerCase(lower)
    ensures Slugify(TablePrefix(slug), lower) == slug
  {
    assert lower(TablePrefix(slug)) == TablePrefix(slug);
    HyphenateRestores(slug, TablePrefix(slug));
  }
}

/** The migration that renames every slug, and the tables and columns that follow it. */
module KebabMigration {
  import opened Wrappers
  import opened Slugs

  datatype Rename = Rename(was: string, becomes: string)
  datatype Source = Source(slug: string, primaryTable: Option<string>, primaryLineTable: Option<string>)
  datatype SourceId = SourceId(number: int)
  type Sources = map<SourceId, Source>
  type StagingTables = map<string, int>

  datatype MigrationError = Collisions | TargetExists(target: string) | PrimaryTableTaken

  const STAGING_KINDS := ["polygons", "lines", "points"]

  // ---- collisions ----

  /** No two slugs get one name, and none gets an empty one. */
  predicate NoCollisions(renames: seq<Rename>) {
    && (forall i, j :: 0 <= i < j < |renames| ==> renames[i].becomes != renames[j].becomes)
    && (forall i :: 0 <= i < |renames| ==> renames[i].becomes != "")
  }

  /** Group the old slugs by their new name, and refuse a name with two or an empty one. */
  method RefuseCollisions(renames: seq<Rename>) returns (refused: bool)
    ensures refused <==> !NoCollisions(renames)
  {
    var byNew: map<string, nat> := map[];
    refused := false;
    for i := 0 to |renames|
      invariant refused <==> !NoCollisions(renames[..i])
      invariant forall n :: n in byNew <==> exists j :: 0 <= j < i && renames[j].becomes == n
    {
      var name := renames[i].becomes;
      assert forall j :: 0 <= j < i ==> renames[..i + 1][j] == renames[..i][j];
      assert renames[..i + 1][i] == renames[i];
      if name in byNew || name == "" {
        if name in byNew {
          var j :| 0 <= j < i && renames[j].becomes == name;
          assert renames[..i + 1][j].becomes == renames[..i + 1][i].becomes;
        } else {
          assert renames[..i + 1][i].becomes == "";
        }
        refused := true;
      }
      byNew := byNew[name := 1 + if name in byNew then byNew[name] else 0];
    }
    assert renames[..|renames|] == renames;
  }

  // ---- renaming the staging tables ----

  datatype Move = Move(source: string, target: string)

  function StagingTable(prefix: string, kind: string): string {
    prefix + "_" + kind
  }

  function MoveOf(r: Rename, kind: string): Move {
    Move(StagingTable(r.was, kind), StagingTable(TablePrefix(r.becomes), kind))
  }

  /** Every rename moves its three staging tables. */
  function MovesOf(renames: seq<Rename>): seq<Move> {
    seq(3 * |renames|, p requires 0 <= p < 3 * |renames| => MoveOf(renames[p / 3], STAGING_KINDS[p % 3]))
  }

  /** No two moves share a source or a target, and no table moves to where another moves from. */
  ghost predicate Apart(moves: seq<Move>) {
    forall p, q :: 0 <= p < |moves| && 0 <= q < |moves| && p != q ==>
      moves[p].source != moves[q].source && moves[p].target != moves[q].target && moves[p].source != moves[q].target
  }

  /** The move renames a table that is there. */
  predicate Moves(tables: StagingTables, m: Move) {
    m.source in tables && m.source != m.target
  }

  /** A table of `tables` that some move takes away. */
  ghost predicate MovedFrom(tables: StagingTables, moves: seq<Move>, t: string) {
    exists p :: 0 <= p < |moves| && Moves(tables, moves[p]) && moves[p].source == t
  }

  ghost predicate MovedTo(tables: StagingTables, moves: seq<Move>, t: string) {
    exists p :: 0 <= p < |moves| && Moves(tables, moves[p]) && moves[p].target == t
  }

  /** The names there are: those not moved away, and those moved to. */
  ghost predicate NamesMoved(before: StagingTables, moves: seq<Move>, after: StagingTables) {
    forall t :: t in after <==> (t in before && !MovedFrom(before, moves, t)) || MovedTo(before, moves, t)
  }

  /** Each table that is moved keeps what it holds. */
  ghost predicate Carried(before: StagingTables, moves: seq<Move>, after: StagingTables) {
    forall p :: 0 <= p < |moves| && Moves(before, moves[p]) ==>
      moves[p].target in after && after[moves[p].target] == before[moves[p].source]
  }

  ghost predicate RestKept(before: StagingTables, moves: seq<Move>, after: StagingTables) {
    forall t :: t in after && !MovedTo(before, moves, t) ==> t in before && after[t] == before[t]
  }

  /** All moves at once, each table of `before` keeping what it holds. */
  ghost predicate MovedAtOnce(before: StagingTables, moves: seq<Move>, after: StagingTables) {
    NamesMoved(before, moves, after) && Carried(before, moves, after) && RestKept(before, moves, after)
  }

  /** Some move would overwrite a table that was there from the start. */
  predicate Obstructed(tables: StagingTables, moves: seq<Move>) {
    exists p :: 0 <= p < |moves| && Moves(tables, moves[p]) && moves[p].target in tables
  }

  lemma MovedByOneMore(before: StagingTables, moves: seq<Move>, m: Move)
    ensures forall t :: MovedFrom(before, moves + [m], t) <==>
              MovedFrom(before, moves, t) || (Moves(before, m) && m.source == t)
    ensures forall t :: MovedTo(before, moves + [m], t) <==>
              MovedTo(before, moves, t) || (Moves(before, m) && m.target == t)
  {
    var all := moves + [m];
    assert all[|moves|] == m;
    assert forall p :: 0 <= p < |moves| ==> all[p] == moves[p];
  }

  lemma MoveStays(before: StagingTables, moves: seq<Move>, m: Move, mid: StagingTables)
    requires MovedAtOnce(before, moves, mid) && !Moves(before, m)
    ensures MovedAtOnce(before, moves + [m], mid)
  {
    MovedByOneMore(before, moves, m);
    hide MovedFrom, MovedTo;
    var all := moves + [m];
    assert all[|moves|] == m;
    assert forall p :: 0 <= p < |moves| ==> all[p] == moves[p];
  }

  /** One more table is moved, to a name nothing has. */
  lemma MoveGoes(before: StagingTables, moves: seq<Move>, m: Move, mid: StagingTables)
    requires MovedAtOnce(before, moves, mid) && Moves(before, m)
    requires !MovedFrom(before, moves, m.source) && !MovedTo(before, moves, m.source)
    requires m.target !in before && !MovedTo(before, moves, m.target)
    ensures m.source in mid && m.target !in mid
    ensures MovedAtOnce(before, moves + [m], (mid - {m.source})[m.target := mid[m.source]])
  {
    EachIsCarried(before, moves, m, mid);
    assert m.source != m.target;
    hide MovedTo, MovedFrom, Moves, Carried, RestKept, NamesMoved;
    NamesGo(before, moves, m, mid);
    RestStays(before, moves, m, mid);
  }

  lemma NamesGo(before: StagingTables, moves: seq<Move>, m: Move, mid: StagingTables)
    requires NamesMoved(before, moves, mid) && Moves(before, m) && m.source in mid && m.source != m.target
    requires !MovedTo(before, moves, m.source)
    ensures NamesMoved(before, moves + [m], (mid - {m.source})[m.target := mid[m.source]])
  {
    MovedByOneMore(before, moves, m);
    hide MovedTo, MovedFrom, Moves;
  }

  lemma RestStays(before: StagingTables, moves: seq<Move>, m: Move, mid: StagingTables)
    requires RestKept(before, moves, mid) && Moves(before, m) && m.source in mid
    ensures RestKept(before, moves + [m], (mid - {m.source})[m.target := mid[m.source]])
  {
    MovedByOneMore(before, moves, m);
    hide MovedTo, MovedFrom, Moves;
  }

  lemma EachIsCarried(before: StagingTables, moves: seq<Move>, m: Move, mid: StagingTables)
    requires MovedAtOnce(before, moves, mid) && Moves(before, m)
    requires !MovedFrom(before, moves, m.source) && !MovedTo(before, moves, m.source)
    requires m.target !in before && !MovedTo(before, moves, m.target)
    ensures m.source in mid && mid[m.source] == before[m.source] && m.target !in mid
    ensures Carried(before, moves + [m], (mid - {m.source})[m.target := mid[m.source]])
  {
    var all, after := moves + [m], (mid - {m.source})[m.target := mid[m.source]];
    forall p | 0 <= p < |all| && Moves(before, all[p])
      ensures all[p].target in after && after[all[p].target] == before[all[p].source]
    {
      if p < |moves| {
        assert all[p] == moves[p] && MovedTo(before, moves, moves[p].target);
      }
    }
  }

  /** The names seen: those there from the start, and those moved to. */
  ghost predicate Seen(before: StagingTables, moves: seq<Move>, seen: set<string>) {
    forall t :: t in seen <==> t in before || MovedTo(before, moves, t)
  }

  /** Moves that are apart are not in the way of each other, so only what was there from the start can be. */
  lemma NextMove(before: StagingTables, moves: seq<Move>, i: nat, seen: set<string>)
    requires Apart(moves) && i < |moves| && Seen(before, moves[..i], seen)
    ensures moves[..i + 1] == moves[..i] + [moves[i]]
    ensures moves[i].source in seen <==> moves[i].source in before
    ensures moves[i].target in seen <==> moves[i].target in before
    ensures !MovedFrom(before, moves[..i], moves[i].source)
    ensures !MovedTo(before, moves[..i], moves[i].source) && !MovedTo(before, moves[..i], moves[i].target)
    ensures Obstructed(before, moves[..i + 1]) <==>
              Obstructed(before, moves[..i]) || (Moves(before, moves[i]) && moves[i].target in before)
    ensures Obstructed(before, moves[..i + 1]) ==> Obstructed(before, moves)
    ensures !Moves(before, moves[i]) ==> Seen(before, moves[..i + 1], seen)
    ensures Moves(before, moves[i]) ==> Seen(before, moves[..i + 1], seen + {moves[i].target})
  {
    var some := moves[..i + 1];
    assert some[i] == moves[i];
    assert forall p :: 0 <= p < i ==> some[p] == moves[p] && moves[..i][p] == moves[p];
    assert some == moves[..i] + [moves[i]];
    MovedByOneMore(before, moves[..i], moves[i]);
  }

  // ---- no two renames get in each other's way ----

  predicate SlugsUnique(rows: Sources) {
    forall a, b :: a in rows && b in rows && rows[a].slug == rows[b].slug ==> a == b
  }

  ghost function Names(renames: seq<Rename>): set<string> {
    set i | 0 <= i < |renames| :: renames[i].was
  }

  lemma NamesOfAppend(renames: seq<Rename>, r: Rename)
    ensures Names(renames + [r]) == Names(renames) + {r.was}
  {
    var all := renames + [r];
    assert all[|renames|] == r;
    assert forall i :: 0 <= i < |renames| ==> all[i] == renames[i];
    forall n | n in Names(renames) + {r.was} ensures n in Names(all) {
      if n in Names(renames) {
        var i :| 0 <= i < |renames| && renames[i].was == n;
        assert all[i].was == n;
      } else {
        assert all[|renames|].was == n;
      }
    }
  }

  ghost predicate HasSlug(rows: Sources, read: set<SourceId>, slug: string) {
    exists id :: id in rows && id in read && rows[id].slug == slug
  }

  /** One rename for each slug of the rows `read`, to its kebab form. */
  ghost predicate DescribesRows(renames: seq<Rename>, rows: Sources, read: set<SourceId>, lower: string -> string) {
    && (forall i :: 0 <= i < |renames| ==> renames[i].becomes == Slugify(renames[i].was, lower))
    && (forall i, j :: 0 <= i < j < |renames| ==> renames[i].was != renames[j].was)
    && (forall slug :: slug in Names(renames) <==> HasSlug(rows, read, slug))
  }

  ghost predicate Describes(renames: seq<Rename>, rows: Sources, lower: string -> string) {
    DescribesRows(renames, rows, rows.Keys, lower)
  }

  lemma HasSlugOneMore(rows: Sources, read: set<SourceId>, id: SourceId, slug: string)
    requires id in rows
    ensures HasSlug(rows, read + {id}, slug) <==> HasSlug(rows, read, slug) || rows[id].slug == slug
  {
  }

  lemma NewSlugIsUnread(rows: Sources, read: set<SourceId>, id: SourceId)
    requires SlugsUnique(rows) && id in rows && id !in read
    ensures !HasSlug(rows, read, rows[id].slug)
  {
  }

  lemma ReadOne(renames: seq<Rename>, rows: Sources, read: set<SourceId>, id: SourceId, lower: string -> string)
    requires DescribesRows(renames, rows, read, lower) && SlugsUnique(rows)
    requires id in rows && id !in read
    ensures DescribesRows(renames + [Rename(rows[id].slug, Slugify(rows[id].slug, lower))], rows, read + {id}, lower)
  {
    var r := Rename(rows[id].slug, Slugify(rows[id].slug, lower));
    NewSlugIsUnread(rows, read, id);
    NamesOfAppend(renames, r);
    assert forall i :: 0 <= i < |renames| ==> renames[i].was in Names(renames);
    hide Slugify, HasSlug, Names, SlugsUnique;
    forall slug ensures slug in Names(renames + [r]) <==> HasSlug(rows, read + {id}, slug) {
      HasSlugOneMore(rows, read, id, slug);
    }
  }

  lemma RenameOf(renames: seq<Rename>, rows: Sources, id: SourceId, lower: string -> string) returns (i: nat)
    requires Describes(renames, rows, lower) && id in rows
    ensures i < |renames| && renames[i] == Rename(rows[id].slug, Slugify(rows[id].slug, lower))
  {
    hide Slugify;
    assert HasSlug(rows, rows.Keys, rows[id].slug);
    i :| i < |renames| && renames[i].was == rows[id].slug;
  }

  lemma RowOf(renames: seq<Rename>, rows: Sources, i: nat, lower: string -> string) returns (id: SourceId)
    requires Describes(renames, rows, lower) && i < |renames|
    ensures id in rows && renames[i] == Rename(rows[id].slug, Slugify(rows[id].slug, lower))
    ensures renames[i].was !in Names(renames[..i])
  {
    hide Slugify;
    var slug := renames[i].was;
    assert slug in Names(renames) && HasSlug(rows, rows.Keys, slug);
    id :| id in rows && rows[id].slug == slug;
  }

  /** The kind of a staging table can be read off its end. */
  lemma StagingTableSplits(a: string, b: string, k: nat, l: nat)
    requires k < |STAGING_KINDS| && l < |STAGING_KINDS|
    requires StagingTable(a, STAGING_KINDS[k]) == StagingTable(b, STAGING_KINDS[l])
    ensures a == b && k == l
  {
    var x := StagingTable(a, STAGING_KINDS[k]);
    FifthLast(a, k);
    FifthLast(b, l);
    assert a == x[..|a|] && b == x[..|b|];
  }

  lemma FifthLast(a: string, k: nat)
    requires k < |STAGING_KINDS|
    ensures var x := StagingTable(a, STAGING_KINDS[k]);
            |x| > 5 && x[|x| - 5] == if k == 0 then 'y' else if k == 1 then 'l' else 'o'
  {
  }

  lemma PrefixesDiffer(a: string, b: string, lower: string -> string)
    requires IsSlug(a) && IsSlug(b) && KeepsLowerCase(lower) && TablePrefix(a) == TablePrefix(b)
    ensures a == b
  {
    PrefixSlugifiesBack(a, lower);
    PrefixSlugifiesBack(b, lower);
  }

  /** What a slug becomes, or a prefix of it, is no other slug: both would have the same kebab form. */
  lemma NewNameIsNoOtherOldName(renames: seq<Rename>, lower: string -> string, i: nat, j: nat)
    requires i < |renames| && j < |renames| && NoCollisions(renames) && KeepsLowerCase(lower)
    requires forall i :: 0 <= i < |renames| ==> renames[i].becomes == Slugify(renames[i].was, lower)
    requires renames[j].was == renames[i].becomes || renames[j].was == TablePrefix(renames[i].becomes)
    ensures i == j
  {
    SlugifyGivesSlug(renames[i].was, lower);
    SlugIsFixed(renames[i].becomes, lower);
    PrefixSlugifiesBack(renames[i].becomes, lower);
    assert renames[j].becomes == renames[i].becomes;
  }

  lemma {:induction false} MovesAreApart(renames: seq<Rename>, lower: string -> string)
    requires NoCollisions(renames) && KeepsLowerCase(lower)
    requires forall i :: 0 <= i < |renames| ==> renames[i].becomes == Slugify(renames[i].was, lower)
    requires forall i, j :: 0 <= i < j < |renames| ==> renames[i].was != renames[j].was
    ensures Apart(MovesOf(renames))
  {
    var moves := MovesOf(renames);
    forall p, q | 0 <= p < |moves| && 0 <= q < |moves| && p != q
      ensures moves[p].source != moves[q].source && moves[p].target != moves[q].target
      ensures moves[p].source != moves[q].target
    {
      TwoMovesApart(renames, lower, p, q);
    }
  }

  lemma DescribedMovesAreApart(renames: seq<Rename>, rows: Sources, lower: string -> string)
    requires Describes(renames, rows, lower) && NoCollisions(renames) && KeepsLowerCase(lower)
    ensures Apart(MovesOf(renames))
  {
    MovesAreApart(renames, lower);
  }

  lemma TwoMovesApart(renames: seq<Rename>, lower: string -> string, p: nat, q: nat)
    requires NoCollisions(renames) && KeepsLowerCase(lower)
    requires forall i :: 0 <= i < |renames| ==> renames[i].becomes == Slugify(renames[i].was, lower)
    requires forall i, j :: 0 <= i < j < |renames| ==> renames[i].was != renames[j].was
    requires p < 3 * |renames| && q < 3 * |renames| && p != q
    ensures MovesOf(renames)[p].source != MovesOf(renames)[q].source
    ensures MovesOf(renames)[p].target != MovesOf(renames)[q].target
    ensures MovesOf(renames)[p].source != MovesOf(renames)[q].target
  {
    var i, j, k, l := p / 3, q / 3, p % 3, q % 3;
    var a, b := renames[i], renames[j];
    SlugifyGivesSlug(a.was, lower);
    SlugifyGivesSlug(b.was, lower);
    assert i == j ==> k != l;
    hide Slugify, TablePrefix, IsSlug, KeepsLowerCase;
    if StagingTable(a.was, STAGING_KINDS[k]) == StagingTable(b.was, STAGING_KINDS[l]) {
      StagingTableSplits(a.was, b.was, k, l);
      assert false;
    }
    var f, g := TablePrefix(a.becomes), TablePrefix(b.becomes);
    if StagingTable(f, STAGING_KINDS[k]) == StagingTable(g, STAGING_KINDS[l]) {
      StagingTableSplits(f, g, k, l);
      PrefixesDiffer(a.becomes, b.becomes, lower);
      assert false;
    }
    if StagingTable(a.was, STAGING_KINDS[k]) == StagingTable(TablePrefix(b.becomes), STAGING_KINDS[l]) {
      StagingTableSplits(a.was, TablePrefix(b.becomes), k, l);
      NewNameIsNoOtherOldName(renames, lower, j, i);
      assert false;
    }
  }

  // ---- updating the slugs ----

  /** `CASE WHEN name = :old || kind THEN :prefix || kind ELSE name END` */
  function FollowTable(name: Option<string>, r: Rename, kind: string): Option<string> {
    if name == Some(StagingTable(r.was, kind)) then Some(StagingTable(TablePrefix(r.becomes), kind)) else name
  }

  function Renamed(s: Source, r: Rename): Source {
    Source(r.becomes, FollowTable(s.primaryTable, r, "polygons"), FollowTable(s.primaryLineTable, r, "lines"))
  }

  /** What one `UPDATE` makes of the rows: those whose slug is the old one are renamed. */
  function UpdateWhere(rows: Sources, r: Rename): Sources {
    map id | id in rows :: if rows[id].slug == r.was then Renamed(rows[id], r) else rows[id]
  }

  function ToKebab(s: Source, lower: string -> string): Source {
    Renamed(s, Rename(s.slug, Slugify(s.slug, lower)))
  }

  /** Every row under its kebab slug, by one substitution. */
  function MigratedAtOnce(rows: Sources, lower: string -> string): Sources {
    map id | id in rows :: ToKebab(rows[id], lower)
  }

  /** The rows whose slug is among `done` under their kebab slug, the others as they are. */
  ghost function Partly(rows: Sources, done: set<string>, lower: string -> string): Sources {
    map id | id in rows :: if rows[id].slug in done then ToKebab(rows[id], lower) else rows[id]
  }

  /** The kebab form of a stored slug is no other stored slug, nor the kebab form of one. */
  lemma KebabIsNoOther(rows: Sources, renames: seq<Rename>, a: SourceId, b: SourceId, lower: string -> string)
    requires Describes(renames, rows, lower) && NoCollisions(renames) && KeepsLowerCase(lower)
    requires a in rows && b in rows
    requires var kebab := Slugify(rows[a].slug, lower);
             kebab == rows[b].slug || kebab == Slugify(rows[b].slug, lower)
    ensures rows[a].slug == rows[b].slug
  {
    var i := RenameOf(renames, rows, a, lower);
    var j := RenameOf(renames, rows, b, lower);
    hide Slugify, KeepsLowerCase;
    if renames[i].becomes == renames[j].becomes {
      assert i == j;
    } else {
      NewNameIsNoOtherOldName(renames, lower, i, j);
    }
  }

  /** No `UPDATE` catches a row that an earlier one renamed. */
  lemma {:induction false} UpdateIsApart(rows: Sources, renames: seq<Rename>, i: nat, lower: string -> string)
    requires Describes(renames, rows, lower) && NoCollisions(renames) && KeepsLowerCase(lower)
    requires i < |renames|
    ensures UpdateWhere(Partly(rows, Names(renames[..i]), lower), renames[i]) ==
            Partly(rows, Names(renames[..i + 1]), lower)
    ensures renames[i].was == renames[i].becomes && TablePrefix(renames[i].becomes) == renames[i].becomes ==>
              Partly(rows, Names(renames[..i + 1]), lower) == Partly(rows, Names(renames[..i]), lower)
  {
    hide Slugify, TablePrefix, Names, UpdateWhere, Partly, KeepsLowerCase, Describes, NoCollisions;
    var r, done := renames[i], Names(renames[..i]);
    assert renames[..i + 1] == renames[..i] + [r];
    NamesOfAppend(renames[..i], r);
    var other := RowOf(renames, rows, i, lower);
    forall id | id in rows && rows[id].slug in done
      ensures Slugify(rows[id].slug, lower) != r.was
    {
      if Slugify(rows[id].slug, lower) == r.was {
        KebabIsNoOther(rows, renames, id, other, lower);
        assert false;
      }
    }
    UpdateAfter(rows, done, r, lower);
  }

  lemma UpdateAfter(rows: Sources, done: set<string>, r: Rename, lower: string -> string)
    requires r.was !in done && r.becomes == Slugify(r.was, lower)
    requires forall id :: id in rows && rows[id].slug in done ==> Slugify(rows[id].slug, lower) != r.was
    ensures UpdateWhere(Partly(rows, done, lower), r) == Partly(rows, done + {r.was}, lower)
    ensures r.was == r.becomes && TablePrefix(r.becomes) == r.becomes ==>
              Partly(rows, done + {r.was}, lower) == Partly(rows, done, lower)
  {
    hide Slugify, TablePrefix;
    var first, next := Partly(rows, done, lower), Partly(rows, done + {r.was}, lower);
    assert UpdateWhere(first, r).Keys == next.Keys == first.Keys;
    assert forall id :: id in rows ==> UpdateWhere(first, r)[id] == next[id];
    if r.was == r.becomes && TablePrefix(r.becomes) == r.becomes {
      assert forall id :: id in rows ==> next[id] == first[id];
    }
  }

  /** Slugs are unique however many of them have been updated. */
  lemma {:induction false} PartlyIsUnique(rows: Sources, renames: seq<Rename>, done: set<string>,
                                          lower: string -> string)
    requires Describes(renames, rows, lower) && NoCollisions(renames) && KeepsLowerCase(lower) && SlugsUnique(rows)
    ensures SlugsUnique(Partly(rows, done, lower))
  {
    var now := Partly(rows, done, lower);
    forall a, b | a in now && b in now && now[a].slug == now[b].slug
      ensures a == b
    {
      if rows[a].slug in done {
        KebabIsNoOther(rows, renames, a, b, lower);
      } else if rows[b].slug in done {
        KebabIsNoOther(rows, renames, b, a, lower);
      }
    }
  }

  // ---- the other unique column ----

  /** `UNIQUE (primary_table)`: no two rows name one table; rows that name none do not count. */
  predicate PrimaryUnique(rows: Sources) {
    forall a, b :: a in rows && b in rows && rows[a].primaryTable.Some? ==>
      rows[a].primaryTable == rows[b].primaryTable ==> a == b
  }

  function OwnTable(s: Source): string {
    StagingTable(s.slug, "polygons")
  }

  function NewTable(s: Source, lower: string -> string): string {
    StagingTable(TablePrefix(Slugify(s.slug, lower)), "polygons")
  }

  /** Row `b` already names the table that row `a` would follow its slug to. */
  ghost predicate TakenBy(rows: Sources, a: SourceId, b: SourceId, lower: string -> string)
    requires a in rows && b in rows
  {
    a != b && rows[a].primaryTable == Some(OwnTable(rows[a])) && rows[b].primaryTable == Some(NewTable(rows[a], lower))
  }

  /** Some row whose slug is among `done` would follow its slug to a table that another row names. */
  ghost predicate Taken(rows: Sources, done: set<string>, lower: string -> string) {
    exists a, b :: a in rows && b in rows && rows[a].slug in done && TakenBy(rows, a, b, lower)
  }

  lemma FollowsTo(s: Source, lower: string -> string)
    ensures ToKebab(s, lower).primaryTable ==
            if s.primaryTable == Some(OwnTable(s)) then Some(NewTable(s, lower)) else s.primaryTable
  {
  }

  /** Two rows that follow their slugs, or one that does and one still to be updated, never meet. */
  lemma NewTablesDiffer(rows: Sources, renames: seq<Rename>, a: SourceId, b: SourceId, lower: string -> string)
    requires Describes(renames, rows, lower) && NoCollisions(renames) && KeepsLowerCase(lower) && SlugsUnique(rows)
    requires a in rows && b in rows && a != b
    ensures NewTable(rows[a], lower) != NewTable(rows[b], lower) && NewTable(rows[a], lower) != OwnTable(rows[b])
  {
    var i := RenameOf(renames, rows, a, lower);
    var j := RenameOf(renames, rows, b, lower);
    SlugifyGivesSlug(rows[a].slug, lower);
    SlugifyGivesSlug(rows[b].slug, lower);
    assert rows[a].slug != rows[b].slug;
    hide Slugify, TablePrefix, IsSlug, KeepsLowerCase, Describes, SlugsUnique;
    if NewTable(rows[a], lower) == NewTable(rows[b], lower) {
      SameKindSamePrefix(TablePrefix(renames[i].becomes), TablePrefix(renames[j].becomes));
      PrefixesDiffer(renames[i].becomes, renames[j].becomes, lower);
      assert false;
    }
    if NewTable(rows[a], lower) == OwnTable(rows[b]) {
      SameKindSamePrefix(TablePrefix(renames[i].becomes), rows[b].slug);
      DescribesBecomes(renames, rows, lower);
      NewNameIsNoOtherOldName(renames, lower, i, j);
      assert false;
    }
  }

  lemma SameKindSamePrefix(a: string, b: string)
    requires StagingTable(a, "polygons") == StagingTable(b, "polygons")
    ensures a == b
  {
    var x := StagingTable(a, "polygons");
    assert a == x[..|a|] && b == x[..|b|];
  }

  lemma DescribesBecomes(renames: seq<Rename>, rows: Sources, lower: string -> string)
    requires Describes(renames, rows, lower)
    ensures forall i :: 0 <= i < |renames| ==> renames[i].becomes == Slugify(renames[i].was, lower)
  {
    hide Slugify;
  }

  lemma MeetingIsTaken(rows: Sources, renames: seq<Rename>, done: set<string>, a: SourceId, b: SourceId,
                       lower: string -> string)
    requires Describes(renames, rows, lower) && NoCollisions(renames) && KeepsLowerCase(lower)
    requires SlugsUnique(rows) && PrimaryUnique(rows) && a in rows && b in rows && a != b
    requires var now := Partly(rows, done, lower);
             now[a].primaryTable.Some? && now[a].primaryTable == now[b].primaryTable
    ensures Taken(rows, done, lower)
  {
    hide Slugify, TablePrefix, KeepsLowerCase, Describes, NoCollisions, SlugsUnique, ToKebab, OwnTable, NewTable;
    FollowsTo(rows[a], lower);
    FollowsTo(rows[b], lower);
    NewTablesDiffer(rows, renames, a, b, lower);
    NewTablesDiffer(rows, renames, b, a, lower);
    if rows[a].slug in done && TakenBy(rows, a, b, lower) {
    } else {
      assert rows[b].slug in done && TakenBy(rows, b, a, lower);
    }
  }

  /** Primary tables stay unique after some of the updates exactly when none of these leads to a table that
      another row names. */
  lemma {:induction false} PrimaryUniqueExactly(rows: Sources, renames: seq<Rename>, done: set<string>,
                                                lower: string -> string)
    requires Describes(renames, rows, lower) && NoCollisions(renames) && KeepsLowerCase(lower)
    requires SlugsUnique(rows) && PrimaryUnique(rows)
    ensures PrimaryUnique(Partly(rows, done, lower)) <==> !Taken(rows, done, lower)
  {
    hide Slugify, TablePrefix, KeepsLowerCase, Describes, NoCollisions, SlugsUnique, ToKebab, OwnTable, NewTable;
    var now := Partly(rows, done, lower);
    if !Taken(rows, done, lower) {
      forall a, b | a in now && b in now && now[a].primaryTable.Some? && now[a].primaryTable == now[b].primaryTable
        ensures a == b
      {
        if a != b {
          MeetingIsTaken(rows, renames, done, a, b, lower);
          assert false;
        }
      }
    }
    if a, b :| a in rows && b in rows && rows[a].slug in done && TakenBy(rows, a, b, lower) {
      FollowsTo(rows[a], lower);
      FollowsTo(rows[b], lower);
      NewTablesDiffer(rows, renames, a, b, lower);
      assert now[a].primaryTable == now[b].primaryTable;
    }
  }

  /** Some row would follow its slug to a table that another row names. */
  ghost predicate Clashes(rows: Sources, lower: string -> string) {
    exists a, b :: a in rows && b in rows && TakenBy(rows, a, b, lower)
  }

  lemma TakenIsClash(rows: Sources, renames: seq<Rename>, done: set<string>, lower: string -> string)
    requires Describes(renames, rows, lower)
    ensures Taken(rows, done, lower) ==> Clashes(rows, lower)
    ensures Taken(rows, Names(renames), lower) <==> Clashes(rows, lower)
  {
    hide TakenBy, Slugify, Names;
  }

  /** What the unique constraints ask for. */
  predicate ConstraintsHold(rows: Sources) {
    SlugsUnique(rows) && PrimaryUnique(rows)
  }

  /** The next update, and what the constraints make of it. */
  lemma NextUpdate(rows: Sources, renames: seq<Rename>, i: nat, lower: string -> string)
    requires Describes(renames, rows, lower) && NoCollisions(renames) && KeepsLowerCase(lower)
    requires SlugsUnique(rows) && PrimaryUnique(rows) && i < |renames|
    ensures var r, now := renames[i], Partly(rows, Names(renames[..i]), lower);
            var next := Partly(rows, Names(renames[..i + 1]), lower);
            && UpdateWhere(now, r) == next
            && (r.was == r.becomes && TablePrefix(r.becomes) == r.becomes ==> next == now)
            && (ConstraintsHold(now) <==> !Taken(rows, Names(renames[..i]), lower))
            && (ConstraintsHold(next) <==> !Taken(rows, Names(renames[..i + 1]), lower))
  {
    hide SlugsUnique, PrimaryUnique, UpdateWhere, Partly, Names, Describes, NoCollisions, KeepsLowerCase, Slugify,
         TablePrefix, Taken;
    UpdateIsApart(rows, renames, i, lower);
    PartlyIsUnique(rows, renames, Names(renames[..i]), lower);
    PartlyIsUnique(rows, renames, Names(renames[..i + 1]), lower);
    PrimaryUniqueExactly(rows, renames, Names(renames[..i]), lower);
    PrimaryUniqueExactly(rows, renames, Names(renames[..i + 1]), lower);
  }

  /** What has been written after `first` met the unique constraints after each statement. */
  ghost predicate UniqueSince(first: seq<Sources>, history: seq<Sources>) {
    && first <= history
    && forall h :: |first| <= h < |history| ==> ConstraintsHold(history[h])
  }

  lemma UpdatesStart(rows: Sources, first: seq<Sources>, lower: string -> string)
    ensures Partly(rows, Names([]), lower) == rows && UniqueSince(first, first)
    ensures !Taken(rows, Names([]), lower)
  {
    assert Partly(rows, Names([]), lower).Keys == rows.Keys;
  }

  lemma UniqueSinceOneMore(first: seq<Sources>, history: seq<Sources>, next: Sources)
    requires UniqueSince(first, history) && ConstraintsHold(next)
    ensures UniqueSince(first, history + [next])
  {
    hide ConstraintsHold;
  }

  /** `CHECK (slug ~ …)` */
  predicate IsKebab(rows: Sources) {
    forall id :: id in rows ==> IsSlug(rows[id].slug)
  }

  lemma MigratedIsKebab(rows: Sources, renames: seq<Rename>, lower: string -> string)
    requires Describes(renames, rows, lower) && NoCollisions(renames)
    ensures Partly(rows, Names(renames), lower) == MigratedAtOnce(rows, lower)
    ensures IsKebab(MigratedAtOnce(rows, lower))
  {
    assert forall id :: id in rows ==> HasSlug(rows, rows.Keys, rows[id].slug);
    assert forall id :: id in rows ==> rows[id].slug in Names(renames);
    hide Slugify, IsSlug, Describes, DescribesRows, Names, TablePrefix;
    forall id | id in rows ensures IsSlug(Slugify(rows[id].slug, lower)) {
      var i := RenameOf(renames, rows, id, lower);
      SlugifyGivesSlug(rows[id].slug, lower);
    }
    assert Partly(rows, Names(renames), lower).Keys == MigratedAtOnce(rows, lower).Keys;
  }

  /** A name goes on naming the table it named exactly when that was the row's own staging table of the kind the name
      is followed for, or was not moved as the staging table of some slug. */
  lemma {:induction false} FollowedNameIsFound(rows: Sources, renames: seq<Rename>,
                                                  before: StagingTables, after: StagingTables,
                                                  id: SourceId, t: string, k: nat, lower: string -> string)
    requires Describes(renames, rows, lower) && NoCollisions(renames) && KeepsLowerCase(lower)
    requires !Obstructed(before, MovesOf(renames)) && MovedAtOnce(before, MovesOf(renames), after)
    requires id in rows && t in before && k < |STAGING_KINDS|
    ensures var r := Rename(rows[id].slug, Slugify(rows[id].slug, lower));
            var now := FollowTable(Some(t), r, STAGING_KINDS[k]).value;
            (now in after && after[now] == before[t]) <==>
              t == StagingTable(r.was, STAGING_KINDS[k]) || !MovedFrom(before, MovesOf(renames), t)
  {
    hide Slugify, TablePrefix, KeepsLowerCase, NoCollisions, Obstructed, MovedFrom, Describes, Apart, MovesOf,
         MovedAtOnce;
    var i := RenameOf(renames, rows, id, lower);
    DescribedMovesAreApart(renames, rows, lower);
    assert 3 * i + k < |MovesOf(renames)| && MovesOf(renames)[3 * i + k] == MoveOf(renames[i], STAGING_KINDS[k]) by {
      MoveAt(renames, i, k);
    }
    StaysFound(before, MovesOf(renames), after, 3 * i + k, t);
  }

  lemma OwnTablesDiffer(rows: Sources, a: SourceId, b: SourceId)
    requires SlugsUnique(rows) && a in rows && b in rows && a != b
    ensures OwnTable(rows[a]) != OwnTable(rows[b])
  {
    if OwnTable(rows[a]) == OwnTable(rows[b]) {
      SameKindSamePrefix(rows[a].slug, rows[b].slug);
      assert false;
    }
  }

  /** A row that names the staging table of another slug, which is moved, is left naming a table that is gone. */
  lemma {:induction false} OtherTableIsLost(rows: Sources, renames: seq<Rename>,
                                            before: StagingTables, after: StagingTables,
                                            a: SourceId, b: SourceId, lower: string -> string)
    requires Describes(renames, rows, lower) && NoCollisions(renames) && KeepsLowerCase(lower) && SlugsUnique(rows)
    requires !Obstructed(before, MovesOf(renames)) && MovedAtOnce(before, MovesOf(renames), after)
    requires a in rows && b in rows && a != b && rows[b].primaryTable == Some(OwnTable(rows[a]))
    requires OwnTable(rows[a]) in before && OwnTable(rows[a]) != NewTable(rows[a], lower)
    ensures ToKebab(rows[b], lower).primaryTable == rows[b].primaryTable && OwnTable(rows[a]) !in after
  {
    hide Slugify, TablePrefix, KeepsLowerCase, NoCollisions, Describes, MovesOf, ToKebab, MovedAtOnce, Obstructed,
         SlugsUnique;
    FollowsTo(rows[b], lower);
    OwnTablesDiffer(rows, a, b);
    var i := RenameOf(renames, rows, a, lower);
    MoveAt(renames, i, 0);
    assert MovesOf(renames)[3 * i] == Move(OwnTable(rows[a]), NewTable(rows[a], lower));
    MovedIsGone(before, MovesOf(renames), after, 3 * i);
  }

  lemma MovedIsGone(before: StagingTables, moves: seq<Move>, after: StagingTables, p: nat)
    requires !Obstructed(before, moves) && MovedAtOnce(before, moves, after)
    requires p < |moves| && Moves(before, moves[p])
    ensures moves[p].source !in after
  {
    assert MovedFrom(before, moves, moves[p].source);
    assert !MovedTo(before, moves, moves[p].source);
    hide MovedFrom, MovedTo, Obstructed;
  }

  lemma SeenSoFar(before: StagingTables, moves: seq<Move>) returns (seen: set<string>)
    ensures Seen(before, moves, seen)
  {
    seen := before.Keys + set p | 0 <= p < |moves| && Moves(before, moves[p]) :: moves[p].target;
  }

  /** Moves that are apart and meet no table in their way can be made at once. */
  lemma {:induction false} MovesCanBeMade(before: StagingTables, moves: seq<Move>, n: nat)
    returns (after: StagingTables)
    requires Apart(moves) && !Obstructed(before, moves) && n <= |moves|
    ensures MovedAtOnce(before, moves[..n], after)
  {
    if n == 0 {
      after := before;
    } else {
      var i := n - 1;
      var mid := MovesCanBeMade(before, moves, i);
      after := OneMoreMove(before, moves, i, mid);
    }
  }

  lemma OneMoreMove(before: StagingTables, moves: seq<Move>, i: nat, mid: StagingTables) returns (after: StagingTables)
    requires Apart(moves) && !Obstructed(before, moves) && i < |moves| && MovedAtOnce(before, moves[..i], mid)
    ensures MovedAtOnce(before, moves[..i + 1], after)
  {
    var m := moves[i];
    assert Moves(before, m) ==> m.target !in before;
    hide MovedAtOnce, MovedFrom, MovedTo, Obstructed, Apart, Seen;
    var seen := SeenSoFar(before, moves[..i]);
    NextMove(before, moves, i, seen);
    if Moves(before, m) {
      MoveGoes(before, moves[..i], m, mid);
      after := (mid - {m.source})[m.target := mid[m.source]];
    } else {
      MoveStays(before, moves[..i], m, mid);
      after := mid;
    }
  }

  /** Two rows, the second naming the staging table of the first. */
  function TwoSources(was: string, other: string): Sources {
    map[SourceId(1) := Source(was, None, None), SourceId(2) := Source(other, Some(StagingTable(was, "polygons")), None)]
  }

  /** The first slug is not its own table prefix, and neither slug is refused. */
  ghost predicate Mixed(was: string, other: string, lower: string -> string) {
    && was != other && Slugify(was, lower) != Slugify(other, lower)
    && Slugify(was, lower) != "" && Slugify(other, lower) != "" && TablePrefix(Slugify(was, lower)) != was
  }

  lemma TwoSourcesDescribed(rows: Sources, was: string, other: string, lower: string -> string)
    returns (renames: seq<Rename>)
    requires Mixed(was, other, lower) && rows.Keys == {SourceId(1), SourceId(2)}
    requires rows[SourceId(1)].slug == was && rows[SourceId(2)].slug == other
    ensures Describes(renames, rows, lower) && NoCollisions(renames)
  {
    hide Slugify, TablePrefix;
    renames := [Rename(was, Slugify(was, lower)), Rename(other, Slugify(other, lower))];
    NamesOfAppend([], renames[0]);
    NamesOfAppend([renames[0]], renames[1]);
    assert [] + [renames[0]] == [renames[0]] && [renames[0]] + [renames[1]] == renames;
    assert Names([]) == {} && Names(renames) == {was, other};
    assert rows[SourceId(1)].slug == was && rows[SourceId(2)].slug == other;
    hide Names;
    assert forall slug :: HasSlug(rows, rows.Keys, slug) <==> slug in {was, other};
  }

  lemma TwoSourcesConstrained(was: string, other: string, lower: string -> string)
    requires Mixed(was, other, lower)
    ensures var rows := TwoSources(was, other);
            && ConstraintsHold(rows) && !Clashes(rows, lower)
            && OwnTable(rows[SourceId(1)]) != NewTable(rows[SourceId(1)], lower)
  {
    hide Slugify, TablePrefix;
    var rows := TwoSources(was, other);
    assert SlugsUnique(rows);
    OwnTablesDiffer(rows, SourceId(1), SourceId(2));
    if OwnTable(rows[SourceId(1)]) == NewTable(rows[SourceId(1)], lower) {
      SameKindSamePrefix(was, TablePrefix(Slugify(was, lower)));
      assert false;
    }
    hide StagingTable, OwnTable, NewTable;
    assert forall a, b :: a in rows && b in rows ==> !TakenBy(rows, a, b, lower);
  }

  /** One table that is there is in nobody's way. */
  lemma OnlyOneTable(moves: seq<Move>, t: string)
    ensures !Obstructed(map[t := 0], moves)
  {
  }

  /** Such a migration goes through, and leaves the second row naming a table that is gone. */
  lemma {:induction false} SecondSourceLosesItsTable(was: string, other: string, lower: string -> string)
    returns (renames: seq<Rename>, after: StagingTables)
    requires KeepsLowerCase(lower) && Mixed(was, other, lower)
    ensures var rows, t := TwoSources(was, other), StagingTable(was, "polygons");
            && ConstraintsHold(rows) && !Clashes(rows, lower)
            && Describes(renames, rows, lower) && NoCollisions(renames)
            && !Obstructed(map[t := 0], MovesOf(renames)) && MovedAtOnce(map[t := 0], MovesOf(renames), after)
            && MigratedAtOnce(rows, lower)[SourceId(2)].primaryTable == Some(t) && t !in after
  {
    var rows, t := TwoSources(was, other), StagingTable(was, "polygons");
    renames := TwoSourcesDescribed(rows, was, other, lower);
    TwoSourcesConstrained(was, other, lower);
    assert rows[SourceId(2)].primaryTable == Some(OwnTable(rows[SourceId(1)]));
    hide Describes, DescribesRows, KeepsLowerCase, Slugify, Obstructed, MovesOf, MovedAtOnce, Apart, NoCollisions,
         Mixed, Clashes;
    DescribedMovesAreApart(renames, rows, lower);
    OnlyOneTable(MovesOf(renames), t);
    after := MovesCanBeMade(map[t := 0], MovesOf(renames), |MovesOf(renames)|);
    assert MovesOf(renames)[..|MovesOf(renames)|] == MovesOf(renames);
    OtherTableIsLost(rows, renames, map[t := 0], after, SourceId(1), SourceId(2), lower);
  }

  /** Two rows, the first naming its own staging table, and the second the one that the first would follow to. */
  function RivalSources(was: string, other: string, lower: string -> string): Sources {
    map[SourceId(1) := Source(was, Some(StagingTable(was, "polygons")), None),
        SourceId(2) := Source(other, Some(StagingTable(TablePrefix(Slugify(was, lower)), "polygons")), None)]
  }

  /** With such rows nothing is in the way of a migration but the unique primary table, which stops it. */
  lemma {:induction false} SecondSourceIsInTheWay(was: string, other: string, lower: string -> string)
    returns (renames: seq<Rename>)
    requires KeepsLowerCase(lower) && Mixed(was, other, lower)
    ensures var rows := RivalSources(was, other, lower);
            && ConstraintsHold(rows) && Clashes(rows, lower)
            && Describes(renames, rows, lower) && NoCollisions(renames) && !Obstructed(map[], MovesOf(renames))
  {
    hide Slugify, TablePrefix, KeepsLowerCase, Describes, NoCollisions, MovesOf;
    var rows := RivalSources(was, other, lower);
    renames := TwoSourcesDescribed(rows, was, other, lower);
    assert SlugsUnique(rows);
    if rows[SourceId(1)].primaryTable == rows[SourceId(2)].primaryTable {
      SameKindSamePrefix(was, TablePrefix(Slugify(was, lower)));
      assert false;
    }
    assert TakenBy(rows, SourceId(1), SourceId(2), lower);
  }

  /** Such slugs: `a--b`, which becomes `a-b`, and `c`. */
  lemma {:induction false} DoubledHyphenIsMixed(lower: string -> string)
    requires KeepsLowerCase(lower)
    ensures Mixed("a--b", "c", lower)
  {
    hide Slugify, KeepsLowerCase;
    DoubledHyphen(lower);
    SlugIsFixed("c", lower);
    assert TablePrefix("a-b")[1] == '_' && "a--b"[1] == '-' && "a-b"[0] != "c"[0] && "a--b"[0] != "c"[0];
  }

  lemma StaysFound(before: StagingTables, moves: seq<Move>, after: StagingTables, p: nat, t: string)
    requires Apart(moves) && !Obstructed(before, moves) && MovedAtOnce(before, moves, after)
    requires p < |moves| && t in before
    ensures var now := if t == moves[p].source then moves[p].target else t;
            (now in after && after[now] == before[t]) <==> t == moves[p].source || !MovedFrom(before, moves, t)
  {
    assert MovedFrom(before, moves, moves[p].source) <==> Moves(before, moves[p]);
    assert !MovedTo(before, moves, t);
    hide Apart, Obstructed, MovedFrom, MovedTo;
  }

  lemma MoveAt(renames: seq<Rename>, i: nat, k: nat)
    requires i < |renames| && k < |STAGING_KINDS|
    ensures 3 * i + k < |MovesOf(renames)| && MovesOf(renames)[3 * i + k] == MoveOf(renames[i], STAGING_KINDS[k])
  {
    assert (3 * i + k) / 3 == i && (3 * i + k) % 3 == k;
  }

  class Database {
    var sources: Sources
    var tables: StagingTables
    /** The sources after every statement sent so far. */
    ghost var history: seq<Sources>

    /** `ALTER TABLE source RENAME TO target`: the source has to exist, and the target must not. */
    method RenameTable(source: string, target: string)
      requires source in tables && target !in tables
      modifies this`tables
      ensures tables == (old(tables) - {source})[target := old(tables)[source]]
    {
      tables := (tables - {source})[target := tables[source]];
    }

    /** One move after another, tracking the names seen: what was there, and what has been renamed to.
        Refuses exactly when a table is in the way from the start, and otherwise moves everything at once. */
    method RenameTables(renames: seq<Rename>) returns (r: Option<MigrationError>)
      requires Apart(MovesOf(renames))
      modifies this`tables
      ensures r.Some? <==> Obstructed(old(tables), MovesOf(renames))
      ensures r.Some? ==> r.value.TargetExists?
      ensures r.None? ==> MovedAtOnce(old(tables), MovesOf(renames), tables)
    {
      ghost var start, moves := tables, MovesOf(renames);
      var seen := tables.Keys;
      for i := 0 to |renames|
        invariant !Obstructed(start, moves[..3 * i])
        invariant MovedAtOnce(start, moves[..3 * i], tables)
        invariant Seen(start, moves[..3 * i], seen)
      {
        for k := 0 to |STAGING_KINDS|
          invariant !Obstructed(start, moves[..3 * i + k])
          invariant MovedAtOnce(start, moves[..3 * i + k], tables)
          invariant Seen(start, moves[..3 * i + k], seen)
        {
          hide MovedAtOnce, MovedTo, MovedFrom, Obstructed, Apart, Seen, MovesOf, TablePrefix, StagingTable;
          ghost var p := 3 * i + k;
          MoveAt(renames, i, k);
          var m := MoveOf(renames[i], STAGING_KINDS[k]);
          NextMove(start, moves, p, seen);
          if m.source == m.target || m.source !in seen {
            MoveStays(start, moves[..p], m, tables);
            continue;
          }
          if m.target in seen {
            return Some(TargetExists(m.target));
          }
          MoveGoes(start, moves[..p], m, tables);
          RenameTable(m.source, m.target);
          seen := seen + {m.target};
        }
      }
      assert moves[..|moves|] == moves;
      return None;
    }

    /** `UPDATE maps.sources SET … WHERE slug = :old`, which a unique constraint can refuse. */
    method Update(r: Rename) returns (ok: bool)
      modifies this`sources, this`history
      ensures ok <==> ConstraintsHold(UpdateWhere(old(sources), r))
      ensures ok ==> sources == UpdateWhere(old(sources), r) && history == old(history) + [sources]
      ensures !ok ==> sources == old(sources) && history == old(history)
    {
      ok := ConstraintsHold(UpdateWhere(sources, r));
      if ok {
        sources := UpdateWhere(sources, r);
        history := history + [sources];
      }
    }

    /** One `UPDATE` per slug that changes, or whose tables change. A unique slug never refuses one; a unique
        primary table does exactly when some row would follow its slug to a table that another row names. */
    method UpdateSlugs(renames: seq<Rename>, lower: string -> string) returns (r: Option<MigrationError>)
      requires Describes(renames, sources, lower) && NoCollisions(renames) && KeepsLowerCase(lower)
      requires ConstraintsHold(sources)
      modifies this`sources, this`history
      ensures r == if Clashes(old(sources), lower) then Some(PrimaryTableTaken) else None
      ensures r.None? ==> sources == MigratedAtOnce(old(sources), lower)
      ensures UniqueSince(old(history), history)
    {
      ghost var start, first := sources, history;
      assert SlugsUnique(start) && PrimaryUnique(start);
      hide SlugsUnique, PrimaryUnique, ConstraintsHold, UniqueSince, UpdateWhere, Partly, Names, Describes,
           DescribesRows, NoCollisions, KeepsLowerCase, Slugify, TablePrefix, MigratedAtOnce, Taken, Clashes;
      UpdatesStart(start, first, lower);
      for i := 0 to |renames|
        invariant sources == Partly(start, Names(renames[..i]), lower)
        invariant UniqueSince(first, history)
        invariant !Taken(start, Names(renames[..i]), lower)
      {
        var rename := renames[i];
        NextUpdate(start, renames, i, lower);
        TakenIsClash(start, renames, Names(renames[..i + 1]), lower);
        if rename.was != rename.becomes || TablePrefix(rename.becomes) != rename.becomes {
          var ok := Update(rename);
          if !ok {
            return Some(PrimaryTableTaken);
          }
          UniqueSinceOneMore(first, history[..|history| - 1], sources);
        }
      }
      assert renames[..|renames|] == renames;
      TakenIsClash(start, renames, {}, lower);
      MigratedIsKebab(start, renames, lower);
      return None;
    }

    /** The slug of every row, and its kebab form, in the order the rows are read. */
    method ReadRenames(lower: string -> string) returns (renames: seq<Rename>)
      requires SlugsUnique(sources)
      ensures Describes(renames, sources, lower)
    {
      var todo := sources.Keys;
      renames := [];
      while todo != {}
        invariant todo <= sources.Keys
        invariant DescribesRows(renames, sources, sources.Keys - todo, lower)
      {
        var id :| id in todo;
        hide DescribesRows, SlugsUnique, Slugify;
        ReadOne(renames, sources, sources.Keys - todo, id, lower);
        renames := renames + [Rename(sources[id].slug, Slugify(sources[id].slug, lower))];
        assert sources.Keys - (todo - {id}) == (sources.Keys - todo) + {id};
        todo := todo - {id};
      }
      assert sources.Keys - todo == sources.Keys;
    }

    /** The whole migration. It is refused exactly when slugs collide, a table is in the way, or a row would
        follow its slug to a table that another row names. Otherwise the renames and updates, one after
        another, do what simultaneous substitutions do, and the constraint added at the end holds. */
    method Migrate(lower: string -> string) returns (r: Option<MigrationError>, ghost renames: seq<Rename>)
      requires ConstraintsHold(sources) && KeepsLowerCase(lower)
      modifies this
      ensures Describes(renames, old(sources), lower)
      ensures r == Some(Collisions) <==> !NoCollisions(renames)
      ensures r.Some? && r.value.TargetExists? <==> NoCollisions(renames) && Obstructed(old(tables), MovesOf(renames))
      ensures r == Some(PrimaryTableTaken) <==>
                NoCollisions(renames) && !Obstructed(old(tables), MovesOf(renames)) && Clashes(old(sources), lower)
      ensures r.Some? && r != Some(PrimaryTableTaken) ==> sources == old(sources)
      ensures r.None? ==> sources == MigratedAtOnce(old(sources), lower) && IsKebab(sources)
      ensures r.None? ==> MovedAtOnce(old(tables), MovesOf(renames), tables)
      ensures UniqueSince(old(history), history)
    {
      hide KeepsLowerCase, Slugify, NoCollisions, Obstructed, MovesOf, MovedAtOnce, Clashes, PrimaryUnique, Describes,
           DescribesRows, Apart;
      var read := ReadRenames(lower);
      renames := read;
      var refused := RefuseCollisions(read);
      if refused {
        return Some(Collisions), renames;
      }
      DescribedMovesAreApart(read, sources, lower);
      r := RenameTables(read);
      if r.None? {
        r := UpdateSlugs(read, lower);
        MigratedIsKebab(old(sources), renames, lower);
      }
    }
  }
}
