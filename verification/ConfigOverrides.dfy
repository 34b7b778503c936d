/** Environment variables as a nested settings table, and why their order does not matter. */
module ConfigOverrides {
  import opened ConfigMerge

  datatype Variable = Variable(path: Path, value: Scalar)

  /** Writing one variable: a leaf on the way stops it, missing tables are made, and whatever stood there is
      replaced. */
  function Set(t: Toml, path: Path, value: Scalar): Toml
    requires t.Table? && path != []
    ensures Set(t, path, value).Table?
    decreases path
  {
    var k := path[0];
    if |path| == 1 then Table(t.entries[k := Leaf(value)])
    else if k in t.entries && t.entries[k].Leaf? then t
    else Table(t.entries[k := Set(if k in t.entries then t.entries[k] else EMPTY, path[1..], value)])
  }

  function SetAll(vars: seq<Variable>): (t: Toml)
    requires forall i :: 0 <= i < |vars| ==> vars[i].path != []
    ensures t.Table?
  {
    if vars == [] then EMPTY
    else Set(SetAll(vars[..|vars| - 1]), vars[|vars| - 1].path, vars[|vars| - 1].value)
  }

  // ---- which leaves a write leaves ----

  /** A leaf stands strictly above the path. */
  predicate Blocked(t: Toml, path: Path)
    requires t.Table?
    decreases path
  {
    |path| > 1 && path[0] in t.entries
    && (t.entries[path[0]].Leaf? || Blocked(t.entries[path[0]], path[1..]))
  }

  lemma {:induction false} LeafOfSet(t: Toml, path: Path, value: Scalar, q: Path, w: Scalar)
    requires t.Table? && path != []
    ensures LeafAt(Set(t, path, value), q, w) <==>
            if Blocked(t, path) then LeafAt(t, q, w)
            else (q == path && w == value) || (LeafAt(t, q, w) && !(path <= q))
    decreases path
  {
    var k := path[0];
    if q != [] && q[0] == k && |path| > 1 {
      assert path <= q <==> path[1..] <= q[1..];
      assert q == path <==> q[1..] == path[1..];
      if k !in t.entries || t.entries[k].Table? {
        LeafOfSet(if k in t.entries then t.entries[k] else EMPTY, path[1..], value, q[1..], w);
      }
    } else {
      LeafOfSetAside(t, path, value, q, w);
    }
  }

  /** The last step of a write, and what it leaves beside it. */
  lemma LeafOfSetAside(t: Toml, path: Path, value: Scalar, q: Path, w: Scalar)
    requires t.Table? && path != []
    requires q == [] || q[0] != path[0] || |path| == 1
    ensures LeafAt(Set(t, path, value), q, w) <==>
            if Blocked(t, path) then LeafAt(t, q, w)
            else (q == path && w == value) || (LeafAt(t, q, w) && !(path <= q))
  {
    var k := path[0];
    if q != [] && q[0] == k {
      assert path == [k] && path <= q;
      assert q == path <==> q[1..] == [];
      assert Set(t, path, value).entries[k] == Leaf(value);
      assert At(Set(t, path, value), q) == At(Leaf(value), q[1..]);
    } else if q != [] {
      assert !(path <= q);
    }
  }

  /** A leaf above a path is one of its proper prefixes. */
  lemma {:induction false} BlockedByLeaf(t: Toml, path: Path) returns (q: Path, w: Scalar)
    requires t.Table? && Blocked(t, path)
    ensures q < path && q != [] && LeafAt(t, q, w)
    decreases path
  {
    var sub := t.entries[path[0]];
    if sub.Leaf? {
      q, w := [path[0]], sub.value;
      assert q[1..] == [];
    } else {
      var q', w' := BlockedByLeaf(sub, path[1..]);
      q, w := [path[0]] + q', w';
      assert q[1..] == q';
    }
  }

  lemma {:induction false} LeafBlocks(t: Toml, path: Path, q: Path, w: Scalar)
    requires t.Table? && q < path && q != [] && LeafAt(t, q, w)
    ensures Blocked(t, path)
    decreases path
  {
    assert q[0] == path[0];
    var sub := t.entries[q[0]];
    assert At(t, q) == At(sub, q[1..]);
    if |q| > 1 {
      assert q == path[..|q|];
      assert q[1..] == path[1..][..|q| - 1];
      assert sub.Table?;
      LeafBlocks(t.entries[path[0]], path[1..], q[1..], w);
    }
  }

  // ---- the tree of a set of variables ----

  ghost predicate Paths(vars: seq<Variable>) {
    forall i :: 0 <= i < |vars| ==> vars[i].path != []
  }

  ghost predicate DistinctPaths(vars: seq<Variable>) {
    forall i, j :: 0 <= i < j < |vars| ==> vars[i].path != vars[j].path
  }

  /** The variable takes effect: no other variable's path is a proper prefix of its own. */
  ghost predicate Effective(vars: seq<Variable>, x: Variable) {
    x in vars && forall y :: y in vars ==> !(y.path < x.path)
  }

  lemma {:induction false} ShortestPrefix(vars: seq<Variable>, y: Variable) returns (x: Variable)
    requires y in vars
    ensures Effective(vars, x) && x.path <= y.path
    decreases |y.path|
  {
    if z :| z in vars && z.path < y.path {
      x := ShortestPrefix(vars, z);
    } else {
      x := y;
    }
  }

  /** A variable above a path blocks it: the shortest such variable is a leaf of the tree. */
  lemma {:induction false} PrefixBlocks(vars: seq<Variable>, path: Path, y: Variable)
    requires Paths(vars) && DistinctPaths(vars) && y in vars && y.path < path
    ensures Blocked(SetAll(vars), path)
    decreases |vars|, 1
  {
    var x := ShortestPrefix(vars, y);
    LeavesAreEffective(vars, x.path, x.value);
    assert x.path == y.path[..|x.path|] && y.path == path[..|y.path|];
    assert x.path == path[..|x.path|];
    LeafBlocks(SetAll(vars), path, x.path, x.value);
  }

  /** What one more variable does to the effective ones: nothing when a variable stands above it; otherwise it
      is effective itself, and those below it no longer are. */
  lemma EffectiveOneMore(init: seq<Variable>, last: Variable, x: Variable)
    ensures (exists y :: y in init && y.path < last.path) ==>
              (Effective(init + [last], x) && x != last <==> Effective(init, x) && x != last)
    ensures (forall y :: y in init ==> !(y.path < last.path) && y.path != last.path) ==>
              (Effective(init + [last], x) <==> x == last || (Effective(init, x) && !(last.path <= x.path)))
  {
    var vars := init + [last];
    assert forall y :: y in vars <==> y in init || y == last;
    if y :| y in init && y.path < last.path {
      assert last.path < x.path ==> y.path < x.path;
    }
  }

  /** The leaves are exactly the effective variables. */
  lemma {:induction false} LeavesAreEffective(vars: seq<Variable>, q: Path, w: Scalar)
    requires Paths(vars) && DistinctPaths(vars)
    ensures LeafAt(SetAll(vars), q, w) <==> Effective(vars, Variable(q, w))
    decreases |vars|, 0
  {
    if vars != [] {
      var n := |vars| - 1;
      var init, last := vars[..n], vars[n];
      assert vars == init + [last];
      assert SetAll(vars) == Set(SetAll(init), last.path, last.value);
      assert forall y :: y in init ==> y.path != last.path;
      hide SetAll, Set, LeafAt, Blocked, Effective;
      LeavesAreEffective(init, q, w);
      LeafOfSet(SetAll(init), last.path, last.value, q, w);
      EffectiveOneMore(init, last, Variable(q, w));
      if Blocked(SetAll(init), last.path) {
        LastIsBlocked(init, last);
      } else {
        LastIsFree(init, last);
      }
    }
  }

  lemma {:induction false} LastIsBlocked(init: seq<Variable>, last: Variable)
    requires Paths(init) && DistinctPaths(init) && last.path != [] && Blocked(SetAll(init), last.path)
    ensures exists y :: y in init && y.path < last.path
    ensures !Effective(init + [last], last) && !Effective(init, last)
    decreases |init|, 1
  {
    hide SetAll;
    var p, u := BlockedByLeaf(SetAll(init), last.path);
    LeavesAreEffective(init, p, u);
    assert Variable(p, u) in init && Variable(p, u) in init + [last];
  }

  lemma {:induction false} LastIsFree(init: seq<Variable>, last: Variable)
    requires Paths(init) && DistinctPaths(init) && last.path != [] && !Blocked(SetAll(init), last.path)
    ensures forall y :: y in init ==> !(y.path < last.path)
    decreases |init|, 2
  {
    forall y | y in init ensures !(y.path < last.path) {
      if y.path < last.path {
        PrefixBlocks(init, last.path, y);
      }
    }
  }

  /** Every table below the root holds something. */
  predicate NoStrayTables(t: Toml) {
    t.Table? ==> forall k :: k in t.entries ==>
      (t.entries[k].Table? ==> t.entries[k].entries != map[]) && NoStrayTables(t.entries[k])
  }

  lemma {:induction false} SetLeavesNoStrays(t: Toml, path: Path, value: Scalar)
    requires t.Table? && path != [] && NoStrayTables(t)
    ensures NoStrayTables(Set(t, path, value)) && Set(t, path, value).entries != map[]
    decreases path
  {
    var k := path[0];
    assert k in Set(t, path, value).entries;
    if |path| > 1 && !(k in t.entries && t.entries[k].Leaf?) {
      SetLeavesNoStrays(if k in t.entries then t.entries[k] else EMPTY, path[1..], value);
    }
  }

  lemma {:induction false} NoStraysFromVariables(vars: seq<Variable>)
    requires Paths(vars)
    ensures NoStrayTables(SetAll(vars))
  {
    if vars != [] {
      var n := |vars| - 1;
      NoStraysFromVariables(vars[..n]);
      SetLeavesNoStrays(SetAll(vars[..n]), vars[n].path, vars[n].value);
    }
  }

  /** A table that holds something has a leaf. */
  lemma {:induction false} HasLeaf(t: Toml) returns (q: Path, w: Scalar)
    requires NoStrayTables(t) && (t.Table? ==> t.entries != map[])
    ensures LeafAt(t, q, w)
    decreases t
  {
    if t.Leaf? {
      q, w := [], t.value;
    } else {
      var k :| k in t.entries;
      var q', w' := HasLeaf(t.entries[k]);
      q, w := [k] + q', w';
      assert q[1..] == q';
    }
  }

  /** A table without stray tables is known by its leaves. */
  lemma {:induction false} LeavesDetermine(a: Toml, b: Toml)
    requires a.Table? && b.Table? && NoStrayTables(a) && NoStrayTables(b)
    requires forall q, w :: LeafAt(a, q, w) <==> LeafAt(b, q, w)
    ensures a == b
    decreases a
  {
    KeysAreShared(a, b);
    KeysAreShared(b, a);
    assert a.entries.Keys == b.entries.Keys;
    forall k | k in a.entries ensures a.entries[k] == b.entries[k] {
      var x, y := a.entries[k], b.entries[k];
      forall q, w ensures LeafAt(x, q, w) <==> LeafAt(y, q, w) {
        assert ([k] + q)[1..] == q;
        assert LeafAt(a, [k] + q, w) <==> LeafAt(b, [k] + q, w);
      }
      if x.Leaf? {
        assert LeafAt(x, [], x.value);
      } else if y.Leaf? {
        assert LeafAt(y, [], y.value);
      } else {
        LeavesDetermine(x, y);
      }
    }
    assert a.entries == b.entries;
  }

  lemma KeysAreShared(a: Toml, b: Toml)
    requires a.Table? && b.Table? && NoStrayTables(a)
    requires forall q, w :: LeafAt(a, q, w) ==> LeafAt(b, q, w)
    ensures forall k :: k in a.entries ==> k in b.entries
  {
    forall k | k in a.entries ensures k in b.entries {
      var q, w := HasLeaf(a.entries[k]);
      assert ([k] + q)[1..] == q;
      assert LeafAt(a, [k] + q, w);
    }
  }

  /** The order of the variables does not matter: the same variables give the same table. */
  lemma OrderIsIrrelevant(vars: seq<Variable>, others: seq<Variable>)
    requires Paths(vars) && DistinctPaths(vars) && Paths(others) && DistinctPaths(others)
    requires forall x :: x in vars <==> x in others
    ensures SetAll(vars) == SetAll(others)
  {
    forall q, w ensures LeafAt(SetAll(vars), q, w) <==> LeafAt(SetAll(others), q, w) {
      LeavesAreEffective(vars, q, w);
      LeavesAreEffective(others, q, w);
    }
    NoStraysFromVariables(vars);
    NoStraysFromVariables(others);
    LeavesDetermine(SetAll(vars), SetAll(others));
  }
}
