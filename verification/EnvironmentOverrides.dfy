/** `MACROSTRAT_*` variables written into nested dicts through a moving node. */
module EnvironmentOverrides {
  import opened Wrappers
  import opened ConfigMerge
  import opened ConfigOverrides
  import Words

  // ---- which variables, and where they go ----

  const ENV_PREFIX := "MACROSTRAT_"
  const CONTROL_VARIABLES := {
    "ENV", "ENV_EXPIRES", "CONFIG", "CONFIG_VERSION", "ROOT", "PYROOT", "SHOULD_REINSTALL", "INSTALL_PATH",
    "DATABASE_URL", "RUNNER_DATABASE_URL", "DB_PORT"}

  /** `split("__")`. */
  function SplitNesting(s: string): (parts: seq<string>)
    ensures parts != []
  {
    if s == "" then [""]
    else if |s| >= 2 && s[0] == '_' && s[1] == '_' then [""] + SplitNesting(s[2..])
    else
      var parts := SplitNesting(s[1..]);
      [[s[0]] + parts[0]] + parts[1..]
  }

  function LowerParts(parts: seq<string>): Path {
    if parts == [] then []
    else (if parts[0] == "" then [] else [Words.Lower(parts[0])]) + LowerParts(parts[1..])
  }

  predicate EndsWith(s: string, suffix: string) {
    |suffix| <= |s| && s[|s| - |suffix|..] == suffix
  }

  /** The path a variable sets, or none for a variable that is not a setting. */
  function PathOf(name: string): Path {
    if !(ENV_PREFIX <= name) then []
    else
      var rest := name[|ENV_PREFIX|..];
      if rest in CONTROL_VARIABLES || EndsWith(rest, "_SRC") || rest == "" then []
      else LowerParts(SplitNesting(rest))
  }

  /** The variables of the process, in the order they are listed. */
  type Environment = seq<(string, string)>

  /** The settings among the variables, in their order. */
  function Settings(env: Environment, parse: string -> Scalar): (vars: seq<Variable>)
    ensures Paths(vars)
  {
    if env == [] then []
    else
      var (name, text) := env[|env| - 1];
      Settings(env[..|env| - 1], parse) + if PathOf(name) == [] then [] else [Variable(PathOf(name), parse(text))]
  }

  // ---- nested dicts ----

  /** What a dict holds under a key: a value, or another dict, by its address. */
  datatype Slot = Value(value: Scalar) | Sub(address: nat)
  type Dicts = seq<map<Key, Slot>>

  /** Dicts only hold dicts made after them, and each hangs where its path says. */
  ghost predicate Nested(dicts: Dicts, paths: seq<Path>) {
    && |dicts| == |paths| > 0 && paths[0] == []
    && forall n, k :: 0 <= n < |dicts| && k in dicts[n] && dicts[n][k].Sub? ==>
         n < dicts[n][k].address < |dicts| && paths[dicts[n][k].address] == paths[n] + [k]
  }

  ghost function Tree(dicts: Dicts, paths: seq<Path>, n: nat): (t: Toml)
    requires Nested(dicts, paths) && n < |dicts|
    ensures t.Table?
    decreases |dicts| - n
  {
    Table(map k | k in dicts[n] ::
      match dicts[n][k]
      case Value(v) => Leaf(v)
      case Sub(c) => Tree(dicts, paths, c))
  }

  ghost function SlotTree(dicts: Dicts, paths: seq<Path>, slot: Slot): Toml
    requires Nested(dicts, paths) && (slot.Sub? ==> slot.address < |dicts|)
  {
    match slot case Value(v) => Leaf(v) case Sub(c) => Tree(dicts, paths, c)
  }

  /** A dict is untouched by writes to a dict that does not hang under it. */
  lemma {:induction false} Untouched(dicts: Dicts, paths: seq<Path>, dicts': Dicts, paths': seq<Path>, m: nat, n: nat)
    requires Nested(dicts, paths) && Nested(dicts', paths') && paths <= paths'
    requires m < |dicts| && n < |dicts| && !(paths[n] <= paths[m])
    requires forall i :: 0 <= i < |dicts| && i != m ==> dicts'[i] == dicts[i]
    ensures Tree(dicts', paths', n) == Tree(dicts, paths, n)
    decreases |dicts| - n
  {
    assert n != m;
    forall k | k in dicts[n] && dicts[n][k].Sub?
      ensures Tree(dicts', paths', dicts[n][k].address) == Tree(dicts, paths, dicts[n][k].address)
    {
      PrefixParts(paths[n], k, paths[m]);
      Untouched(dicts, paths, dicts', paths', m, dicts[n][k].address);
    }
    assert Tree(dicts', paths', n).entries == Tree(dicts, paths, n).entries;
  }

  lemma PrefixParts(a: Path, k: Key, b: Path)
    ensures a + [k] <= b ==> a <= b && |a| < |b| && b[|a|] == k
  {
    if a + [k] <= b {
      assert (a + [k])[|a|] == b[|a|];
      assert forall i :: 0 <= i < |a| ==> (a + [k])[i] == b[i];
    }
  }

  /** Following keys from one dict to another. */
  ghost predicate Leads(dicts: Dicts, n: nat, path: Path, m: nat)
    requires n < |dicts|
    decreases path
  {
    if path == [] then n == m
    else path[0] in dicts[n] && dicts[n][path[0]].Sub? && dicts[n][path[0]].address < |dicts|
         && Leads(dicts, dicts[n][path[0]].address, path[1..], m)
  }

  lemma {:induction false} LeadsFurther(dicts: Dicts, paths: seq<Path>, n: nat, path: Path, m: nat, k: Key)
    requires Nested(dicts, paths) && n < |dicts| && Leads(dicts, n, path, m)
    ensures m < |dicts| && paths[m] == paths[n] + path
    ensures k in dicts[m] && dicts[m][k].Sub? ==> Leads(dicts, n, path + [k], dicts[m][k].address)
    decreases path
  {
    if path != [] {
      var c := dicts[n][path[0]].address;
      LeadsFurther(dicts, paths, c, path[1..], m, k);
      assert path == [path[0]] + path[1..];
      assert paths[c] + path[1..] == paths[n] + path;
      assert (path + [k])[1..] == path[1..] + [k];
    } else {
      assert [k][1..] == [];
    }
  }

  /** The tree with `sub` put under `key` in the table at `path`. */
  ghost function Graft(t: Toml, path: Path, key: Key, sub: Toml): Toml
    requires t.Table?
    decreases path
  {
    if path == [] then Table(t.entries[key := sub])
    else if path[0] in t.entries && t.entries[path[0]].Table?
    then Table(t.entries[path[0] := Graft(t.entries[path[0]], path[1..], key, sub)])
    else t
  }

  /** Writing into one dict grafts the written value into the tree, at that dict's path. */
  lemma {:induction false} WriteGrafts(dicts: Dicts, paths: seq<Path>, dicts': Dicts, paths': seq<Path>,
                                       n: nat, path: Path, m: nat, key: Key, slot: Slot)
    requires Nested(dicts, paths) && Nested(dicts', paths') && paths <= paths'
    requires n < |dicts| && Leads(dicts, n, path, m) && m < |dicts|
    requires slot.Sub? ==> slot.address < |dicts'|
    requires forall i :: 0 <= i < |dicts| ==> dicts'[i] == if i == m then dicts[m][key := slot] else dicts[i]
    ensures Tree(dicts', paths', n) == Graft(Tree(dicts, paths, n), path, key, SlotTree(dicts', paths', slot))
    decreases path
  {
    if path == [] {
      GraftHere(dicts, paths, dicts', paths', m, key, slot);
    } else {
      var c := dicts[n][path[0]].address;
      WriteGrafts(dicts, paths, dicts', paths', c, path[1..], m, key, slot);
      GraftBelow(dicts, paths, dicts', paths', n, path, m, key, slot);
    }
  }

  lemma GraftHere(dicts: Dicts, paths: seq<Path>, dicts': Dicts, paths': seq<Path>, m: nat, key: Key, slot: Slot)
    requires Nested(dicts, paths) && Nested(dicts', paths') && paths <= paths' && m < |dicts|
    requires slot.Sub? ==> slot.address < |dicts'|
    requires forall i :: 0 <= i < |dicts| ==> dicts'[i] == if i == m then dicts[m][key := slot] else dicts[i]
    ensures Tree(dicts', paths', m) == Graft(Tree(dicts, paths, m), [], key, SlotTree(dicts', paths', slot))
  {
    forall k | k in dicts[m] && k != key && dicts[m][k].Sub?
      ensures Tree(dicts', paths', dicts[m][k].address) == Tree(dicts, paths, dicts[m][k].address)
    {
      hide Tree;
      PrefixParts(paths[m], k, paths[m]);
      Untouched(dicts, paths, dicts', paths', m, dicts[m][k].address);
    }
    assert Tree(dicts', paths', m).entries == Tree(dicts, paths, m).entries[key := SlotTree(dicts', paths', slot)];
  }

  /** Dicts beside the one the path goes through are untouched. */
  lemma GraftBelow(dicts: Dicts, paths: seq<Path>, dicts': Dicts, paths': seq<Path>,
                   n: nat, path: Path, m: nat, key: Key, slot: Slot)
    requires Nested(dicts, paths) && Nested(dicts', paths') && paths <= paths'
    requires path != [] && n < |dicts| && Leads(dicts, n, path, m) && m < |dicts|
    requires slot.Sub? ==> slot.address < |dicts'|
    requires forall i :: 0 <= i < |dicts| && i != m ==> dicts'[i] == dicts[i]
    requires var c := dicts[n][path[0]].address;
             Tree(dicts', paths', c) == Graft(Tree(dicts, paths, c), path[1..], key, SlotTree(dicts', paths', slot))
    ensures Tree(dicts', paths', n) == Graft(Tree(dicts, paths, n), path, key, SlotTree(dicts', paths', slot))
  {
    LeadsFurther(dicts, paths, n, path, m, key);
    assert n != m && paths[m] == paths[n] + path && paths[m][|paths[n]|] == path[0];
    forall k | k in dicts[n] && k != path[0] && dicts[n][k].Sub?
      ensures Tree(dicts', paths', dicts[n][k].address) == Tree(dicts, paths, dicts[n][k].address)
    {
      PrefixParts(paths[n], k, paths[m]);
      Untouched(dicts, paths, dicts', paths', m, dicts[n][k].address);
    }
    var c := dicts[n][path[0]].address;
    var t, t' := Tree(dicts, paths, n), Tree(dicts', paths', n);
    assert t'.entries == t.entries[path[0] := Tree(dicts', paths', c)];
  }

  // ---- writing one variable ----

  /** Every key of the path leads to a table. */
  ghost predicate TablesAlong(t: Toml, path: Path)
    decreases path
  {
    t.Table? && (path != [] ==> path[0] in t.entries && TablesAlong(t.entries[path[0]], path[1..]))
  }

  lemma {:induction false} LeadsThroughTables(dicts: Dicts, paths: seq<Path>, n: nat, path: Path, m: nat)
    requires Nested(dicts, paths) && n < |dicts| && Leads(dicts, n, path, m) && m < |dicts|
    ensures TablesAlong(Tree(dicts, paths, n), path) && At(Tree(dicts, paths, n), path) == Some(Tree(dicts, paths, m))
    decreases path
  {
    if path != [] {
      LeadsThroughTables(dicts, paths, dicts[n][path[0]].address, path[1..], m);
    }
  }

  /** The last write is a graft of the value. */
  lemma {:induction false} SetIsGraft(t: Toml, path: Path, key: Key, value: Scalar)
    requires TablesAlong(t, path)
    ensures Set(t, path + [key], value) == Graft(t, path, key, Leaf(value))
    decreases path
  {
    if path == [] {
      assert path + [key] == [key];
    } else {
      assert (path + [key])[1..] == path[1..] + [key];
      SetIsGraft(t.entries[path[0]], path[1..], key, value);
    }
  }

  /** Making an empty table on the way does not change what the write leaves. */
  lemma {:induction false} EmptyTableOnTheWay(t: Toml, path: Path, key: Key, rest: Path, value: Scalar)
    requires TablesAlong(t, path) && rest != [] && At(t, path).Some? && At(t, path).value.Table?
    requires key !in At(t, path).value.entries
    ensures Graft(t, path, key, EMPTY).Table?
    ensures Set(Graft(t, path, key, EMPTY), path + [key] + rest, value) == Set(t, path + [key] + rest, value)
    decreases path
  {
    var full := path + [key] + rest;
    if path == [] {
      assert full == [key] + rest && full[1..] == rest;
      assert t.entries[key := EMPTY][key := Set(EMPTY, rest, value)] == t.entries[key := Set(EMPTY, rest, value)];
    } else {
      assert full[1..] == path[1..] + [key] + rest;
      EmptyTableOnTheWay(t.entries[path[0]], path[1..], key, rest, value);
    }
  }

  /** A leaf on the way stops the write. */
  lemma {:induction false} LeafOnTheWay(t: Toml, path: Path, key: Key, rest: Path, value: Scalar)
    requires TablesAlong(t, path) && rest != [] && At(t, path).Some? && At(t, path).value.Table?
    requires key in At(t, path).value.entries && At(t, path).value.entries[key].Leaf?
    ensures Set(t, path + [key] + rest, value) == t
    decreases path
  {
    var full := path + [key] + rest;
    if path == [] {
      assert full == [key] + rest;
    } else {
      assert full[1..] == path[1..] + [key] + rest;
      LeafOnTheWay(t.entries[path[0]], path[1..], key, rest, value);
      assert t.entries[path[0] := t.entries[path[0]]] == t.entries;
    }
  }

  /** A new empty dict under a key that is free. */
  lemma NewDict(dicts: Dicts, paths: seq<Path>, node: nat, key: Key, path: Path, rest: Path, value: Scalar)
    requires Nested(dicts, paths) && node < |dicts| && Leads(dicts, 0, path, node) && rest != [] && key !in dicts[node]
    ensures var dicts' := dicts[node := dicts[node][key := Sub(|dicts|)]] + [map[]];
            var paths' := paths + [paths[node] + [key]];
            && Nested(dicts', paths') && Leads(dicts', 0, path, node)
            && Set(Tree(dicts', paths', 0), path + [key] + rest, value) ==
               Set(Tree(dicts, paths, 0), path + [key] + rest, value)
  {
    var dicts' := dicts[node := dicts[node][key := Sub(|dicts|)]] + [map[]];
    var paths' := paths + [paths[node] + [key]];
    assert Nested(dicts', paths');
    assert Tree(dicts', paths', |dicts|) == EMPTY;
    hide Set, Graft, TablesAlong, Nested, Tree;
    WriteGrafts(dicts, paths, dicts', paths', 0, path, node, key, Sub(|dicts|));
    LeadsStays(dicts, dicts', 0, path, node, key);
    LeadsThroughTables(dicts, paths, 0, path, node);
    EmptyTableOnTheWay(Tree(dicts, paths, 0), path, key, rest, value);
  }

  /** A slot on the way: a value stops the write, a dict leads on. */
  lemma OnTheWay(dicts: Dicts, paths: seq<Path>, node: nat, key: Key, path: Path, rest: Path, value: Scalar)
    requires Nested(dicts, paths) && node < |dicts| && Leads(dicts, 0, path, node) && rest != [] && key in dicts[node]
    ensures dicts[node][key].Value? ==> Set(Tree(dicts, paths, 0), path + [key] + rest, value) == Tree(dicts, paths, 0)
    ensures dicts[node][key].Sub? ==>
              dicts[node][key].address < |dicts| && Leads(dicts, 0, path + [key], dicts[node][key].address)
  {
    hide Set;
    LeadsFurther(dicts, paths, 0, path, node, key);
    LeadsThroughTables(dicts, paths, 0, path, node);
    if dicts[node][key].Value? {
      LeafOnTheWay(Tree(dicts, paths, 0), path, key, rest, value);
    }
  }

  /** The last write puts the value where the path ends. */
  lemma ValueWritten(dicts: Dicts, paths: seq<Path>, node: nat, key: Key, path: Path, value: Scalar)
    requires Nested(dicts, paths) && node < |dicts| && Leads(dicts, 0, path, node)
    ensures var dicts' := dicts[node := dicts[node][key := Value(value)]];
            Nested(dicts', paths) && Tree(dicts', paths, 0) == Set(Tree(dicts, paths, 0), path + [key], value)
  {
    var dicts' := dicts[node := dicts[node][key := Value(value)]];
    assert Nested(dicts', paths);
    hide Set, Graft, TablesAlong;
    WriteGrafts(dicts, paths, dicts', paths, 0, path, node, key, Value(value));
    LeadsThroughTables(dicts, paths, 0, path, node);
    SetIsGraft(Tree(dicts, paths, 0), path, key, value);
  }

  /** The dicts made so far; address 0 is the table being built. */
  class DictHeap {
    var dicts: Dicts
    ghost var paths: seq<Path>

    ghost predicate Valid()
      reads this
    {
      Nested(dicts, paths)
    }

    ghost function Root(): Toml
      reads this
      requires Valid()
    {
      Tree(dicts, paths, 0)
    }

    constructor ()
      ensures Valid() && Root() == EMPTY
    {
      dicts, paths := [map[]], [[]];
    }

    /** `setdefault(key, {})` on a dict reached by `path`, where the write goes on with `rest`. */
    method SetDefault(node: nat, key: Key, ghost path: Path, ghost rest: Path, ghost value: Scalar)
      requires Valid() && node < |dicts| && Leads(dicts, 0, path, node) && rest != []
      modifies this
      ensures Valid() && node < |dicts| && Leads(dicts, 0, path, node) && key in dicts[node]
      ensures Set(Root(), path + [key] + rest, value) == Set(old(Root()), path + [key] + rest, value)
    {
      assert |paths| == |dicts|;
      hide Tree, Set, Leads, Graft, TablesAlong, Nested;
      if key !in dicts[node] {
        NewDict(dicts, paths, node, key, path, rest, value);
        paths := paths + [paths[node] + [key]];
        dicts := dicts[node := dicts[node][key := Sub(|dicts|)]] + [map[]];
      }
    }

    /** Walk to the last table of the path, making tables where there are none, and write the value there. */
    method WriteVariable(path: Path, value: Scalar)
      requires Valid() && path != []
      modifies this
      ensures Valid() && Root() == Set(old(Root()), path, value)
    {
      StartsAtRoot(dicts);
      hide Tree, Set, Leads, Nested;
      var node: nat, i := 0, 0;
      while i < |path| - 1
        invariant 0 <= i < |path| && Valid() && node < |dicts|
        invariant Leads(dicts, 0, path[..i], node)
        invariant Set(Root(), path, value) == Set(old(Root()), path, value)
      {
        ghost var done, rest := path[..i], path[i + 1..];
        assert path == done + [path[i]] + rest && path[..i + 1] == done + [path[i]];
        SetDefault(node, path[i], done, rest, value);
        OnTheWay(dicts, paths, node, path[i], done, rest, value);
        var slot := dicts[node][path[i]];
        if slot.Value? {
          return;
        }
        node := slot.address;
        i := i + 1;
      }
      var last := path[|path| - 1];
      assert path == path[..i] + [last];
      ValueWritten(dicts, paths, node, last, path[..i], value);
      dicts := dicts[node := dicts[node][last := Value(value)]];
    }
  }

  lemma StartsAtRoot(dicts: Dicts)
    requires |dicts| > 0
    ensures forall path: Path :: path == [] ==> Leads(dicts, 0, path, 0)
  {
  }

  lemma {:induction false} LeadsStays(dicts: Dicts, dicts': Dicts, n: nat, path: Path, m: nat, key: Key)
    requires n < |dicts| <= |dicts'| && Leads(dicts, n, path, m) && m < |dicts| && key !in dicts[m]
    requires forall i :: 0 <= i < |dicts| && i != m ==> dicts'[i] == dicts[i]
    requires forall k :: k in dicts[m] ==> k in dicts'[m] && dicts'[m][k] == dicts[m][k]
    ensures Leads(dicts', n, path, m)
    decreases path
  {
    if path != [] {
      LeadsStays(dicts, dicts', dicts[n][path[0]].address, path[1..], m, key);
    }
  }

  /** All settings among the variables, as a nested table. */
  method ReadOverrides(env: Environment, parse: string -> Scalar) returns (out: DictHeap)
    ensures fresh(out) && out.Valid() && out.Root() == SetAll(Settings(env, parse))
    ensures DistinctSettings(env) ==> forall path, value :: LeafAt(out.Root(), path, value) <==>
              NoneAbove(env, path) && exists v :: v in env && Sets(v, path, value, parse)
  {
    hide Set, Tree, Nested, PathOf, Settings, LeafAt, NoneAbove, Sets, DistinctSettings;
    NoSettings(parse);
    out := new DictHeap();
    for i := 0 to |env|
      invariant fresh(out) && out.Valid() && out.Root() == SetAll(Settings(env[..i], parse))
    {
      assert env[..i + 1][..i] == env[..i];
      var (name, text) := env[i];
      var path := PathOf(name);
      SettingsStep(env, i, parse);
      if path != [] {
        out.WriteVariable(path, parse(text));
      }
    }
    assert env[..|env|] == env;
    if DistinctSettings(env) {
      forall path, value ensures LeafAt(out.Root(), path, value) <==>
          NoneAbove(env, path) && exists v :: v in env && Sets(v, path, value, parse) {
        OverridesExactly(env, parse, path, value);
      }
    }
  }

  lemma NoSettings(parse: string -> Scalar)
    ensures forall env: Environment :: env == [] ==> Settings(env, parse) == []
  {
  }

  lemma SettingsStep(env: Environment, i: nat, parse: string -> Scalar)
    requires i < |env|
    ensures var path := PathOf(env[i].0);
            SetAll(Settings(env[..i + 1], parse)) ==
            if path == [] then SetAll(Settings(env[..i], parse))
            else Set(SetAll(Settings(env[..i], parse)), path, parse(env[i].1))
  {
    assert env[..i + 1][..i] == env[..i];
    var vars := Settings(env[..i], parse);
    if PathOf(env[i].0) == [] {
      assert vars + [] == vars;
    } else {
      var x := Variable(PathOf(env[i].0), parse(env[i].1));
      assert (vars + [x])[..|vars|] == vars;
    }
  }

  // ---- the order of the environment ----

  /** No two variables set the same path. */
  ghost predicate DistinctSettings(env: Environment) {
    forall i, j :: 0 <= i < j < |env| && PathOf(env[i].0) != [] ==> PathOf(env[i].0) != PathOf(env[j].0)
  }

  lemma {:induction false} SettingsExactly(env: Environment, parse: string -> Scalar, x: Variable)
    ensures x in Settings(env, parse) <==>
            exists v :: v in env && PathOf(v.0) != [] && x == Variable(PathOf(v.0), parse(v.1))
  {
    if env != [] {
      var init, last := env[..|env| - 1], env[|env| - 1];
      assert env == init + [last];
      SettingsExactly(init, parse, x);
      hide PathOf;
      assert Settings(env, parse) ==
             Settings(init, parse) + if PathOf(last.0) == [] then [] else [Variable(PathOf(last.0), parse(last.1))];
    }
  }

  lemma {:induction false} SettingsAreDistinct(env: Environment, parse: string -> Scalar)
    requires DistinctSettings(env)
    ensures DistinctPaths(Settings(env, parse))
  {
    if env != [] {
      var n := |env| - 1;
      var vars, last := Settings(env[..n], parse), env[n];
      SettingsAreDistinct(env[..n], parse);
      hide PathOf;
      assert Settings(env, parse) ==
             vars + if PathOf(last.0) == [] then [] else [Variable(PathOf(last.0), parse(last.1))];
      forall i | 0 <= i < |vars| ensures PathOf(last.0) != [] ==> vars[i].path != PathOf(last.0) {
        SettingsExactly(env[..n], parse, vars[i]);
        assert vars[i] in vars;
        var v :| v in env[..n] && PathOf(v.0) != [] && vars[i] == Variable(PathOf(v.0), parse(v.1));
        var k :| 0 <= k < n && env[k] == v;
      }
    }
  }

  lemma {:induction false} TwoPlaces(env: Environment, v: (string, string)) returns (i: nat, j: nat)
    requires multiset(env)[v] >= 2
    ensures i < j < |env| && env[i] == v && env[j] == v
  {
    var n := |env| - 1;
    assert env == env[..n] + [env[n]];
    if env[n] == v {
      assert v in env[..n];
      i :| 0 <= i < n && env[i] == v;
      j := n;
    } else {
      i, j := TwoPlaces(env[..n], v);
    }
  }

  lemma PermutedStaysDistinct(env: Environment, other: Environment)
    requires multiset(env) == multiset(other) && DistinctSettings(env)
    ensures DistinctSettings(other)
  {
    hide PathOf;
    forall i, j | 0 <= i < j < |other| && PathOf(other[i].0) != [] ensures PathOf(other[i].0) != PathOf(other[j].0) {
      if other[i] == other[j] {
        assert other == other[..j] + other[j..];
        assert other[i] == other[..j][i] && other[j] == other[j..][0];
        assert multiset(other)[other[i]] >= 2;
        var k, l := TwoPlaces(env, other[i]);
      } else {
        assert other[i] in multiset(other) && other[j] in multiset(other);
        var k :| 0 <= k < |env| && env[k] == other[i];
        var l :| 0 <= l < |env| && env[l] == other[j];
      }
    }
  }

  /** Whatever order the environment lists its variables in, the overrides are the same. */
  lemma {:induction false} EnvironmentOrderIsIrrelevant(env: Environment, other: Environment, parse: string -> Scalar)
    requires multiset(env) == multiset(other) && DistinctSettings(env)
    ensures SetAll(Settings(env, parse)) == SetAll(Settings(other, parse))
  {
    PermutedStaysDistinct(env, other);
    SettingsAreDistinct(env, parse);
    SettingsAreDistinct(other, parse);
    assert forall v :: v in env <==> v in multiset(env);
    assert forall v :: v in other <==> v in multiset(other);
    hide PathOf, Settings, DistinctSettings;
    forall x ensures x in Settings(env, parse) <==> x in Settings(other, parse) {
      SettingsExactly(env, parse, x);
      SettingsExactly(other, parse, x);
    }
    OrderIsIrrelevant(Settings(env, parse), Settings(other, parse));
  }

  // ---- what the environment leaves in the table ----

  /** The variable sets a value at this path. */
  ghost predicate Sets(v: (string, string), path: Path, value: Scalar, parse: string -> Scalar) {
    path != [] && PathOf(v.0) == path && parse(v.1) == value
  }

  /** No variable sets a value above this path. */
  ghost predicate NoneAbove(env: Environment, path: Path) {
    forall v :: v in env && PathOf(v.0) != [] ==> !(PathOf(v.0) < path)
  }

  /** The values in the table are those of the variables, each at the path its name spells, but for variables with
      another one above them. */
  lemma {:induction false} OverridesExactly(env: Environment, parse: string -> Scalar, path: Path, value: Scalar)
    requires DistinctSettings(env)
    ensures LeafAt(SetAll(Settings(env, parse)), path, value) <==>
            NoneAbove(env, path) && exists v :: v in env && Sets(v, path, value, parse)
  {
    hide *;
    SettingsAreDistinct(env, parse);
    LeavesAreEffective(Settings(env, parse), path, value);
    SettingIsVariable(env, parse, path, value);
    NoneAboveExactly(env, parse, path);
    EffectiveExactly(Settings(env, parse), path, value);
  }

  lemma EffectiveExactly(vars: seq<Variable>, path: Path, value: Scalar)
    ensures Effective(vars, Variable(path, value)) <==>
            Variable(path, value) in vars && forall y :: y in vars ==> !(y.path < path)
  {
  }

  lemma SettingIsVariable(env: Environment, parse: string -> Scalar, path: Path, value: Scalar)
    ensures Variable(path, value) in Settings(env, parse) <==>
            exists v :: v in env && Sets(v, path, value, parse)
  {
    hide PathOf, Settings;
    SettingsExactly(env, parse, Variable(path, value));
    if v :| v in env && Sets(v, path, value, parse) {
      assert Variable(path, value) == Variable(PathOf(v.0), parse(v.1));
    }
    if v :| v in env && PathOf(v.0) != [] && Variable(path, value) == Variable(PathOf(v.0), parse(v.1)) {
      assert Sets(v, path, value, parse);
    }
  }

  lemma NoneAboveExactly(env: Environment, parse: string -> Scalar, path: Path)
    ensures NoneAbove(env, path) <==> forall y :: y in Settings(env, parse) ==> !(y.path < path)
  {
    hide PathOf, Settings;
    forall v | v in env && PathOf(v.0) != [] ensures Variable(PathOf(v.0), parse(v.1)) in Settings(env, parse) {
      SettingsExactly(env, parse, Variable(PathOf(v.0), parse(v.1)));
    }
    if NoneAbove(env, path) {
      forall y | y in Settings(env, parse) ensures !(y.path < path) {
        SettingsExactly(env, parse, y);
      }
    } else {
      var v :| v in env && PathOf(v.0) != [] && PathOf(v.0) < path;
      assert Variable(PathOf(v.0), parse(v.1)) in Settings(env, parse);
    }
  }
}
