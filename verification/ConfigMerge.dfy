/** Layering configuration tables: a recursive merge, and what the layers add up to. */
module ConfigMerge {
  import opened Wrappers

  datatype Scalar = Bool(b: bool) | Int(n: int) | Str(s: string) | List(items: seq<string>)
  type Key = string
  type Path = seq<Key>

  datatype Toml = Table(entries: map<Key, Toml>) | Leaf(value: Scalar)

  const EMPTY: Toml := Table(map[])

  /** `override` on top of `base`, recursing where both have a table; anything else replaces. */
  function Merge(base: Toml, override: Toml): Toml
    decreases override
  {
    if base.Table? && override.Table? then
      Table(map k | k in base.entries.Keys + override.entries.Keys ::
        if k !in override.entries then base.entries[k]
        else if k in base.entries then Merge(base.entries[k], override.entries[k])
        else override.entries[k])
    else override
  }

  /** `dict(table or {})`: no table reads as the empty one. */
  function OrEmpty(t: Option<Toml>): Toml {
    if t.Some? then t.value else EMPTY
  }

  predicate IsTable(t: Option<Toml>) {
    OrEmpty(t).Table?
  }

  /** Copy the base, then write the override's entries into the copy one by one. */
  method DeepMerge(base: Option<Toml>, override: Option<Toml>) returns (out: Toml)
    requires IsTable(base) && IsTable(override)
    ensures out == Merge(OrEmpty(base), OrEmpty(override))
    decreases OrEmpty(override)
  {
    hide MergedBut, Merge;
    var below, above := OrEmpty(base), OrEmpty(override);
    var entries := below.entries;
    var todo := above.entries.Keys;
    MergeStarts(below, above);
    while todo != {}
      invariant todo <= above.entries.Keys
      invariant MergedBut(below, above, todo, entries)
      decreases todo
    {
      var key :| key in todo;
      MergeNext(below, above, todo, entries, key);
      todo := todo - {key};
      var value := above.entries[key];
      if value.Table? && key in entries && entries[key].Table? {
        var merged := DeepMerge(Some(entries[key]), Some(value));
        entries := entries[key := merged];
      } else {
        entries := entries[key := value];
      }
    }
    MergeEnds(below, above, entries);
    out := Table(entries);
  }

  lemma MergeStarts(base: Toml, override: Toml)
    requires base.Table? && override.Table?
    ensures MergedBut(base, override, override.entries.Keys, base.entries)
  {
  }

  lemma MergeEnds(base: Toml, override: Toml, entries: map<Key, Toml>)
    requires MergedBut(base, override, {}, entries)
    ensures Table(entries) == Merge(base, override)
  {
    assert entries == Merge(base, override).entries;
  }

  /** The copy of the base, with all entries of the override but those in `todo` written. */
  ghost predicate MergedBut(base: Toml, override: Toml, todo: set<Key>, entries: map<Key, Toml>) {
    && base.Table? && override.Table? && todo <= override.entries.Keys
    && entries.Keys == base.entries.Keys + (override.entries.Keys - todo)
    && (forall k :: k in entries && (k in todo || k !in override.entries) ==> entries[k] == base.entries[k])
    && (forall k :: k in override.entries && k !in todo ==> entries[k] == Merge(base, override).entries[k])
  }

  lemma MergeNext(base: Toml, override: Toml, todo: set<Key>, entries: map<Key, Toml>, key: Key)
    requires MergedBut(base, override, todo, entries) && key in todo
    ensures key in override.entries
    ensures var value := override.entries[key];
            var both := value.Table? && key in entries && entries[key].Table?;
            var merged := if both then Merge(entries[key], value) else value;
            MergedBut(base, override, todo - {key}, entries[key := merged])
  {
    var value := override.entries[key];
    var merged := if value.Table? && key in entries && entries[key].Table? then Merge(entries[key], value) else value;
    assert key in entries <==> key in base.entries;
    assert merged == Merge(base, override).entries[key];
    hide Merge;
    assert entries[key := merged].Keys == base.entries.Keys + (override.entries.Keys - (todo - {key}));
  }

  // ---- laws of the merge ----

  lemma {:induction false} EmptyIsIdentity(t: Toml)
    requires t.Table?
    ensures Merge(EMPTY, t) == t && Merge(t, EMPTY) == t
  {
    assert Merge(EMPTY, t).entries == t.entries;
    assert Merge(t, EMPTY).entries == t.entries;
  }

  lemma {:induction false} MergeIdempotent(t: Toml)
    ensures Merge(t, t) == t
    decreases t
  {
    if t.Table? {
      forall k | k in t.entries ensures Merge(t.entries[k], t.entries[k]) == t.entries[k] {
        MergeIdempotent(t.entries[k]);
      }
      assert Merge(t, t).entries == t.entries;
    }
  }

  /** Every entry of `base` is overridden somewhere at or below where it stands, down to its leaves. */
  predicate Covered(base: Toml, cover: Toml)
    decreases base
  {
    base.Table? && cover.Table? ==>
      forall k :: k in base.entries ==> k in cover.entries && Covered(base.entries[k], cover.entries[k])
  }

  /** Merging leaves the override as it is exactly when it covers the base. */
  lemma {:induction false} CoveredIsAbsorbed(base: Toml, cover: Toml)
    ensures Covered(base, cover) <==> Merge(base, cover) == cover
    decreases cover
  {
    if base.Table? && cover.Table? {
      forall k | k in base.entries && k in cover.entries
        ensures Covered(base.entries[k], cover.entries[k]) <==>
                Merge(base.entries[k], cover.entries[k]) == cover.entries[k]
      {
        CoveredIsAbsorbed(base.entries[k], cover.entries[k]);
      }
      var m := Merge(base, cover);
      if Covered(base, cover) {
        assert m.entries == cover.entries;
      }
      if m == cover {
        forall k | k in base.entries ensures k in cover.entries && Covered(base.entries[k], cover.entries[k]) {
          assert k in m.entries;
        }
      }
    }
  }

  /** Where the middle layer puts a value between two tables, the last table covers the first. */
  predicate Reassociates(a: Toml, b: Toml, c: Toml)
    decreases b
  {
    a.Table? && c.Table? ==>
      if b.Table? then
        forall k :: k in a.entries && k in b.entries && k in c.entries ==>
          Reassociates(a.entries[k], b.entries[k], c.entries[k])
      else Covered(a, c)
  }

  /** Merging is associative exactly when no value in the middle hides a table the last layer does not cover. */
  lemma {:induction false} AssociativeExactly(a: Toml, b: Toml, c: Toml)
    ensures Merge(Merge(a, b), c) == Merge(a, Merge(b, c)) <==> Reassociates(a, b, c)
    decreases b
  {
    if a.Table? && c.Table? {
      if b.Table? {
        var l, r := Merge(Merge(a, b), c), Merge(a, Merge(b, c));
        forall k | k in a.entries && k in b.entries && k in c.entries
          ensures l.entries[k] == r.entries[k] <==> Reassociates(a.entries[k], b.entries[k], c.entries[k])
        {
          AssociativeExactly(a.entries[k], b.entries[k], c.entries[k]);
        }
        assert l.entries.Keys == r.entries.Keys;
        forall k | k in l.entries && !(k in a.entries && k in b.entries && k in c.entries)
          ensures l.entries[k] == r.entries[k]
        {
        }
        if Reassociates(a, b, c) {
          assert l.entries == r.entries;
        }
      } else {
        CoveredIsAbsorbed(a, c);
      }
    }
  }

  // ---- what is found at a path ----

  function At(t: Toml, path: Path): Option<Toml> {
    if path == [] then Some(t)
    else if t.Table? && path[0] in t.entries then At(t.entries[path[0]], path[1..])
    else None
  }

  ghost predicate LeafAt(t: Toml, path: Path, value: Scalar) {
    At(t, path) == Some(Leaf(value))
  }

  /** The layer decides what is at the path: it has a value there, or a leaf on the way. */
  predicate Decides(t: Toml, path: Path) {
    path == [] || t.Leaf? || (path[0] in t.entries && Decides(t.entries[path[0]], path[1..]))
  }

  /** A value between two tables hides the first: `{k: {x: 1}}`, `{k: 1}` and `{k: {y: 2}}` merge in two ways. */
  lemma {:induction false} HiddenTableBreaksAssociativity()
    ensures var x, y := Table(map["x" := Leaf(Int(1))]), Table(map["y" := Leaf(Int(2))]);
            var a, b, c := Table(map["k" := x]), Table(map["k" := Leaf(Int(1))]), Table(map["k" := y]);
            && Merge(Merge(a, b), c) == Table(map["k" := y])
            && Merge(a, Merge(b, c)) == Table(map["k" := Merge(x, y)]) != Table(map["k" := y])
  {
    var x, y := Table(map["x" := Leaf(Int(1))]), Table(map["y" := Leaf(Int(2))]);
    OneEntry("k", x, Leaf(Int(1)));
    OneEntry("k", Leaf(Int(1)), y);
    OneEntry("k", x, y);
    assert "x" in Merge(x, y).entries && "x" !in y.entries;
    var one, other := map["k" := Merge(x, y)], map["k" := y];
    assert one["k"] != other["k"];
  }

  lemma OneEntry(k: Key, a: Toml, b: Toml)
    ensures Merge(Table(map[k := a]), Table(map[k := b])) == Table(map[k := Merge(a, b)])
  {
    assert Merge(Table(map[k := a]), Table(map[k := b])).entries == map[k := Merge(a, b)];
  }

  /** A leaf of a merge is one of the override, or one of the base where the override decides nothing. */
  lemma {:induction false} LeafOfMerge(base: Toml, override: Toml, path: Path, value: Scalar)
    requires base.Table? && override.Table?
    ensures LeafAt(Merge(base, override), path, value) <==>
            LeafAt(override, path, value) || (LeafAt(base, path, value) && !Decides(override, path))
    decreases path
  {
    if path != [] {
      var k := path[0];
      if k in base.entries && k in override.entries {
        if base.entries[k].Table? && override.entries[k].Table? {
          LeafOfMerge(base.entries[k], override.entries[k], path[1..], value);
        } else {
          LeafUnderOverride(base.entries[k], override.entries[k], path[1..], value);
        }
      }
    }
  }

  /** Where one of two values is a leaf, no leaf of the lower one is left undecided by the upper one. */
  lemma {:induction false} LeafUnderOverride(base: Toml, override: Toml, path: Path, value: Scalar)
    requires base.Leaf? || override.Leaf?
    ensures !(LeafAt(base, path, value) && !Decides(override, path))
  {
  }

  // ---- the layers ----

  function Layer(layers: seq<Toml>): Toml {
    if layers == [] then EMPTY else Merge(Layer(layers[..|layers| - 1]), layers[|layers| - 1])
  }

  lemma {:induction false} LayerIsTable(layers: seq<Toml>)
    requires forall i :: 0 <= i < |layers| ==> layers[i].Table?
    ensures Layer(layers).Table?
  {
    if layers != [] { LayerIsTable(layers[..|layers| - 1]); }
  }

  /** Some layer sets the value at the path, and no higher layer decides the path. */
  ghost predicate Wins(layers: seq<Toml>, path: Path, value: Scalar) {
    exists i :: 0 <= i < |layers| && LeafAt(layers[i], path, value)
                && forall j :: i < j < |layers| ==> !Decides(layers[j], path)
  }

  lemma WinsOneMore(init: seq<Toml>, last: Toml, path: Path, value: Scalar)
    ensures Wins(init + [last], path, value) <==>
            LeafAt(last, path, value) || (Wins(init, path, value) && !Decides(last, path))
  {
    hide LeafAt, Decides;
    var layers, n := init + [last], |init|;
    assert layers[n] == last && forall i :: 0 <= i < n ==> layers[i] == init[i];
    if i :| 0 <= i < n && LeafAt(init[i], path, value) && forall j :: i < j < n ==> !Decides(init[j], path) {
      assert LeafAt(layers[i], path, value);
    }
    if LeafAt(last, path, value) {
      assert LeafAt(layers[n], path, value);
    }
    if i :| 0 <= i <= n && LeafAt(layers[i], path, value) && forall j :: i < j <= n ==> !Decides(layers[j], path) {
      if i < n {
        assert LeafAt(init[i], path, value) && !Decides(layers[n], path);
        assert forall j :: i < j < n ==> !Decides(init[j], path) by {
          assert forall j :: i < j < n ==> init[j] == layers[j];
        }
      }
    }
  }

  /** A value is the final one at a path exactly when some layer sets it there and no higher layer decides the path. */
  lemma {:induction false} HighestLayerWins(layers: seq<Toml>, path: Path, value: Scalar)
    requires forall i :: 0 <= i < |layers| ==> layers[i].Table?
    ensures LeafAt(Layer(layers), path, value) <==> Wins(layers, path, value)
  {
    if layers == [] {
      assert path != [] ==> At(EMPTY, path) == None;
    } else {
      var init, last := layers[..|layers| - 1], layers[|layers| - 1];
      assert Layer(layers) == Merge(Layer(init), last) && layers == init + [last];
      hide Wins, LeafAt, Decides, Layer, Merge;
      LayerIsTable(init);
      HighestLayerWins(init, path, value);
      LeafOfMerge(Layer(init), last, path, value);
      WinsOneMore(init, last, path, value);
    }
  }

  // ---- the layers of a settings file ----

  const DEFAULT_ENV := "default"
  const CONFIG_VERSION_KEY := "config_version"

  /** The entries of the file that are not tables, less the loader's own version key. */
  function TopLevel(raw: map<Key, Toml>): Toml {
    Table(map k | k in raw && !raw[k].Table? && k != CONFIG_VERSION_KEY :: raw[k])
  }

  function Section(raw: map<Key, Toml>, name: Key): Toml {
    if name in raw then raw[name] else EMPTY
  }

  /** The selectable environments: every table of the file but `[default]`. */
  function EnvironmentNames(raw: map<Key, Toml>): set<Key> {
    set k | k in raw && raw[k].Table? && k != DEFAULT_ENV
  }

  datatype SettingsError = UnknownEnvironment(env: Key)

  /** The settings to validate: top-level keys, then `[default]`, then `[env]`, then the environment's overrides. */
  method SettingsTable(raw: map<Key, Toml>, env: Option<Key>, overrides: Toml) returns (r: Result<Toml, SettingsError>)
    requires DEFAULT_ENV in raw ==> raw[DEFAULT_ENV].Table?
    requires overrides.Table?
    ensures r.Err? <==> env.Some? && !(env.value in raw && raw[env.value].Table? && env.value != "default")
    ensures r.Err? ==> r.error == UnknownEnvironment(env.value)
    ensures r.Ok? ==> r.value == Layer(Layers(raw, env, overrides))
  {
    if env.Some? && env.value !in EnvironmentNames(raw) {
      return Err(UnknownEnvironment(env.value));
    }
    LayersMerged(raw, env, overrides);
    var table := DeepMerge(Some(TopLevel(raw)), Some(Section(raw, DEFAULT_ENV)));
    if env.Some? {
      table := DeepMerge(Some(table), Some(Section(raw, env.value)));
    }
    table := DeepMerge(Some(table), Some(overrides));
    return Ok(table);
  }

  function Layers(raw: map<Key, Toml>, env: Option<Key>, overrides: Toml): seq<Toml> {
    [TopLevel(raw), Section(raw, DEFAULT_ENV)] + (if env.Some? then [Section(raw, env.value)] else []) + [overrides]
  }

  lemma LayersMerged(raw: map<Key, Toml>, env: Option<Key>, overrides: Toml)
    ensures var two := Merge(TopLevel(raw), Section(raw, DEFAULT_ENV));
            Layer(Layers(raw, env, overrides)) ==
            Merge(if env.Some? then Merge(two, Section(raw, env.value)) else two, overrides)
  {
    var a, b := TopLevel(raw), Section(raw, DEFAULT_ENV);
    EmptyIsIdentity(a);
    assert Layer([a]) == a by { assert [a][..0] == []; }
    assert Layer([a, b]) == Merge(a, b) by { assert [a, b][..1] == [a]; }
    if env.Some? {
      var c := Section(raw, env.value);
      assert Layer([a, b, c]) == Merge(Merge(a, b), c) by { assert [a, b, c][..2] == [a, b]; }
      assert Layers(raw, env, overrides)[..3] == [a, b, c];
    } else {
      assert Layers(raw, env, overrides)[..2] == [a, b];
    }
  }
}
