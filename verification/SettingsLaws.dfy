/** Where each final setting comes from: the environment's overrides, the selected section, `[default]`, or the top. */
module SettingsLaws {
  import opened Wrappers
  import opened ConfigMerge

  /** A part of the file, if it is there. */
  ghost predicate SectionSets(raw: map<Key, Toml>, name: Key, path: Path, value: Scalar) {
    name in raw && LeafAt(raw[name], path, value)
  }

  ghost predicate SectionDecides(raw: map<Key, Toml>, name: Key, path: Path) {
    name in raw && Decides(raw[name], path)
  }

  /** The file sets this value outside its tables; its version number is no setting. */
  ghost predicate TopSets(raw: map<Key, Toml>, path: Path, value: Scalar) {
    |path| == 1 && path[0] in raw && raw[path[0]] == Leaf(value) && path[0] != "config_version"
  }

  /** What stands one key further down. */
  lemma {:induction false} AtOneMore(t: Toml, path: Path, k: Key)
    ensures At(t, []) == Some(t)
    ensures At(t, path + [k]) ==
            match At(t, path)
            case Some(Table(entries)) => if k in entries then Some(entries[k]) else None
            case _ => None
  {
    if path == [] {
      assert [] + [k] == [k] && [k][1..] == [];
    } else if t.Table? && path[0] in t.entries {
      assert (path + [k])[1..] == path[1..] + [k];
      AtOneMore(t.entries[path[0]], path[1..], k);
    }
  }

  /** A table decides a path exactly when it holds something there, or a value stands on the way. */
  lemma {:induction false} DecidesExactly(t: Toml, path: Path)
    ensures Decides(t, path) <==>
            At(t, path).Some? || exists n: nat :: n <= |path| && At(t, path[..n]).Some? && At(t, path[..n]).value.Leaf?
  {
    if path != [] && t.Table? && path[0] in t.entries {
      var sub, rest := t.entries[path[0]], path[1..];
      DecidesExactly(sub, rest);
      if n: nat :| n <= |rest| && At(sub, rest[..n]).Some? && At(sub, rest[..n]).value.Leaf? {
        assert path[..n + 1][0] == path[0] && path[..n + 1][1..] == rest[..n];
      }
      if n: nat :| n <= |path| && At(t, path[..n]).Some? && At(t, path[..n]).value.Leaf? {
        assert n > 0 && path[..n][0] == path[0] && path[..n][1..] == rest[..n - 1];
      }
    } else if path != [] && t.Table? {
      forall n: nat | n <= |path| ensures At(t, path[..n]).Some? ==> n == 0 {
        assert n > 0 ==> path[..n][0] == path[0];
      }
    } else {
      assert At(t, path[..0]) == Some(t);
    }
  }

  /** A merge holds something at a path exactly when the override does, or the base does and the override decides
      nothing there. */
  lemma {:induction false} MergeHoldsExactly(base: Toml, override: Toml, path: Path)
    requires base.Table? && override.Table?
    ensures At(Merge(base, override), path).Some? <==>
            At(override, path).Some? || (At(base, path).Some? && !Decides(override, path))
    decreases path
  {
    if path != [] {
      var k := path[0];
      if k in base.entries && k in override.entries {
        if base.entries[k].Table? && override.entries[k].Table? {
          MergeHoldsExactly(base.entries[k], override.entries[k], path[1..]);
        } else {
          HiddenBelow(base.entries[k], override.entries[k], path[1..]);
        }
      }
    }
  }

  /** Where one of two values is a leaf, the lower one holds nothing that the upper one leaves undecided and does not
      hold. */
  lemma HiddenBelow(base: Toml, override: Toml, path: Path)
    requires base.Leaf? || override.Leaf?
    ensures At(base, path).Some? && !Decides(override, path) ==> At(override, path).Some?
  {
  }

  lemma TopLeaf(raw: map<Key, Toml>, path: Path, value: Scalar)
    ensures LeafAt(TopLevel(raw), path, value) <==> TopSets(raw, path, value)
  {
    if path != [] && path[0] in TopLevel(raw).entries {
      assert path == [path[0]] + path[1..];
      var sub := raw[path[0]];
      assert At(TopLevel(raw), path) == At(sub, path[1..]);
    }
  }

  lemma SectionLeaf(raw: map<Key, Toml>, name: Key, path: Path, value: Scalar)
    requires path != []
    ensures LeafAt(Section(raw, name), path, value) <==> SectionSets(raw, name, path, value)
    ensures Decides(Section(raw, name), path) <==> SectionDecides(raw, name, path)
  {
  }

  /** The selected section, when one is selected. */
  ghost predicate EnvSets(raw: map<Key, Toml>, env: Option<Key>, path: Path, value: Scalar) {
    env.Some? && SectionSets(raw, env.value, path, value)
  }

  ghost predicate EnvDecides(raw: map<Key, Toml>, env: Option<Key>, path: Path) {
    env.Some? && SectionDecides(raw, env.value, path)
  }

  /** A final setting is the overrides' own. What these do not decide is the selected section's, what that does not
      decide is that of `[default]`, and what neither decides is the file's own, outside its tables. */
  lemma {:induction false} SettingComesFrom(raw: map<Key, Toml>, env: Option<Key>, overrides: Toml, path: Path,
                                            value: Scalar)
    requires ("default" in raw ==> raw["default"].Table?) && overrides.Table? && path != []
    requires env.Some? ==> env.value in raw && raw[env.value].Table?
    ensures LeafAt(Layer(Layers(raw, env, overrides)), path, value) <==>
            || LeafAt(overrides, path, value)
            || (&& !Decides(overrides, path)
                && (|| EnvSets(raw, env, path, value)
                    || (&& !EnvDecides(raw, env, path)
                        && (|| SectionSets(raw, "default", path, value)
                            || (!SectionDecides(raw, "default", path) && TopSets(raw, path, value))))))
  {
    LayersMerged(raw, env, overrides);
    SectionLeaf(raw, "default", path, value);
    TopLeaf(raw, path, value);
    var two := Merge(TopLevel(raw), Section(raw, DEFAULT_ENV));
    LeafOfMerge(TopLevel(raw), Section(raw, DEFAULT_ENV), path, value);
    var three := if env.Some? then Merge(two, Section(raw, env.value)) else two;
    if env.Some? {
      SectionLeaf(raw, env.value, path, value);
      LeafOfMerge(two, Section(raw, env.value), path, value);
    }
    LeafOfMerge(three, overrides, path, value);
    hide LeafAt, Decides, Merge, Layer, Layers, SectionSets, SectionDecides, TopSets, Section, TopLevel;
  }
}
