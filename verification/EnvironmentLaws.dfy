/** Which environment variables are settings, and where they end up. */
module EnvironmentLaws {
  import opened ConfigMerge
  import opened EnvironmentOverrides
  import Words

  // ---- names split at double underscores ----

  function JoinNesting(parts: seq<string>): string {
    if parts == [] then "" else if |parts| == 1 then parts[0] else parts[0] + "__" + JoinNesting(parts[1..])
  }

  ghost predicate NoDouble(s: string) {
    forall i :: 0 <= i < |s| - 1 ==> !(s[i] == '_' && s[i + 1] == '_')
  }

  /** Parts cut at the first double underscore each time: none has one, and only the last may end in an underscore. */
  ghost predicate CutEarly(parts: seq<string>) {
    && (forall i :: 0 <= i < |parts| ==> NoDouble(parts[i]))
    && forall i :: 0 <= i < |parts| - 1 ==> parts[i] == "" || parts[i][|parts[i]| - 1] != '_'
  }

  lemma {:induction false} SplitJoins(s: string)
    ensures JoinNesting(SplitNesting(s)) == s
  {
    if s == "" {
    } else if |s| >= 2 && s[0] == '_' && s[1] == '_' {
      SplitJoins(s[2..]);
      var rest := SplitNesting(s[2..]);
      assert SplitNesting(s)[1..] == rest && s == "" + "__" + s[2..];
    } else {
      SplitJoins(s[1..]);
      LongerFirst(s[0], SplitNesting(s[1..]));
      assert s == [s[0]] + s[1..];
    }
  }

  lemma LongerFirst(c: char, parts: seq<string>)
    requires parts != []
    ensures JoinNesting([[c] + parts[0]] + parts[1..]) == [c] + JoinNesting(parts)
  {
    assert ([[c] + parts[0]] + parts[1..])[1..] == parts[1..];
    assert |parts| > 1 ==>
        [c] + parts[0] + "__" + JoinNesting(parts[1..]) == [c] + (parts[0] + "__" + JoinNesting(parts[1..]));
  }

  lemma {:induction false} SplitCutsEarly(s: string)
    ensures CutEarly(SplitNesting(s))
    ensures s != "" && s[0] == '_' && (|s| < 2 || s[1] != '_') ==> SplitNesting(s)[0] != ""
    ensures SplitNesting(s)[0] != "" ==> s != "" && SplitNesting(s)[0][0] == s[0]
    ensures SplitNesting(s)[0] == "" ==> s == "" || (|s| >= 2 && s[0] == '_' && s[1] == '_')
  {
    if s == "" {
    } else if |s| >= 2 && s[0] == '_' && s[1] == '_' {
      SplitCutsEarly(s[2..]);
      PrependPart("", SplitNesting(s[2..]));
    } else {
      SplitCutsEarly(s[1..]);
      var rest := SplitNesting(s[1..]);
      if s[0] == '_' {
        assert rest[0] == "" ==> s[1..] == "";
      }
      assert s[1..] == "" ==> rest == [""];
      LongerPart(s[0], rest);
    }
  }

  lemma PrependPart(part: string, parts: seq<string>)
    requires CutEarly(parts) && NoDouble(part) && (part == "" || part[|part| - 1] != '_')
    ensures CutEarly([part] + parts)
  {
  }

  lemma LongerPart(c: char, parts: seq<string>)
    requires CutEarly(parts) && parts != []
    requires c == '_' ==> (parts[0] == "" ==> |parts| == 1) && (parts[0] != "" ==> parts[0][0] != '_')
    ensures CutEarly([[c] + parts[0]] + parts[1..])
  {
    var longer := [[c] + parts[0]] + parts[1..];
    assert NoDouble([c] + parts[0]) by {
      forall i | 0 <= i < |parts[0]| ensures !(([c] + parts[0])[i] == '_' && ([c] + parts[0])[i + 1] == '_') {
        if i > 0 {
          assert ([c] + parts[0])[i] == parts[0][i - 1];
        }
      }
    }
    assert forall i :: 1 <= i < |longer| ==> longer[i] == parts[i];
  }

  /** Parts cut early are what their join splits into. */
  lemma {:induction false} CutEarlyIsSplit(parts: seq<string>)
    requires parts != [] && CutEarly(parts)
    ensures SplitNesting(JoinNesting(parts)) == parts
    decreases |parts|, |parts[0]|
  {
    var s := JoinNesting(parts);
    if parts[0] == "" {
      if |parts| == 1 {
        assert parts == [""];
      } else {
        assert s == "__" + JoinNesting(parts[1..]);
        assert s[2..] == JoinNesting(parts[1..]);
        CutEarlyIsSplit(parts[1..]);
        assert parts == [""] + parts[1..];
      }
    } else {
      var c, shorter := parts[0][0], [parts[0][1..]] + parts[1..];
      assert parts[0] == [c] + parts[0][1..] && shorter[1..] == parts[1..];
      ShorterPart(parts);
      LongerFirst(c, shorter);
      assert [[c] + shorter[0]] + shorter[1..] == parts;
      CutEarlyIsSplit(shorter);
      StartsSingle(parts);
      assert s[1..] == JoinNesting(shorter);
    }
  }

  lemma ShorterPart(parts: seq<string>)
    requires parts != [] && CutEarly(parts) && parts[0] != ""
    ensures CutEarly([parts[0][1..]] + parts[1..])
  {
    var shorter := [parts[0][1..]] + parts[1..];
    assert forall i :: 1 <= i < |shorter| ==> shorter[i] == parts[i];
    assert NoDouble(parts[0][1..]) by {
      forall i | 0 <= i < |parts[0][1..]| - 1
        ensures !(parts[0][1..][i] == '_' && parts[0][1..][i + 1] == '_')
      {
        assert parts[0][1..][i] == parts[0][i + 1] && parts[0][1..][i + 1] == parts[0][i + 2];
      }
    }
  }

  lemma StartsSingle(parts: seq<string>)
    requires parts != [] && CutEarly(parts) && parts[0] != ""
    ensures var s := JoinNesting(parts);
            s != "" && s[0] == parts[0][0] && (|s| >= 2 ==> !(s[0] == '_' && s[1] == '_'))
  {
    var s := JoinNesting(parts);
    if |parts| > 1 {
      assert s == parts[0] + "__" + JoinNesting(parts[1..]);
    }
    if |parts[0]| > 1 {
      assert s[0] == parts[0][0] && s[1] == parts[0][1];
    }
  }

  /** A name is split into these parts exactly when it is their join, cut at the first double underscore each time. */
  lemma {:induction false} SplitNestingExactly(s: string, parts: seq<string>)
    ensures SplitNesting(s) == parts <==> parts != [] && JoinNesting(parts) == s && CutEarly(parts)
  {
    SplitJoins(s);
    SplitCutsEarly(s);
    hide CutEarly, SplitNesting, JoinNesting;
    if parts != [] && JoinNesting(parts) == s && CutEarly(parts) {
      CutEarlyIsSplit(parts);
    }
  }

  // ---- the keys of a path ----

  /** In small letters: `A` to `Z` moved down by 32 code points, everything else as it is. */
  ghost predicate InSmallLetters(key: string, part: string) {
    |key| == |part| && forall i :: 0 <= i < |part| ==>
      key[i] as int == part[i] as int + if 65 <= part[i] as int <= 90 then 32 else 0
  }

  ghost predicate AscendingPlaces(places: seq<nat>) {
    forall i, j :: 0 <= i < j < |places| ==> places[i] < places[j]
  }

  /** The keys are the parts that are not empty, in order, in small letters. */
  ghost predicate KeysOf(path: Path, parts: seq<string>, places: seq<nat>) {
    && |path| == |places| && AscendingPlaces(places)
    && (forall i: nat :: i < |parts| && parts[i] != "" ==> i in places)
    && forall k :: 0 <= k < |path| ==>
         places[k] < |parts| && parts[places[k]] != "" && InSmallLetters(path[k], parts[places[k]])
  }

  function KeyOf(part: string): Path {
    if part == "" then [] else [Words.Lower(part)]
  }

  lemma {:induction false} LowerPartsAppend(parts: seq<string>, last: string)
    ensures LowerParts(parts + [last]) == LowerParts(parts) + KeyOf(last)
  {
    if parts == [] {
      assert [] + [last] == [last] && [last][1..] == [];
    } else {
      assert (parts + [last])[1..] == parts[1..] + [last];
      LowerPartsAppend(parts[1..], last);
    }
  }

  lemma {:induction false} LowerPartsExactly(parts: seq<string>) returns (places: seq<nat>)
    ensures KeysOf(LowerParts(parts), parts, places)
  {
    places := [];
    if parts != [] {
      var n := |parts| - 1;
      assert parts == parts[..n] + [parts[n]];
      places := LowerPartsExactly(parts[..n]);
      LowerPartsAppend(parts[..n], parts[n]);
      LowerIsSmall(parts[n]);
      hide LowerParts, InSmallLetters;
      OneKeyMore(LowerParts(parts[..n]), parts, places);
      places := places + if parts[n] == "" then [] else [n];
    }
  }

  lemma OneKeyMore(path: Path, parts: seq<string>, places: seq<nat>)
    requires parts != [] && KeysOf(path, parts[..|parts| - 1], places)
    requires InSmallLetters(Words.Lower(parts[|parts| - 1]), parts[|parts| - 1])
    ensures var n := |parts| - 1;
            KeysOf(path + KeyOf(parts[n]), parts, places + if parts[n] == "" then [] else [n])
  {
    hide InSmallLetters;
    var n := |parts| - 1;
    var more := places + if parts[n] == "" then [] else [n];
    forall i: nat | i < |parts| && parts[i] != "" ensures i in more {
      if i < n {
        assert parts[..n][i] != "" && i in places;
      } else {
        assert more[|places|] == n;
      }
    }
    assert forall k :: 0 <= k < |places| ==> parts[..n][places[k]] == parts[places[k]] && places[k] < n;
  }

  lemma LowerIsSmall(part: string)
    ensures InSmallLetters(Words.Lower(part), part)
  {
  }

  // ---- the path of a variable ----

  /** The variables the command line keeps to itself. */
  ghost predicate IsControlName(rest: string) {
    || rest == "ENV" || rest == "ENV_EXPIRES" || rest == "CONFIG" || rest == "CONFIG_VERSION" || rest == "ROOT"
    || rest == "PYROOT" || rest == "SHOULD_REINSTALL" || rest == "INSTALL_PATH" || rest == "DATABASE_URL"
    || rest == "RUNNER_DATABASE_URL" || rest == "DB_PORT"
  }

  /** What is left of the name is one of those, or names a source directory. */
  ghost predicate IsReserved(rest: string) {
    IsControlName(rest) || exists front :: rest == front + "_SRC"
  }

  ghost predicate OnlyUnderscores(rest: string) {
    forall i :: 0 <= i < |rest| ==> rest[i] == '_'
  }

  lemma ReservedExactly(rest: string)
    ensures IsReserved(rest) <==> rest in CONTROL_VARIABLES || EndsWith(rest, "_SRC")
  {
    if EndsWith(rest, "_SRC") {
      assert rest == rest[..|rest| - 4] + "_SRC";
    }
    if front :| rest == front + "_SRC" {
      assert rest[|rest| - 4..] == "_SRC";
    }
  }

  lemma PrefixThenRest(rest: string)
    ensures ENV_PREFIX <= "MACROSTRAT_" + rest && ("MACROSTRAT_" + rest)[|ENV_PREFIX|..] == rest
  {
  }

  /** A setting has one key for each part of its name that is not empty: the parts between the double underscores after
      the prefix, in their order, in small letters. */
  lemma {:induction false} PathOfParts(parts: seq<string>) returns (places: seq<nat>)
    requires parts != [] && CutEarly(parts) && !IsReserved(JoinNesting(parts))
    ensures KeysOf(PathOf("MACROSTRAT_" + JoinNesting(parts)), parts, places)
    ensures (forall i :: 0 <= i < |parts| ==> parts[i] != "") ==>
              places == seq(|parts|, i requires 0 <= i < |parts| => i)
  {
    var rest := JoinNesting(parts);
    PrefixThenRest(rest);
    ReservedExactly(rest);
    CutEarlyIsSplit(parts);
    assert rest == "" ==> LowerParts(SplitNesting(rest)) == [];
    places := LowerPartsExactly(parts);
    hide CutEarly, JoinNesting, SplitNesting, LowerParts, IsReserved, InSmallLetters;
    if forall i :: 0 <= i < |parts| ==> parts[i] != "" {
      AllPlaces(places, |parts|);
    }
  }

  lemma PlaceBelow(places: seq<nat>, n: nat)
    requires places != [] && forall k :: 0 <= k < |places| ==> places[k] < n
    ensures n > 0
  {
    assert places[0] < n;
  }

  lemma {:induction false} AllPlaces(places: seq<nat>, n: nat)
    requires AscendingPlaces(places) && (forall k :: 0 <= k < |places| ==> places[k] < n)
    requires forall i: nat :: i < n ==> i in places
    ensures places == seq(n, i requires 0 <= i < n => i)
  {
    if places != [] {
      PlaceBelow(places, n);
    }
    if n > 0 {
      assert n - 1 in places;
      var last := |places| - 1;
      assert places[last] == n - 1;
      forall i: nat | i < n - 1 ensures i in places[..last] {
        assert i in places;
      }
      AllPlaces(places[..last], n - 1);
    }
  }

  lemma {:induction false} UnderscoresSplit(rest: string)
    ensures LowerParts(SplitNesting(rest)) == [] <==> OnlyUnderscores(rest) && |rest| % 2 == 0
  {
    if |rest| >= 2 && rest[0] == '_' && rest[1] == '_' {
      UnderscoresSplit(rest[2..]);
      assert ([""] + SplitNesting(rest[2..]))[1..] == SplitNesting(rest[2..]);
      assert OnlyUnderscores(rest) <==> OnlyUnderscores(rest[2..]) by {
        if OnlyUnderscores(rest[2..]) {
          forall i | 2 <= i < |rest| ensures rest[i] == '_' {
            assert rest[i] == rest[2..][i - 2];
          }
        }
      }
    } else if |rest| == 1 {
      assert SplitNesting(rest)[0] != "";
    }
  }

  /** A variable is no setting exactly when its name has not the prefix, what follows is reserved, or what follows is an
      even number of underscores. */
  lemma {:induction false} NoSettingExactly(name: string)
    ensures PathOf(name) == [] <==>
            !("MACROSTRAT_" <= name)
            || (var rest := name[|"MACROSTRAT_"|..];
                IsReserved(rest) || (OnlyUnderscores(rest) && |rest| % 2 == 0))
  {
    if "MACROSTRAT_" <= name {
      var rest := name[|"MACROSTRAT_"|..];
      ReservedExactly(rest);
      UnderscoresSplit(rest);
    }
  }

  /** The keys of a setting with no empty parts, by name. */
  lemma {:induction false} NamedSetting(parts: seq<string>)
    requires parts != [] && (forall i :: 0 <= i < |parts| ==> parts[i] != "" && '_' !in parts[i])
    requires !IsReserved(JoinNesting(parts))
    ensures var path := PathOf("MACROSTRAT_" + JoinNesting(parts));
            |path| == |parts| && forall i :: 0 <= i < |parts| ==> InSmallLetters(path[i], parts[i])
  {
    forall i | 0 <= i < |parts| ensures NoDouble(parts[i]) && parts[i][|parts[i]| - 1] != '_' {
      assert forall c :: c in parts[i] ==> c != '_';
    }
    hide InSmallLetters, PathOf, IsReserved, NoDouble;
    var places := PathOfParts(parts);
    assert |places| == |parts|;
  }
}
