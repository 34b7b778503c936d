/** What a scan reads and what it skips, word by word. */
module ScanLaws {
  import opened Wrappers
  import opened Words
  import opened Lithologies

  ghost predicate NoSynonyms(v: Vocabulary) {
    v.lithSynonyms == [] && v.attSynonyms == []
  }

  // ---- the name a text starts with ----

  ghost predicate IsName(ws: seq<string>, targets: seq<Target>) {
    exists t :: t in targets && t.name == Join(ws)
  }

  /** No target listed before `t` has its name. */
  ghost predicate IsFirst(t: Target, targets: seq<Target>) {
    exists k :: 0 <= k < |targets| && targets[k] == t && forall j :: 0 <= j < k ==> targets[j].name != t.name
  }

  /** The first `n` words are the name of `t`, and no fewer of them are a name. */
  ghost predicate StartsWith(ws: seq<string>, targets: seq<Target>, t: Target, n: nat) {
    && 1 <= n <= |ws| && t.name == Join(ws[..n]) && IsFirst(t, targets)
    && forall m :: 1 <= m < n ==> !IsName(ws[..m], targets)
  }

  ghost predicate StartsWithNone(ws: seq<string>, targets: seq<Target>) {
    forall m :: 1 <= m <= |ws| ==> !IsName(ws[..m], targets)
  }

  /** Of the targets of a name the first is taken. */
  lemma {:induction false} MatchTakesFirst(name: string, targets: seq<Target>)
    ensures match MatchTarget(name, targets)
            case None => forall t :: t in targets ==> t.name != name
            case Some(t) => t.name == name && IsFirst(t, targets)
  {
    if targets != [] && targets[0].name != name {
      MatchTakesFirst(name, targets[1..]);
      var rest := MatchTarget(name, targets[1..]);
      if rest.Some? {
        var k :| 0 <= k < |targets[1..]| && targets[1..][k] == rest.value
                 && forall j :: 0 <= j < k ==> targets[1..][j].name != rest.value.name;
        assert targets[k + 1] == rest.value;
        assert forall j :: 1 <= j < k + 1 ==> targets[j] == targets[1..][j - 1];
      }
    }
  }

  lemma MatchIsFirst(name: string, targets: seq<Target>, t: Target)
    requires IsFirst(t, targets) && t.name == name
    ensures MatchTarget(name, targets) == Some(t)
  {
    MatchTakesFirst(name, targets);
  }

  lemma FirstIsListed(t: Target, targets: seq<Target>)
    requires IsFirst(t, targets)
    ensures t in targets
  {
  }

  /** A search takes the shortest leading name and leaves the other words, or finds none and leaves the text. */
  lemma {:induction false} FindExact(text: string, targets: seq<Target>) returns (n: nat)
    ensures var (found, rest) := Find(text, targets);
            var ws := Split(text);
            if found.Some? then n <= |ws| && StartsWith(ws, targets, found.value, n) && Split(rest) == ws[n..]
            else StartsWithNone(ws, targets) && rest == text
  {
    var ws := Split(text);
    n := ShortestMatch(ws, targets, 1);
    SplitGivesWords(text);
    hide Split, IsFirst, Join;
    forall m | 1 <= m < n ensures !IsName(ws[..m], targets) {
      MatchTakesFirst(Join(ws[..m]), targets);
    }
    if n <= |ws| {
      MatchTakesFirst(Join(ws[..n]), targets);
      SplitJoin(ws[n..]);
    }
  }

  // ---- the words of one pass ----

  /** A pass over `ws` that recognises `events`, the first of `n` words and the second of `m`, and leaves `left`. */
  ghost predicate Reads(v: Vocabulary, ws: seq<string>, events: seq<Event>, n: nat, m: nat, left: seq<string>) {
    match |events|
    case 0 => StartsWithNone(ws, v.liths) && StartsWithNone(ws, v.atts) && left == (if ws == [] then [] else ws[1..])
    case 1 =>
      && ReadsFirst(v, ws, events[0], n) && StartsWithNone(ws[n..], v.liths)
      && left == (if events[0].Lith? && n < |ws| then ws[n + 1..] else ws[n..])
    case 2 =>
      && ReadsFirst(v, ws, events[0], n)
      && events[1].Lith? && StartsWith(ws[n..], v.liths, events[1].lith, m) && left == ws[n + m..]
    case _ => false
  }

  /** A leading lithology goes before a leading attribute. */
  ghost predicate ReadsFirst(v: Vocabulary, ws: seq<string>, event: Event, n: nat) {
    && n <= |ws|
    && match event
       case Lith(t) => StartsWith(ws, v.liths, t, n)
       case Att(t) => StartsWithNone(ws, v.liths) && StartsWith(ws, v.atts, t, n)
  }

  /** Without synonyms, a pass reads a leading name, a lithology rather than an attribute, and then a lithology if one
      follows. It skips a word exactly when it read no attribute and no second lithology. */
  lemma {:induction false} PassReads(v: Vocabulary, text: string) returns (n: nat, m: nat)
    requires NoSynonyms(v)
    ensures Reads(v, Split(text), Pass(v, text).0, n, m, Split(Pass(v, text).1))
  {
    var ws := Split(text);
    assert forall t :: ReplaceSynonyms(t, []) == t;
    hide Split, Find, ReplaceSynonyms, StartsWith, StartsWithNone;
    n, m := 0, 0;
    n := FindExact(text, v.liths);
    var (first, rest1) := Find(text, v.liths);
    if first.Some? {
      m := AfterLithology(v, text, first.value, rest1, n);
    } else {
      n := FindExact(text, v.atts);
      var (att, rest2) := Find(text, v.atts);
      if att.Some? {
        m := AfterAttribute(v, text, att.value, rest2, n);
      } else {
        AfterNothing(v, text);
      }
    }
  }

  lemma SkippedWord(text: string)
    ensures Split(DropWord(text)) == if Split(text) == [] then [] else Split(text)[1..]
  {
    SplitGivesWords(text);
    SplitJoin(if Split(text) == [] then [] else Split(text)[1..]);
  }

  lemma StartIsInside(ws: seq<string>, targets: seq<Target>, t: Target, n: nat)
    requires StartsWith(ws, targets, t, n)
    ensures 1 <= n <= |ws|
  {
  }

  lemma AfterNothing(v: Vocabulary, text: string)
    requires NoSynonyms(v) && Find(text, v.liths) == (None, text) && Find(text, v.atts) == (None, text)
    ensures Pass(v, text).0 == []
    ensures Split(Pass(v, text).1) == if Split(text) == [] then [] else Split(text)[1..]
  {
    assert ReplaceSynonyms(text, []) == text;
    SkippedWord(text);
    SkippedWord(DropWord(text));
    hide Split, Find, ReplaceSynonyms, DropWord;
  }

  lemma ReadsOne(v: Vocabulary, ws: seq<string>, first: Event, n: nat, left: seq<string>)
    requires ReadsFirst(v, ws, first, n) && n <= |ws| && StartsWithNone(ws[n..], v.liths)
    requires left == if first.Lith? && n < |ws| then ws[n..][1..] else ws[n..]
    ensures Reads(v, ws, [first], n, 0, left)
  {
    hide ReadsFirst, StartsWithNone;
  }

  lemma ReadsTwo(v: Vocabulary, ws: seq<string>, first: Event, second: Target, n: nat, m: nat, left: seq<string>)
    requires ReadsFirst(v, ws, first, n) && n <= |ws| && StartsWith(ws[n..], v.liths, second, m) && m <= |ws[n..]|
    requires left == ws[n..][m..]
    ensures Reads(v, ws, [first, Lith(second)], n, m, left)
  {
    hide ReadsFirst, StartsWith;
    assert ws[n..][m..] == ws[n + m..];
  }

  lemma AfterLithology(v: Vocabulary, text: string, t: Target, rest: string, n: nat) returns (m: nat)
    requires NoSynonyms(v) && Find(text, v.liths) == (Some(t), rest)
    requires n <= |Split(text)| && StartsWith(Split(text), v.liths, t, n) && Split(rest) == Split(text)[n..]
    ensures Reads(v, Split(text), Pass(v, text).0, n, m, Split(Pass(v, text).1))
  {
    assert ReadsFirst(v, Split(text), Lith(t), n);
    hide *;
    m := FindExact(rest, v.liths);
    var (second, end) := Find(rest, v.liths);
    StartIsInside(Split(text), v.liths, t, n);
    SkippedWord(rest);
    if second.Some? {
      StartIsInside(Split(rest), v.liths, second.value, m);
      ReadsTwo(v, Split(text), Lith(t), second.value, n, m, Split(end));
    } else {
      ReadsOne(v, Split(text), Lith(t), n, Split(DropWord(rest)));
      m := 0;
    }
    PassOfLithology(v, text, t, rest, second, end);
  }

  lemma PassOfLithology(v: Vocabulary, text: string, t: Target, rest: string, second: Option<Target>, end: string)
    requires NoSynonyms(v) && Find(text, v.liths) == (Some(t), rest) && Find(rest, v.liths) == (second, end)
    requires second.None? ==> end == rest
    requires |Split(if second.Some? then end else DropWord(rest))| < |Split(text)|
    ensures Pass(v, text) ==
            if second.Some? then ([Lith(t), Lith(second.value)], end) else ([Lith(t)], DropWord(rest))
  {
    assert ReplaceSynonyms(text, []) == text && ReplaceSynonyms(rest, []) == rest;
    hide Split, Find, ReplaceSynonyms, DropWord;
    assert LithEvents(Some(t)) + AttEvents(None) + LithEvents(second) ==
           if second.Some? then [Lith(t), Lith(second.value)] else [Lith(t)];
  }

  lemma AfterAttribute(v: Vocabulary, text: string, t: Target, rest: string, n: nat) returns (m: nat)
    requires NoSynonyms(v) && Find(text, v.liths) == (None, text) && Find(text, v.atts) == (Some(t), rest)
    requires StartsWithNone(Split(text), v.liths)
    requires n <= |Split(text)| && StartsWith(Split(text), v.atts, t, n) && Split(rest) == Split(text)[n..]
    ensures Reads(v, Split(text), Pass(v, text).0, n, m, Split(Pass(v, text).1))
  {
    assert ReadsFirst(v, Split(text), Att(t), n);
    hide *;
    m := FindExact(rest, v.liths);
    var (second, end) := Find(rest, v.liths);
    StartIsInside(Split(text), v.atts, t, n);
    if second.Some? {
      StartIsInside(Split(rest), v.liths, second.value, m);
      ReadsTwo(v, Split(text), Att(t), second.value, n, m, Split(end));
    } else {
      ReadsOne(v, Split(text), Att(t), n, Split(rest));
      m := 0;
    }
    PassOfAttribute(v, text, t, rest, second, end);
  }

  lemma PassOfAttribute(v: Vocabulary, text: string, t: Target, rest: string, second: Option<Target>, end: string)
    requires NoSynonyms(v) && Find(text, v.liths) == (None, text) && Find(text, v.atts) == (Some(t), rest)
    requires Find(rest, v.liths) == (second, end) && (second.None? ==> end == rest) && |Split(end)| < |Split(text)|
    ensures Pass(v, text) == (if second.Some? then [Att(t), Lith(second.value)] else [Att(t)], end)
  {
    assert ReplaceSynonyms(text, []) == text && ReplaceSynonyms(rest, []) == rest;
    hide Split, Find, ReplaceSynonyms, DropWord;
    assert LithEvents(None) + AttEvents(Some(t)) + LithEvents(second) ==
           if second.Some? then [Att(t), Lith(second.value)] else [Att(t)];
  }

  /** The words of the names recognised. */
  function NameWords(events: seq<Event>): seq<string> {
    if events == [] then []
    else NameWords(events[..|events| - 1]) + Split(NameOf(events[|events| - 1]))
  }

  function NameOf(event: Event): string {
    match event case Att(t) => t.name case Lith(t) => t.name
  }

  /** The names read, the word skipped and the words left are the words of the text. At most one word is skipped: one
      exactly when nothing but a lone lithology was read, or nothing at all, and a word is there to skip. */
  lemma {:induction false} PassKeepsWords(v: Vocabulary, text: string) returns (skipped: seq<string>)
    requires NoSynonyms(v)
    ensures var (events, rest) := Pass(v, text);
            && NameWords(events) + skipped + Split(rest) == Split(text)
            && var lone := |events| == 1 && events[0].Lith?;
               |skipped| == if |NameWords(events)| < |Split(text)| && (events == [] || lone) then 1 else 0
  {
    hide *;
    var n, m := PassReads(v, text);
    var (events, rest) := Pass(v, text);
    var ws := Split(text);
    SplitGivesWords(text);
    ReadWords(v, ws, events, n, m, Split(rest));
    skipped := ws[|NameWords(events)|..|ws| - |Split(rest)|];
  }

  lemma NameIsWords(ws: seq<string>, targets: seq<Target>, t: Target, n: nat)
    requires AllWords(ws) && StartsWith(ws, targets, t, n)
    ensures Split(t.name) == ws[..n]
  {
    SplitJoin(ws[..n]);
  }

  lemma NamesOfTwo(first: Event, second: Event)
    ensures NameWords([]) == [] && NameWords([first]) == Split(NameOf(first))
    ensures NameWords([first, second]) == Split(NameOf(first)) + Split(NameOf(second))
  {
    hide Split, NameOf;
    assert [first][..0] == [] && [first, second][..1] == [first];
    assert NameWords([first]) == [] + Split(NameOf(first));
  }

  lemma WordsFrom(ws: seq<string>, n: nat)
    requires AllWords(ws) && n <= |ws|
    ensures AllWords(ws[n..])
  {
  }

  /** The first event, and the words of its name. */
  lemma FirstNameWords(v: Vocabulary, ws: seq<string>, first: Event, n: nat)
    requires AllWords(ws) && ReadsFirst(v, ws, first, n)
    ensures 1 <= n <= |ws| && Split(NameOf(first)) == ws[..n]
  {
    hide StartsWith, StartsWithNone, Split, AllWords;
    match first {
      case Att(t) =>
        StartIsInside(ws, v.atts, t, n);
        NameIsWords(ws, v.atts, t, n);
      case Lith(t) =>
        StartIsInside(ws, v.liths, t, n);
        NameIsWords(ws, v.liths, t, n);
    }
  }

  lemma SecondNameWords(v: Vocabulary, ws: seq<string>, second: Target, n: nat, m: nat)
    requires AllWords(ws) && n <= |ws| && StartsWith(ws[n..], v.liths, second, m)
    ensures n + m <= |ws| && ws[..n] + Split(second.name) == ws[..n + m]
  {
    StartIsInside(ws[n..], v.liths, second, m);
    WordsFrom(ws, n);
    hide Split, StartsWith, AllWords;
    NameIsWords(ws[n..], v.liths, second, m);
    assert ws[..n] + ws[n..][..m] == ws[..n + m];
  }

  lemma ReadWords(v: Vocabulary, ws: seq<string>, events: seq<Event>, n: nat, m: nat, left: seq<string>)
    requires AllWords(ws) && Reads(v, ws, events, n, m, left)
    ensures var read := |NameWords(events)|;
            var skipped := if read < |ws| && (events == [] || (|events| == 1 && events[0].Lith?)) then 1 else 0;
            && read + skipped <= |ws| && NameWords(events) == ws[..read] && left == ws[read + skipped..]
  {
    hide Split, NameWords, StartsWith, StartsWithNone, ReadsFirst, AllWords;
    if events == [] {
      NamesOfTwo(Att(Target("", 0)), Att(Target("", 0)));
    } else {
      var first := events[0];
      FirstNameWords(v, ws, first, n);
      NamesOfTwo(first, events[|events| - 1]);
      if |events| == 1 {
        assert events == [first];
      } else {
        assert events == [first, events[1]];
        SecondNameWords(v, ws, events[1].lith, n, m);
      }
    }
  }

  // ---- synonyms ----

  /** Lithologies are looked for with the synonyms of lithologies, attributes with those of attributes. */
  lemma {:induction false} SynonymsOfEachSearch(v: Vocabulary, text: string, t: Target, n: nat)
    ensures StartsWith(Split(ReplaceSynonyms(text, v.lithSynonyms)), v.liths, t, n) ==> [Lith(t)] <= Pass(v, text).0
    ensures && StartsWithNone(Split(ReplaceSynonyms(text, v.lithSynonyms)), v.liths)
            && StartsWith(Split(ReplaceSynonyms(text, v.attSynonyms)), v.atts, t, n)
            ==> [Att(t)] <= Pass(v, text).0
  {
    var forLith, forAtt := ReplaceSynonyms(text, v.lithSynonyms), ReplaceSynonyms(text, v.attSynonyms);
    var i := FindExact(forLith, v.liths);
    var j := FindExact(forAtt, v.atts);
    hide Split, Find, ReplaceSynonyms, DropWord, StartsWith, StartsWithNone;
    if StartsWith(Split(forLith), v.liths, t, n) {
      OneStart(Split(forLith), v.liths, t, n, Find(forLith, v.liths).0, i);
      if StartsWithNone(Split(forLith), v.liths) {
        NotBoth(Split(forLith), v.liths, t, n);
      }
    } else if StartsWithNone(Split(forLith), v.liths) && StartsWith(Split(forAtt), v.atts, t, n) {
      OneStart(Split(forAtt), v.atts, t, n, Find(forAtt, v.atts).0, j);
      if Find(forLith, v.liths).0.Some? {
        NotBoth(Split(forLith), v.liths, Find(forLith, v.liths).0.value, i);
      }
    }
  }

  /** Words start with one name at most. */
  lemma OneStart(ws: seq<string>, targets: seq<Target>, t: Target, n: nat, found: Option<Target>, m: nat)
    requires StartsWith(ws, targets, t, n)
    requires if found.Some? then StartsWith(ws, targets, found.value, m) else StartsWithNone(ws, targets)
    ensures found == Some(t)
  {
    FirstIsListed(t, targets);
    assert IsName(ws[..n], targets);
    if found.Some? {
      FirstIsListed(found.value, targets);
      assert IsName(ws[..m], targets);
      MatchIsFirst(t.name, targets, t);
      MatchIsFirst(t.name, targets, found.value);
    }
  }

  lemma NotBoth(ws: seq<string>, targets: seq<Target>, t: Target, n: nat)
    requires StartsWithNone(ws, targets)
    ensures !StartsWith(ws, targets, t, n)
  {
    if StartsWith(ws, targets, t, n) {
      FirstIsListed(t, targets);
      assert IsName(ws[..n], targets);
    }
  }

  /** The pairs of a table are its source terms, each with the canonical name it is listed under. */
  lemma {:induction false} PairsOfTable(table: SynonymTable, pair: Synonym)
    ensures pair in OrderSynonyms(table) <==>
            exists e :: e in table && pair.canonical == e.0 && pair.term in e.1
  {
    OrderedPairsAreOfTable(table);
    if table != [] {
      PairsOfTable(table[1..], pair);
      OrderedPairsAreOfTable(table[1..]);
      assert table == [table[0]] + table[1..];
      hide OrderSynonyms;
      if pair.canonical == table[0].0 && pair.term in table[0].1 {
        var i :| 0 <= i < |table[0].1| && table[0].1[i] == pair.term;
        assert Pairs(table[0].0, table[0].1)[i] == pair;
        assert table[0] in table;
      }
    }
  }

  /** The pair replaces one of these terms by the canonical name. */
  ghost predicate Replaces(pair: Synonym, canonical: string, terms: seq<string>) {
    pair.canonical == canonical && pair.term in terms
  }

  /** The synonyms of lithologies that every dataset gets. */
  lemma {:induction false} DefaultLithPairs(pair: Synonym)
    ensures pair in OrderSynonyms(DEFAULT_LITH_SYNONYMS) <==>
            || Replaces(pair, "volcanic", ["volcanics", "lava"]) || Replaces(pair, "metavolcanic", ["metavolcanics"])
            || Replaces(pair, "igneous", ["granitic"]) || Replaces(pair, "evaporite", ["gypsum-anhydrite"])
  {
    FourEntries(DEFAULT_LITH_SYNONYMS, pair);
    hide OrderSynonyms, Replaces;
  }

  /** The synonyms of attributes that every dataset gets. */
  lemma {:induction false} DefaultAttributePairs(pair: Synonym)
    ensures pair in OrderSynonyms(DEFAULT_ATTRIBUTE_SYNONYMS) <==>
            || Replaces(pair, "cross-bedded", ["cross-stratified", "cross bedded", "cross laminated"])
            || Replaces(pair, "regularly bedded", ["bedded"])
            || Replaces(pair, "fine", ["fine-grained", "fine grained"])
            || Replaces(pair, "coarse", ["coarse-grained", "coarse grained"])
  {
    FourEntries(DEFAULT_ATTRIBUTE_SYNONYMS, pair);
    hide OrderSynonyms, Replaces;
  }

  lemma FourEntries(table: SynonymTable, pair: Synonym)
    requires |table| == 4
    ensures pair in OrderSynonyms(table) <==>
            || Replaces(pair, table[0].0, table[0].1) || Replaces(pair, table[1].0, table[1].1)
            || Replaces(pair, table[2].0, table[2].1) || Replaces(pair, table[3].0, table[3].1)
  {
    PairsOfTable(table, pair);
    hide OrderSynonyms;
    if e :| e in table && pair.canonical == e.0 && pair.term in e.1 {
      var i :| 0 <= i < 4 && table[i] == e;
      assert Replaces(pair, table[i].0, table[i].1);
    }
    if i :| 0 <= i < 4 && Replaces(pair, table[i].0, table[i].1) {
      assert table[i] in table;
    }
  }

  /** The growth of a synonym is the most words that replacing it can add: no text gains more, and some text gains as
      many. */
  lemma {:induction false} GrowthIsMost(pair: Synonym)
    ensures forall rest :: |Split(pair.canonical + rest)| <= |Split(pair.term + rest)| + Growth(pair)
    ensures exists rest :: |Split(pair.canonical + rest)| == |Split(pair.term + rest)| + Growth(pair)
  {
    forall rest ensures |Split(pair.canonical + rest)| <= |Split(pair.term + rest)| + Growth(pair) {
      SplitConcat(pair.canonical, rest);
      SplitConcat(pair.term, rest);
    }
    var rest := if EndsInWord(pair.term) && !EndsInWord(pair.canonical) then "x" else "";
    SplitConcat(pair.canonical, rest);
    SplitConcat(pair.term, rest);
    assert |Split(pair.canonical + rest)| == |Split(pair.term + rest)| + Growth(pair);
  }

  // ---- a whole scan, when every name is one word ----

  ghost predicate OneWordNames(v: Vocabulary) {
    (forall t :: t in v.liths ==> IsWord(t.name)) && (forall t :: t in v.atts ==> IsWord(t.name))
  }

  /** What is recognised in `ws`: a lithology or else an attribute, then a lithology that follows it. The word after a
      lone lithology is skipped, whatever it is, and so is a word that is no name. */
  function WordEvents(v: Vocabulary, ws: seq<string>): seq<Event>
    decreases |ws|
  {
    if ws == [] then []
    else
      var lith, att := MatchTarget(ws[0], v.liths), MatchTarget(ws[0], v.atts);
      var second := if |ws| > 1 then MatchTarget(ws[1], v.liths) else None;
      if lith.None? && att.None? then WordEvents(v, ws[1..])
      else
        var first := if lith.Some? then Lith(lith.value) else Att(att.value);
        if second.Some? then [first, Lith(second.value)] + WordEvents(v, ws[2..])
        else [first] + WordEvents(v, if lith.Some? && |ws| > 1 then ws[2..] else ws[1..])
  }

  lemma NamedOnce(ws: seq<string>, targets: seq<Target>, t: Target, n: nat)
    requires AllWords(ws) && StartsWith(ws, targets, t, n) && IsWord(t.name)
    ensures n == 1 && MatchTarget(ws[0], targets) == Some(t)
  {
    OneWordOnly(ws[..n]);
    assert Join(ws[..1]) == ws[0];
    FirstIsListed(t, targets);
    assert IsName(ws[..1], targets);
    MatchIsFirst(ws[0], targets, t);
  }

  lemma NotNamed(ws: seq<string>, targets: seq<Target>)
    requires StartsWithNone(ws, targets) && ws != []
    ensures MatchTarget(ws[0], targets) == None
  {
    assert Join(ws[..1]) == ws[0];
    assert !IsName(ws[..1], targets);
  }

  lemma EventsOfPass(v: Vocabulary, text: string)
    requires NoSynonyms(v) && OneWordNames(v)
    ensures Pass(v, text).0 + WordEvents(v, Split(Pass(v, text).1)) == WordEvents(v, Split(text))
  {
    var n, m := PassReads(v, text);
    var (events, rest) := Pass(v, text);
    SplitGivesWords(text);
    hide Pass, Split;
    WordsOfPass(v, Split(text), events, n, m, Split(rest));
  }

  lemma WordsOfPass(v: Vocabulary, ws: seq<string>, events: seq<Event>, n: nat, m: nat, left: seq<string>)
    requires AllWords(ws) && OneWordNames(v) && Reads(v, ws, events, n, m, left)
    ensures events + WordEvents(v, left) == WordEvents(v, ws)
  {
    hide StartsWith, StartsWithNone, MatchTarget;
    if events == [] {
      if ws != [] {
        NotNamed(ws, v.liths);
        NotNamed(ws, v.atts);
      }
    } else {
      FirstWord(v, ws, events[0], n);
      if |events| == 2 {
        assert events == [events[0], events[1]];
        StartIsInside(ws[n..], v.liths, events[1].lith, m);
        LithIsWord(v, ws[n..], events[1].lith, m);
        NamedOnce(ws[n..], v.liths, events[1].lith, m);
      } else {
        assert events == [events[0]];
        if n < |ws| {
          NotNamed(ws[n..], v.liths);
        }
      }
    }
  }

  lemma LithIsWord(v: Vocabulary, ws: seq<string>, t: Target, n: nat)
    requires OneWordNames(v) && StartsWith(ws, v.liths, t, n)
    ensures IsWord(t.name)
  {
    FirstIsListed(t, v.liths);
  }

  lemma FirstWord(v: Vocabulary, ws: seq<string>, event: Event, n: nat)
    requires AllWords(ws) && OneWordNames(v) && ReadsFirst(v, ws, event, n)
    ensures n == 1 <= |ws|
    ensures event == match MatchTarget(ws[0], v.liths)
                     case Some(lith) => Lith(lith)
                     case None =>
                       if MatchTarget(ws[0], v.atts).Some? then Att(MatchTarget(ws[0], v.atts).value) else event
    ensures event.Att? ==> MatchTarget(ws[0], v.liths).None? && MatchTarget(ws[0], v.atts).Some?
    ensures event.Lith? ==> MatchTarget(ws[0], v.liths).Some?
  {
    match event {
      case Lith(t) =>
        LithIsWord(v, ws, t, n);
        NamedOnce(ws, v.liths, t, n);
      case Att(t) =>
        FirstIsListed(t, v.atts);
        NamedOnce(ws, v.atts, t, n);
        NotNamed(ws, v.liths);
    }
  }

  /** Without synonyms, and with names of one word each, a scan recognises what reading word by word does. */
  lemma {:induction false} WordScan(v: Vocabulary, text: string)
    requires NoSynonyms(v) && OneWordNames(v)
    ensures ScanEnds(v, text) && Events(v, text) == WordEvents(v, Split(text))
    decreases |Split(text)|, |text|
  {
    assert Bounded(v);
    BoundedEnds(v, text);
    EventsStep(v, text);
    if text != "" {
      PassShrinks(v, text);
      EventsOfPass(v, text);
      hide Pass, Split, ScanEnds;
      WordScan(v, Pass(v, text).1);
    }
  }

  // ---- attributes before and after a lithology ----

  function Names(targets: seq<Target>): seq<string> {
    seq(|targets|, i requires 0 <= i < |targets| => targets[i].name)
  }

  ghost function Among(targets: seq<Target>): set<Target> {
    set t | t in targets
  }

  /** One-word attributes that are no lithologies, without commas. */
  ghost predicate AreAttributes(v: Vocabulary, atts: seq<Target>) {
    forall i :: 0 <= i < |atts| ==>
      && IsFirst(atts[i], v.atts) && NoComma(atts[i].name)
      && forall t :: t in v.liths ==> t.name != atts[i].name
  }

  /** An attribute takes a lithology that follows with it, and leaves any other word. */
  lemma AttributeThen(v: Vocabulary, att: Target, ws: seq<string>)
    requires AreAttributes(v, [att])
    ensures WordEvents(v, [att.name] + ws) ==
            if ws != [] && MatchTarget(ws[0], v.liths).Some?
            then [Att(att), Lith(MatchTarget(ws[0], v.liths).value)] + WordEvents(v, ws[1..])
            else [Att(att)] + WordEvents(v, ws)
  {
    assert [att][0] == att;
    MatchIsFirst(att.name, v.atts, att);
    var all := [att.name] + ws;
    assert all[0] == att.name && all[1..] == ws && MatchTarget(all[0], v.liths) == None;
    assert ws != [] ==> all[1] == ws[0] && all[2..] == ws[1..];
    hide MatchTarget, AreAttributes, IsFirst;
  }

  lemma FirstAttribute(v: Vocabulary, atts: seq<Target>)
    requires AreAttributes(v, atts) && atts != []
    ensures AreAttributes(v, [atts[0]]) && AreAttributes(v, atts[1..]) && MatchTarget(atts[0].name, v.liths) == None
    ensures Names(atts) == [atts[0].name] + Names(atts[1..]) && AttsRead(atts) == [Att(atts[0])] + AttsRead(atts[1..])
  {
    hide IsFirst, NoComma;
  }

  lemma {:induction false} AttributesThenLithEvents(v: Vocabulary, atts: seq<Target>, lith: Target)
    requires AreAttributes(v, atts) && IsFirst(lith, v.liths)
    ensures WordEvents(v, Names(atts) + [lith.name]) == AttsRead(atts) + [Lith(lith)]
  {
    MatchIsFirst(lith.name, v.liths, lith);
    if atts == [] {
      LithologyAlone(v, lith);
    } else {
      hide WordEvents, MatchTarget, AreAttributes, IsFirst;
      var rest := atts[1..];
      var more := Names(rest) + [lith.name];
      FirstAttribute(v, atts);
      assert Names(atts) + [lith.name] == [atts[0].name] + more;
      AttributeThen(v, atts[0], more);
      if rest == [] {
        assert more == [lith.name] && WordEvents(v, more[1..]) == [] by { NoWords(v); }
      } else {
        FirstAttribute(v, rest);
        AttributesThenLithEvents(v, rest, lith);
      }
    }
  }

  lemma NoWords(v: Vocabulary)
    ensures WordEvents(v, []) == []
  {
  }

  lemma LithologyAlone(v: Vocabulary, lith: Target)
    requires MatchTarget(lith.name, v.liths) == Some(lith)
    ensures WordEvents(v, Names([]) + [lith.name]) == AttsRead([]) + [Lith(lith)]
  {
    assert Names([]) + [lith.name] == [lith.name] && [lith.name][1..] == [];
    NoWords(v);
  }

  // ---- commas ----

  function JoinCommas(parts: seq<string>): string {
    if parts == [] then "" else if |parts| == 1 then parts[0] else parts[0] + "," + JoinCommas(parts[1..])
  }

  /** Splitting at commas leaves parts without commas, which joined with commas are the text. */
  lemma {:induction false} SplitCommasJoins(s: string)
    ensures JoinCommas(SplitCommas(s)) == s && forall i :: 0 <= i < |SplitCommas(s)| ==> NoComma(SplitCommas(s)[i])
  {
    if s != "" {
      SplitCommasJoins(s[1..]);
      var rest := SplitCommas(s[1..]);
      assert s == [s[0]] + s[1..];
      assert SplitCommas(s) == if s[0] == ',' then [""] + rest else [[s[0]] + rest[0]] + rest[1..];
      hide SplitCommas, JoinCommas;
      if s[0] == ',' {
        CommaFirst(rest);
      } else {
        LongerFirst(s[0], rest);
      }
    }
  }

  lemma CommaFirst(parts: seq<string>)
    requires parts != []
    ensures JoinCommas([""] + parts) == "," + JoinCommas(parts)
  {
    assert ([""] + parts)[1..] == parts;
  }

  lemma LongerFirst(c: char, parts: seq<string>)
    requires parts != []
    ensures JoinCommas([[c] + parts[0]] + parts[1..]) == [c] + JoinCommas(parts)
  {
    assert ([[c] + parts[0]] + parts[1..])[1..] == parts[1..];
    assert |parts| > 1 ==>
        [c] + parts[0] + "," + JoinCommas(parts[1..]) == [c] + (parts[0] + "," + JoinCommas(parts[1..]));
  }

  /** Parts without commas, joined with commas, are split into the same parts. */
  lemma {:induction false} JoinedCommasSplit(parts: seq<string>)
    requires parts != [] && forall i :: 0 <= i < |parts| ==> NoComma(parts[i])
    ensures SplitCommas(JoinCommas(parts)) == parts
  {
    if |parts| == 1 {
      NoCommaIsOnePart(parts[0]);
    } else {
      JoinedCommasSplit(parts[1..]);
      PartThenComma(parts[0], JoinCommas(parts[1..]));
      assert parts == [parts[0]] + parts[1..];
      assert parts[0] + "," + JoinCommas(parts[1..]) == parts[0] + ("," + JoinCommas(parts[1..]));
    }
  }

  lemma {:induction false} PartThenComma(part: string, rest: string)
    requires NoComma(part)
    ensures SplitCommas(part + ("," + rest)) == [part] + SplitCommas(rest)
  {
    if part == "" {
      assert part + ("," + rest) == "," + rest && ("," + rest)[1..] == rest;
    } else {
      PartThenComma(part[1..], rest);
      assert (part + ("," + rest))[1..] == part[1..] + ("," + rest);
      assert [part[0]] + part[1..] == part;
    }
  }

  /** The entities of a domain are its parts between commas, stripped and then rewritten. */
  lemma {:induction false} EntitiesExactly(parts: seq<string>, rewrite: string -> string)
    requires parts != [] && forall i :: 0 <= i < |parts| ==> NoComma(parts[i])
    ensures var entities := Entities(JoinCommas(parts), rewrite);
            |entities| == |parts| && forall i :: 0 <= i < |parts| ==> entities[i] == rewrite(Trim(parts[i]))
  {
    JoinedCommasSplit(parts);
  }

  /** The words of some texts, in order. */
  function WordsOf(texts: seq<string>): seq<string> {
    if texts == [] then [] else WordsOf(texts[..|texts| - 1]) + Split(texts[|texts| - 1])
  }

  lemma {:induction false} WordsOfTrimmed(a: seq<string>, b: seq<string>)
    requires |a| == |b| && forall i :: 0 <= i < |a| ==> b[i] == Trim(a[i])
    ensures WordsOf(b) == WordsOf(a)
  {
    if a != [] {
      var n := |a| - 1;
      WordsOfTrimmed(a[..n], b[..n]);
      SplitTrim(a[n]);
    }
  }

  // ---- attributes reach the next lithology ----

  function AttsRead(atts: seq<Target>): seq<Event> {
    seq(|atts|, i requires 0 <= i < |atts| => Att(atts[i]))
  }

  lemma {:induction false} AttributesEvents(v: Vocabulary, atts: seq<Target>)
    requires AreAttributes(v, atts)
    ensures WordEvents(v, Names(atts)) == AttsRead(atts)
  {
    if atts == [] {
      NoWords(v);
    } else {
      hide WordEvents, MatchTarget, AreAttributes;
      FirstAttribute(v, atts);
      if atts[1..] != [] {
        FirstAttribute(v, atts[1..]);
      }
      AttributeThen(v, atts[0], Names(atts[1..]));
      AttributesEvents(v, atts[1..]);
    }
  }

  /** The words of the last text, and those of the texts before it. */
  lemma LastText(texts: seq<string>) returns (k: nat)
    requires texts != []
    ensures k <= |WordsOf(texts)|
    ensures WordsOf(texts[..|texts| - 1]) == WordsOf(texts)[..k] && Split(texts[|texts| - 1]) == WordsOf(texts)[k..]
  {
    k := |WordsOf(texts[..|texts| - 1])|;
  }

  lemma CutNames(atts: seq<Target>, k: nat)
    requires k <= |atts|
    ensures Names(atts)[..k] == Names(atts[..k]) && Names(atts)[k..] == Names(atts[k..])
    ensures AttsRead(atts[..k]) + AttsRead(atts[k..]) == AttsRead(atts)
  {
  }

  lemma DomainOneMore(v: Vocabulary, texts: seq<string>)
    requires NoSynonyms(v) && OneWordNames(v) && texts != []
    ensures var n := |texts| - 1;
            && AllScansEnd(v, texts) && AllScansEnd(v, texts[..n])
            && DomainEvents(v, texts) == DomainEvents(v, texts[..n]) + WordEvents(v, Split(texts[n]))
  {
    var n := |texts| - 1;
    AllEnd(v, texts);
    AllEnd(v, texts[..n]);
    WordScan(v, texts[n]);
    hide Events, WordEvents, ScanEnds, Split;
  }

  lemma NothingRead(v: Vocabulary)
    ensures AllScansEnd(v, []) && DomainEvents(v, []) == []
  {
  }

  lemma {:induction false} DomainAttributes(v: Vocabulary, texts: seq<string>, atts: seq<Target>)
    requires NoSynonyms(v) && OneWordNames(v) && AreAttributes(v, atts) && WordsOf(texts) == Names(atts)
    ensures AllScansEnd(v, texts) && DomainEvents(v, texts) == AttsRead(atts)
  {
    NothingRead(v);
    if texts == [] {
      assert WordsOf([]) == [] && AttsRead(atts) == [];
    } else {
      hide WordsOf, WordEvents, DomainEvents, AllScansEnd, Split;
      var n := |texts| - 1;
      var k := LastText(texts);
      CutNames(atts, k);
      DomainAttributes(v, texts[..n], atts[..k]);
      AttributesEvents(v, atts[k..]);
      DomainOneMore(v, texts);
    }
  }

  lemma AllEnd(v: Vocabulary, texts: seq<string>)
    requires NoSynonyms(v) && OneWordNames(v)
    ensures AllScansEnd(v, texts)
  {
    forall i | 0 <= i < |texts| ensures ScanEnds(v, texts[i]) {
      WordScan(v, texts[i]);
    }
  }

  lemma {:induction false} DomainLithology(v: Vocabulary, texts: seq<string>, atts: seq<Target>, lith: Target)
    requires NoSynonyms(v) && OneWordNames(v) && AreAttributes(v, atts) && IsFirst(lith, v.liths)
    requires WordsOf(texts) == Names(atts) + [lith.name]
    ensures AllScansEnd(v, texts) && DomainEvents(v, texts) == AttsRead(atts) + [Lith(lith)]
  {
    var n, ws := |texts| - 1, Names(atts) + [lith.name];
    assert texts != [] && WordEvents(v, []) == [];
    hide *;
    var k := LastText(texts);
    DomainOneMore(v, texts);
    if k == |ws| {
      DomainLithology(v, texts[..n], atts, lith);
    } else {
      LithologyIsLast(v, atts, lith, k);
      DomainAttributes(v, texts[..n], atts[..k]);
    }
  }

  lemma LithologyIsLast(v: Vocabulary, atts: seq<Target>, lith: Target, k: nat)
    requires AreAttributes(v, atts) && IsFirst(lith, v.liths) && k <= |atts|
    ensures var ws := Names(atts) + [lith.name];
            && ws[..k] == Names(atts[..k]) && AreAttributes(v, atts[..k])
            && AttsRead(atts[..k]) + WordEvents(v, ws[k..]) == AttsRead(atts) + [Lith(lith)]
  {
    var ws := Names(atts) + [lith.name];
    hide WordEvents, IsFirst, NoComma;
    CutNames(atts, k);
    assert ws[..k] == Names(atts)[..k] && ws[k..] == Names(atts)[k..] + [lith.name];
    AttributesThenLithEvents(v, atts[k..], lith);
    assert AttsRead(atts[..k]) + (AttsRead(atts[k..]) + [Lith(lith)]) == AttsRead(atts) + [Lith(lith)];
  }

  lemma {:induction false} WaitingAttributes(atts: seq<Target>)
    ensures Assign(AttsRead(atts)) == ([], Among(atts))
  {
    if atts == [] {
      assert AttsRead(atts) == [] && Among(atts) == {};
    } else {
      var n := |atts| - 1;
      WaitingAttributes(atts[..n]);
      hide Assign;
      assert atts == atts[..n] + [atts[n]] && AttsRead(atts) == AttsRead(atts[..n]) + [Att(atts[n])];
      AssignAppend(AttsRead(atts[..n]), Att(atts[n]));
      assert Among(atts) == Among(atts[..n]) + {atts[n]};
    }
  }

  /** One-word attributes and then a one-word lithology, with any spaces and commas between them, are that lithology
      with all of the attributes. */
  lemma {:induction false} AttributesReachLithology(v: Vocabulary, parts: seq<string>, atts: seq<Target>, lith: Target)
    requires NoSynonyms(v) && OneWordNames(v) && AreAttributes(v, atts) && IsFirst(lith, v.liths)
    requires (forall i :: 0 <= i < |parts| ==> NoComma(parts[i])) && WordsOf(parts) == Names(atts) + [lith.name]
    ensures var entities := Entities(JoinCommas(parts), Unchanged);
            && AllScansEnd(v, entities)
            && LithSet(DomainEvents(v, entities)) ==
               {Lithology(lith.name, lith.id, if atts == [] then None else Some(Among(atts)))}
  {
    var entities := Entities(JoinCommas(parts), Unchanged);
    JoinedCommasSplit(parts);
    WordsOfTrimmed(parts, entities);
    DomainLithology(v, entities, atts, lith);
    hide *;
    OneLithology(atts, lith);
  }

  lemma OneLithology(atts: seq<Target>, lith: Target)
    ensures LithSet(AttsRead(atts) + [Lith(lith)]) ==
            {Lithology(lith.name, lith.id, if atts == [] then None else Some(Among(atts)))}
  {
    WaitingAttributes(atts);
    hide Assign;
    LithSetAppend(AttsRead(atts), Lith(lith));
    assert LithSet(AttsRead(atts)) == {};
    if atts != [] {
      assert atts[0] in Among(atts);
    }
  }

  /** An attribute that follows a lithology is skipped, so a lithology after it is left without it. */
  lemma {:induction false} AttributeAfterLithologyIsSkipped(v: Vocabulary, first: Target, att: Target, second: Target)
    requires NoSynonyms(v) && OneWordNames(v) && AreAttributes(v, [att])
    requires IsFirst(first, v.liths) && IsFirst(second, v.liths)
    ensures var text := Join([first.name, att.name, second.name]);
            && ScanEnds(v, text) && Events(v, text) == [Lith(first), Lith(second)]
            && Assign(Events(v, text)).0 ==
               [Lithology(first.name, first.id, None), Lithology(second.name, second.id, None)]
  {
    var ws := [first.name, att.name, second.name];
    FirstIsListed(first, v.liths);
    FirstIsListed(second, v.liths);
    assert [att][0] == att;
    FirstIsListed(att, v.atts);
    assert AllWords(ws);
    SkippedAttribute(v, first, att, second);
    hide *;
    WordScan(v, Join(ws));
    SplitJoin(ws);
    TwoBare(first, second);
  }

  lemma SkippedAttribute(v: Vocabulary, first: Target, att: Target, second: Target)
    requires AreAttributes(v, [att]) && IsFirst(first, v.liths) && IsFirst(second, v.liths)
    ensures WordEvents(v, [first.name, att.name, second.name]) == [Lith(first), Lith(second)]
  {
    var ws := [first.name, att.name, second.name];
    MatchIsFirst(first.name, v.liths, first);
    MatchIsFirst(second.name, v.liths, second);
    assert [att][0] == att;
    assert ws[2..] == [second.name] && MatchTarget(ws[1], v.liths) == None;
    hide MatchTarget, IsFirst, NoComma, AreAttributes;
    assert WordEvents(v, []) == [] && [second.name][1..] == [];
    assert WordEvents(v, [second.name]) == [Lith(second)];
    assert WordEvents(v, ws) == [Lith(first)] + WordEvents(v, ws[2..]);
  }

  lemma TwoBare(first: Target, second: Target)
    ensures Assign([Lith(first), Lith(second)]).0 ==
            [Lithology(first.name, first.id, None), Lithology(second.name, second.id, None)]
  {
    AssignAppend([], Lith(first));
    AssignAppend([Lith(first)], Lith(second));
    assert [] + [Lith(first)] == [Lith(first)] && [Lith(first)] + [Lith(second)] == [Lith(first), Lith(second)];
  }
}
