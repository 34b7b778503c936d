/** Reading lithologies and their attributes out of free text, word by word. */
module Lithologies {
  import opened Wrappers
  import opened Words

  datatype Target = Target(name: string, id: int)
  datatype Lithology = Lithology(name: string, id: int, attributes: Option<set<Target>>)

  datatype Synonym = Synonym(term: string, canonical: string)

  /** Synonyms in the order they are tried. */
  type SynonymOrder = seq<Synonym>

  datatype Vocabulary = Vocabulary(
    liths: seq<Target>,
    atts: seq<Target>,
    lithSynonyms: SynonymOrder,
    attSynonyms: SynonymOrder)

  // ---- synonyms ----

  /** The first synonym the text starts with is replaced by its canonical name. */
  function ReplaceSynonyms(text: string, order: SynonymOrder): string {
    if order == [] then text
    else if order[0].term <= text then order[0].canonical + text[|order[0].term|..]
    else ReplaceSynonyms(text, order[1..])
  }

  /** A synonym table: canonical names in dict order, each with its source terms. */
  type SynonymTable = seq<(string, seq<string>)>

  function Pairs(canonical: string, synonyms: seq<string>): SynonymOrder {
    seq(|synonyms|, i requires 0 <= i < |synonyms| => Synonym(synonyms[i], canonical))
  }

  function TablePairs(table: SynonymTable): SynonymOrder {
    if table == [] then [] else Pairs(table[0].0, table[0].1) + TablePairs(table[1..])
  }

  function InsertByLength(pair: Synonym, order: SynonymOrder): SynonymOrder {
    if order == [] || |order[0].term| <= |pair.term| then [pair] + order
    else [order[0]] + InsertByLength(pair, order[1..])
  }

  function SortByLength(pairs: SynonymOrder): SynonymOrder {
    if pairs == [] then [] else InsertByLength(pairs[0], SortByLength(pairs[1..]))
  }

  /** All synonyms of a table, longest first; those of one length stay in table order. */
  function OrderSynonyms(table: SynonymTable): SynonymOrder {
    SortByLength(TablePairs(table))
  }

  ghost predicate LongestFirst(order: SynonymOrder) {
    forall i, j :: 0 <= i < j < |order| ==> |order[i].term| >= |order[j].term|
  }

  /** The pairs of one synonym, in order. */
  ghost function PairsFor(order: SynonymOrder, synonym: string): SynonymOrder {
    if order == [] then []
    else (if order[0].term == synonym then [order[0]] else []) + PairsFor(order[1..], synonym)
  }

  lemma {:induction false} InsertByLengthMembers(pair: Synonym, order: SynonymOrder)
    ensures forall p :: p in InsertByLength(pair, order) <==> p == pair || p in order
    ensures multiset(InsertByLength(pair, order)) == multiset(order) + multiset{pair}
  {
    if order != [] && |order[0].term| > |pair.term| {
      InsertByLengthMembers(pair, order[1..]);
      assert order == [order[0]] + order[1..];
    }
  }

  lemma {:induction false} InsertByLengthSorted(pair: Synonym, order: SynonymOrder)
    requires LongestFirst(order)
    ensures LongestFirst(InsertByLength(pair, order))
  {
    if order != [] && |order[0].term| > |pair.term| {
      InsertByLengthSorted(pair, order[1..]);
      InsertByLengthMembers(pair, order[1..]);
      var rest := InsertByLength(pair, order[1..]);
      forall j | 0 <= j < |rest| ensures |rest[j].term| <= |order[0].term| {
        assert rest[j] in rest;
      }
    }
  }

  lemma PairsForFirst(first: Synonym, rest: SynonymOrder, term: string)
    ensures PairsFor([first] + rest, term) == (if first.term == term then [first] else []) + PairsFor(rest, term)
  {
    assert ([first] + rest)[1..] == rest;
  }

  lemma {:induction false} InsertByLengthStable(pair: Synonym, order: SynonymOrder, term: string)
    ensures PairsFor(InsertByLength(pair, order), term)
         == (if pair.term == term then [pair] else []) + PairsFor(order, term)
  {
    if order == [] || |order[0].term| <= |pair.term| {
      assert InsertByLength(pair, order) == [pair] + order;
      PairsForFirst(pair, order, term);
    } else {
      var rest := InsertByLength(pair, order[1..]);
      assert InsertByLength(pair, order) == [order[0]] + rest;
      assert order == [order[0]] + order[1..];
      hide InsertByLength, PairsFor;
      InsertByLengthStable(pair, order[1..], term);
      PairsForFirst(order[0], rest, term);
      PairsForFirst(order[0], order[1..], term);
    }
  }

  /** Ordering synonyms sorts the table: same pairs, longest first, and the pairs of one synonym in table order. */
  lemma {:induction false} SortByLengthSorts(pairs: SynonymOrder)
    ensures LongestFirst(SortByLength(pairs))
    ensures multiset(SortByLength(pairs)) == multiset(pairs)
    ensures forall term :: PairsFor(SortByLength(pairs), term) == PairsFor(pairs, term)
  {
    if pairs != [] {
      var first, rest := pairs[0], pairs[1..];
      assert pairs == [first] + rest;
      assert SortByLength(pairs) == InsertByLength(first, SortByLength(rest));
      hide SortByLength, InsertByLength, PairsFor, LongestFirst;
      SortByLengthSorts(rest);
      InsertByLengthMembers(first, SortByLength(rest));
      InsertByLengthSorted(first, SortByLength(rest));
      forall term ensures PairsFor(SortByLength(pairs), term) == PairsFor(pairs, term) {
        InsertByLengthStable(first, SortByLength(rest), term);
        PairsForFirst(first, rest, term);
      }
    }
  }

  /** What is replaced is the longest synonym the text starts with, and nothing when it starts with none. */
  lemma {:induction false} LongestSynonymReplaced(text: string, order: SynonymOrder) returns (k: nat)
    requires LongestFirst(order)
    ensures k <= |order|
    ensures k == |order| ==>
              ReplaceSynonyms(text, order) == text && forall i :: 0 <= i < |order| ==> !(order[i].term <= text)
    ensures k < |order| ==>
              && order[k].term <= text
              && ReplaceSynonyms(text, order) == order[k].canonical + text[|order[k].term|..]
              && forall i :: 0 <= i < |order| && order[i].term <= text ==> |order[i].term| <= |order[k].term|
  {
    if order == [] || order[0].term <= text {
      k := 0;
    } else {
      var rest := LongestSynonymReplaced(text, order[1..]);
      k := rest + 1;
      assert forall i :: 1 <= i < |order| ==> order[i] == order[1..][i - 1];
    }
  }

  /** How many words replacing a synonym can add: one more when only the synonym can run on into the next word. */
  function Growth(pair: Synonym): int {
    |Split(pair.canonical)| - |Split(pair.term)| + if EndsInWord(pair.term) && !EndsInWord(pair.canonical) then 1 else 0
  }

  function MaxGrowth(order: SynonymOrder): (g: nat) {
    if order == [] then 0
    else
      var g := MaxGrowth(order[1..]);
      if Growth(order[0]) > g then Growth(order[0]) else g
  }

  lemma {:induction false} ReplaceAddsAtMost(text: string, order: SynonymOrder)
    ensures |Split(ReplaceSynonyms(text, order))| <= |Split(text)| + MaxGrowth(order)
  {
    if order != [] {
      if order[0].term <= text {
        var rest := text[|order[0].term|..];
        assert text == order[0].term + rest;
        SplitConcat(order[0].term, rest);
        SplitConcat(order[0].canonical, rest);
      } else {
        ReplaceAddsAtMost(text, order[1..]);
      }
    }
  }

  // ---- matching ----

  function MatchTarget(name: string, targets: seq<Target>): (r: Option<Target>)
    ensures r.Some? ==> r.value in targets && r.value.name == name
    ensures r.None? ==> forall t :: t in targets ==> t.name != name
  {
    if targets == [] then None
    else if targets[0].name == name then Some(targets[0])
    else MatchTarget(name, targets[1..])
  }

  /** The number of words of the shortest prefix of at least `k` words that is a name, or one more than there are. */
  function ShortestMatch(ws: seq<string>, targets: seq<Target>, k: nat): (n: nat)
    requires k <= |ws| + 1
    ensures k <= n <= |ws| + 1
    ensures n <= |ws| ==> MatchTarget(Join(ws[..n]), targets).Some?
    ensures forall j :: k <= j < n ==> MatchTarget(Join(ws[..j]), targets).None?
    decreases |ws| + 1 - k
  {
    if k > |ws| then k
    else if MatchTarget(Join(ws[..k]), targets).Some? then k
    else ShortestMatch(ws, targets, k + 1)
  }

  function Find(text: string, targets: seq<Target>): (Option<Target>, string) {
    var ws := Split(text);
    var n := ShortestMatch(ws, targets, 1);
    if n <= |ws| then (MatchTarget(Join(ws[..n]), targets), Join(ws[n..])) else (None, text)
  }

  /** Consume words one by one until the words consumed are the name of a target. */
  method FindTarget(text: string, targets: seq<Target>) returns (found: Option<Target>, rest: string)
    ensures (found, rest) == Find(text, targets)
  {
    var words := Split(text);
    var remaining, consumed := words, [];
    ghost var shortest := ShortestMatch(words, targets, 1);
    while remaining != []
      invariant |consumed| <= |words| && consumed == words[..|consumed|] && remaining == words[|consumed|..]
      invariant |consumed| < shortest
      decreases |remaining|
    {
      consumed, remaining := consumed + [remaining[0]], remaining[1..];
      assert consumed == words[..|consumed|];
      var match0 := MatchTarget(Join(consumed), targets);
      if match0.Some? {
        return match0, Join(remaining);
      }
    }
    return None, text;
  }

  /** A match is a name made of `n` leading words, no fewer of them are a name, and the other words remain. */
  lemma FindTakesShortestPrefix(text: string, targets: seq<Target>) returns (n: nat)
    ensures var (found, rest) := Find(text, targets);
            var ws := Split(text);
            && 1 <= n <= |ws| + 1
            && (forall m, t :: 1 <= m < n && t in targets ==> t.name != Join(ws[..m]))
            && (n == |ws| + 1 ==> found == None && rest == text)
            && (n <= |ws| ==>
                  && found.Some? && found.value in targets && found.value.name == Join(ws[..n])
                  && Split(found.value.name) + Split(rest) == ws)
  {
    var ws := Split(text);
    n := ShortestMatch(ws, targets, 1);
    SplitGivesWords(text);
    if n <= |ws| {
      SplitJoin(ws[..n]);
      SplitJoin(ws[n..]);
      assert ws[..n] + ws[n..] == ws;
    }
  }

  lemma FindConsumes(text: string, targets: seq<Target>)
    ensures var (found, rest) := Find(text, targets);
            if found.Some? then |Split(rest)| < |Split(text)| else rest == text
  {
    var ws := Split(text);
    var n := ShortestMatch(ws, targets, 1);
    SplitGivesWords(text);
    if n <= |ws| {
      SplitJoin(ws[n..]);
    }
  }

  function FindLith(v: Vocabulary, text: string): (Option<Target>, string) {
    Find(ReplaceSynonyms(text, v.lithSynonyms), v.liths)
  }

  function FindAttribute(v: Vocabulary, text: string): (Option<Target>, string) {
    Find(ReplaceSynonyms(text, v.attSynonyms), v.atts)
  }

  // ---- one pass of the scanner ----

  datatype Event = Att(att: Target) | Lith(lith: Target)

  function DropWord(text: string): string {
    var ws := Split(text);
    Join(if ws == [] then [] else ws[1..])
  }

  function LithEvents(found: Option<Target>): seq<Event> {
    if found.Some? then [Lith(found.value)] else []
  }

  function AttEvents(found: Option<Target>): seq<Event> {
    if found.Some? then [Att(found.value)] else []
  }

  /** What one pass recognises, and the text it leaves for the next. */
  function Pass(v: Vocabulary, text: string): (seq<Event>, string) {
    var (first, rest1) := FindLith(v, text);
    var (att, rest2) := if first.Some? then (None, rest1) else FindAttribute(v, text);
    var (second, rest3) := FindLith(v, rest2);
    var rest4 := if second.None? && att.None? then DropWord(rest3) else rest3;
    var rest5 := if |Split(rest4)| >= |Split(text)| then DropWord(rest4) else rest4;
    (LithEvents(first) + AttEvents(att) + LithEvents(second), rest5)
  }

  lemma DropWordDrops(text: string)
    ensures |Split(DropWord(text))| == if Split(text) == [] then 0 else |Split(text)| - 1
    ensures |Split(text)| <= 1 ==> DropWord(text) == ""
  {
    SplitGivesWords(text);
    if Split(text) != [] {
      SplitJoin(Split(text)[1..]);
    }
  }

  lemma FindLithGrows(v: Vocabulary, text: string)
    ensures var (found, rest) := FindLith(v, text);
            |Split(rest)| <= |Split(text)| + MaxGrowth(v.lithSynonyms) - if found.Some? then 1 else 0
  {
    ReplaceAddsAtMost(text, v.lithSynonyms);
    FindConsumes(ReplaceSynonyms(text, v.lithSynonyms), v.liths);
  }

  lemma FindAttributeGrows(v: Vocabulary, text: string)
    ensures var (found, rest) := FindAttribute(v, text);
            |Split(rest)| <= |Split(text)| + MaxGrowth(v.attSynonyms) - if found.Some? then 1 else 0
  {
    ReplaceAddsAtMost(text, v.attSynonyms);
    FindConsumes(ReplaceSynonyms(text, v.attSynonyms), v.atts);
  }

  /** Synonyms of the two tables together add at most one word. */
  predicate Bounded(v: Vocabulary) {
    MaxGrowth(v.attSynonyms) + MaxGrowth(v.lithSynonyms) <= 1
  }

  /** Each pass over a text leaves fewer words, and ends a text that has none. */
  lemma PassShrinks(v: Vocabulary, text: string)
    requires Bounded(v)
    ensures var rest := Pass(v, text).1;
            |Split(rest)| < |Split(text)| || (|Split(text)| == 0 && rest == "")
  {
    var (first, rest1) := FindLith(v, text);
    FindLithGrows(v, text);
    var (att, rest2) := if first.Some? then (None, rest1) else FindAttribute(v, text);
    FindAttributeGrows(v, text);
    var (second, rest3) := FindLith(v, rest2);
    FindLithGrows(v, rest2);
    DropWordDrops(rest3);
    var rest4 := if second.None? && att.None? then DropWord(rest3) else rest3;
    DropWordDrops(rest4);
  }

  // ---- when a scan ends ----

  /** The text left after `n` passes. */
  function Passes(v: Vocabulary, text: string, n: nat): string
    decreases n
  {
    if n == 0 then text else Passes(v, Pass(v, text).1, n - 1)
  }

  /** Some number of passes uses the text up, so the scan of it ends. */
  ghost predicate ScanEnds(v: Vocabulary, text: string) {
    exists n: nat :: Passes(v, text, n) == ""
  }

  /** The least number of passes that uses the text up. */
  ghost function PassesNeeded(v: Vocabulary, text: string): (n: nat)
    requires ScanEnds(v, text)
    ensures Passes(v, text, n) == "" && forall m: nat :: m < n ==> Passes(v, text, m) != ""
  {
    var n: nat :| Passes(v, text, n) == "";
    FewestPasses(v, text, n)
  }

  ghost function FewestPasses(v: Vocabulary, text: string, n: nat): (m: nat)
    requires Passes(v, text, n) == ""
    ensures Passes(v, text, m) == "" && forall k: nat :: k < m ==> Passes(v, text, k) != ""
    decreases n
  {
    if k: nat :| k < n && Passes(v, text, k) == "" then FewestPasses(v, text, k) else n
  }

  /** A pass over a text whose scan ends is one of the passes needed. */
  lemma PassIsNeeded(v: Vocabulary, text: string)
    requires ScanEnds(v, text) && text != ""
    ensures ScanEnds(v, Pass(v, text).1) && PassesNeeded(v, Pass(v, text).1) < PassesNeeded(v, text)
  {
    hide Pass;
    var n := PassesNeeded(v, text);
    assert n > 0 && Passes(v, Pass(v, text).1, n - 1) == "";
  }

  /** Within the bound, every scan ends. */
  lemma {:induction false} BoundedEnds(v: Vocabulary, text: string)
    requires Bounded(v)
    ensures ScanEnds(v, text)
    decreases |Split(text)|
  {
    hide Pass, Bounded, Split;
    if text == "" {
      assert Passes(v, text, 0) == "";
    } else {
      PassShrinks(v, text);
      var rest := Pass(v, text).1;
      if rest == "" {
        assert Passes(v, rest, 0) == "";
      } else {
        BoundedEnds(v, rest);
      }
      var n: nat :| Passes(v, rest, n) == "";
      assert Passes(v, text, n + 1) == "";
    }
  }

  // ---- a whole domain ----

  /** Everything the passes over a text recognise, in order. */
  function Events(v: Vocabulary, text: string): seq<Event>
    requires ScanEnds(v, text)
    decreases PassesNeeded(v, text)
  {
    if text == "" then []
    else
      PassIsNeeded(v, text);
      var (events, rest) := Pass(v, text);
      events + Events(v, rest)
  }

  ghost predicate AllScansEnd(v: Vocabulary, texts: seq<string>) {
    forall i :: 0 <= i < |texts| ==> ScanEnds(v, texts[i])
  }

  /** The events of the comma-separated entities of a domain, one entity after another. */
  function DomainEvents(v: Vocabulary, entities: seq<string>): seq<Event>
    requires AllScansEnd(v, entities)
  {
    if entities == [] then []
    else DomainEvents(v, entities[..|entities| - 1]) + Events(v, entities[|entities| - 1])
  }

  function WithAttributes(lith: Target, atts: set<Target>): Lithology {
    Lithology(lith.name, lith.id, if atts == {} then None else Some(atts))
  }

  /** The lithologies found so far, each with the attributes waiting when it was found, and those waiting now. */
  function Assign(events: seq<Event>): (seq<Lithology>, set<Target>) {
    if events == [] then ([], {})
    else
      var (liths, waiting) := Assign(events[..|events| - 1]);
      match events[|events| - 1]
      case Att(att) => (liths, waiting + {att})
      case Lith(lith) => (liths + [WithAttributes(lith, waiting)], {})
  }

  lemma {:induction false} AssignAppend(a: seq<Event>, event: Event)
    ensures Assign(a + [event]) ==
            match event
            case Att(att) => (Assign(a).0, Assign(a).1 + {att})
            case Lith(lith) => (Assign(a).0 + [WithAttributes(lith, Assign(a).1)], {})
  {
    assert (a + [event])[..|a|] == a;
  }

  /** The attributes recognised since the last lithology before position `p`. */
  ghost function Waiting(events: seq<Event>, p: nat): set<Target>
    requires p <= |events|
  {
    set q | 0 <= q < p && events[q].Att? && (forall r :: q < r < p ==> events[r].Att?) :: events[q].att
  }

  ghost function LithsBefore(events: seq<Event>, p: nat): nat
    requires p <= |events|
  {
    if p == 0 then 0 else LithsBefore(events, p - 1) + if events[p - 1].Lith? then 1 else 0
  }

  lemma {:induction false} WaitingNow(events: seq<Event>)
    ensures Assign(events).1 == Waiting(events, |events|) && |Assign(events).0| == LithsBefore(events, |events|)
  {
    if events != [] {
      var n := |events| - 1;
      WaitingNow(events[..n]);
      LithsBeforePrefix(events, n, n);
      assert Waiting(events[..n], n) == Waiting(events, n) by {
        assert forall q :: 0 <= q < n ==> events[..n][q] == events[q];
      }
      if events[n].Att? {
        assert Waiting(events, n + 1) == Waiting(events, n) + {events[n].att};
      }
    }
  }

  lemma {:induction false} LithsBeforePrefix(events: seq<Event>, n: nat, p: nat)
    requires p <= n <= |events|
    ensures LithsBefore(events[..n], p) == LithsBefore(events, p)
  {
    if p > 0 { LithsBeforePrefix(events, n, p - 1); }
  }

  /** A lithology gets exactly the attributes recognised since the lithology before it; an attribute never
      goes back to an earlier one, and goes to no second one. */
  lemma {:induction false} AttributesGoToNextLithology(events: seq<Event>, p: nat)
    requires p < |events| && events[p].Lith?
    ensures LithsBefore(events, p) < |Assign(events).0|
    ensures var found, atts := Assign(events).0[LithsBefore(events, p)], Waiting(events, p);
            && found.name == events[p].lith.name && found.id == events[p].lith.id
            && found.attributes == if atts == {} then None else Some(atts)
  {
    var n := |events| - 1;
    LithsBeforePrefix(events, n, p);
    if p < n {
      AttributesGoToNextLithology(events[..n], p);
      assert Waiting(events[..n], p) == Waiting(events, p) by {
        assert forall q :: 0 <= q < p ==> events[..n][q] == events[q];
      }
    } else {
      WaitingNow(events[..n]);
      assert Waiting(events[..n], n) == Waiting(events, n) by {
        assert forall q :: 0 <= q < n ==> events[..n][q] == events[q];
      }
    }
  }

  /** The lithology at each place is the one found after as many others. */
  lemma {:induction false} FoundAt(events: seq<Event>, k: nat) returns (p: nat)
    requires k < |Assign(events).0|
    ensures p < |events| && events[p].Lith? && LithsBefore(events, p) == k
  {
    var n := |events| - 1;
    WaitingNow(events[..n]);
    LithsBeforePrefix(events, n, n);
    if events[n].Lith? && k == |Assign(events[..n]).0| {
      p := n;
    } else {
      p := FoundAt(events[..n], k);
      LithsBeforePrefix(events, n, p);
    }
  }

  /** All lithologies carry the same attributes exactly when the same attributes are waiting at every one. */
  lemma {:induction false} SameAttributesExactly(events: seq<Event>)
    ensures var liths := Assign(events).0;
            (forall i, j :: 0 <= i < |liths| && 0 <= j < |liths| ==> liths[i].attributes == liths[j].attributes) <==>
            (forall p, q :: 0 <= p < |events| && 0 <= q < |events| && events[p].Lith? && events[q].Lith? ==>
               Waiting(events, p) == Waiting(events, q))
  {
    var liths := Assign(events).0;
    hide Assign, Waiting, LithsBefore;
    if forall i, j :: 0 <= i < |liths| && 0 <= j < |liths| ==> liths[i].attributes == liths[j].attributes {
      forall p, q | 0 <= p < |events| && 0 <= q < |events| && events[p].Lith? && events[q].Lith?
        ensures Waiting(events, p) == Waiting(events, q)
      {
        AttributesGoToNextLithology(events, p);
        AttributesGoToNextLithology(events, q);
      }
    }
    if forall p, q :: 0 <= p < |events| && 0 <= q < |events| && events[p].Lith? && events[q].Lith? ==>
        Waiting(events, p) == Waiting(events, q)
    {
      forall i, j | 0 <= i < |liths| && 0 <= j < |liths| ensures liths[i].attributes == liths[j].attributes {
        var p := FoundAt(events, i);
        var q := FoundAt(events, j);
        AttributesGoToNextLithology(events, p);
        AttributesGoToNextLithology(events, q);
      }
    }
  }

  /** `split(",")`: always at least one part. */
  function SplitCommas(s: string): (parts: seq<string>)
    ensures parts != []
  {
    if s == "" then [""]
    else
      var parts := SplitCommas(s[1..]);
      if s[0] == ',' then [""] + parts else [[s[0]] + parts[0]] + parts[1..]
  }

  /** The entities of a domain: its comma-separated parts, stripped and rewritten. */
  function Entities(text: string, rewrite: string -> string): seq<string> {
    var parts := SplitCommas(text);
    seq(|parts|, i requires 0 <= i < |parts| => rewrite(Trim(parts[i])))
  }

  ghost function LithSet(events: seq<Event>): set<Lithology> {
    set l | l in Assign(events).0
  }

  lemma LithSetAppend(events: seq<Event>, event: Event)
    ensures LithSet(events + [event]) ==
            match event
            case Att(att) => LithSet(events)
            case Lith(lith) => LithSet(events) + {WithAttributes(lith, Assign(events).1)}
  {
    AssignAppend(events, event);
  }

  /** The scanner's sets hold what `events` amount to. */
  ghost predicate Holds(liths: set<Lithology>, atts: set<Target>, events: seq<Event>) {
    liths == LithSet(events) && atts == Assign(events).1
  }

  lemma HoldsAfter(liths: set<Lithology>, atts: set<Target>, events: seq<Event>, event: Event)
    requires Holds(liths, atts, events)
    ensures match event
            case Att(att) => Holds(liths, atts + {att}, events + [event])
            case Lith(lith) => Holds(liths + {WithAttributes(lith, atts)}, {}, events + [event])
  {
    LithSetAppend(events, event);
    AssignAppend(events, event);
  }

  /** One pass: look for a lithology, else for an attribute; then for a lithology; and consume a word in any case. */
  method RunPass(v: Vocabulary, text: string, liths0: set<Lithology>, atts0: set<Target>, ghost events: seq<Event>)
    returns (liths: set<Lithology>, atts: set<Target>, rest: string)
    requires Holds(liths0, atts0, events)
    ensures rest == Pass(v, text).1
    ensures Holds(liths, atts, events + Pass(v, text).0)
  {
    hide Holds, Find, ReplaceSynonyms, Split, DropWord, WithAttributes;
    liths, atts := liths0, atts0;
    ghost var seen := events;
    var before := |Split(text)|;
    var att: Option<Target> := None;
    var lith;
    lith, rest := FindTarget(ReplaceSynonyms(text, v.lithSynonyms), v.liths);
    if lith.Some? {
      HoldsAfter(liths, atts, seen, Lith(lith.value));
      liths, atts, seen := liths + {WithAttributes(lith.value, atts)}, {}, seen + [Lith(lith.value)];
    } else {
      att, rest := FindTarget(ReplaceSynonyms(text, v.attSynonyms), v.atts);
      if att.Some? {
        HoldsAfter(liths, atts, seen, Att(att.value));
        atts, seen := atts + {att.value}, seen + [Att(att.value)];
      }
    }
    assert seen == events + LithEvents(lith) + AttEvents(att);
    lith, rest := FindTarget(ReplaceSynonyms(rest, v.lithSynonyms), v.liths);
    if lith.None? && att.None? {
      rest := DropWord(rest);
    } else if lith.Some? {
      HoldsAfter(liths, atts, seen, Lith(lith.value));
      liths, atts, seen := liths + {WithAttributes(lith.value, atts)}, {}, seen + [Lith(lith.value)];
    }
    if |Split(rest)| >= before {
      rest := DropWord(rest);
    }
    assert seen == events + Pass(v, text).0;
  }

  /** Scan every entity of a domain. Attributes wait across commas for the next lithology. */
  method ProcessDomain(v: Vocabulary, text: string, rewrite: string -> string) returns (liths: set<Lithology>)
    requires AllScansEnd(v, Entities(text, rewrite))
    ensures liths == LithSet(DomainEvents(v, Entities(text, rewrite)))
  {
    hide Pass, Assign, LithSet, ScanEnds;
    liths := {};
    var atts: set<Target> := {};
    NothingHolds();
    var entities := Entities(text, rewrite);
    ghost var seen: seq<Event> := [];
    for e := 0 to |entities|
      invariant seen == DomainEvents(v, entities[..e])
      invariant Holds(liths, atts, seen)
    {
      var remaining := entities[e];
      assert entities[..e + 1][..e] == entities[..e];
      while remaining != ""
        invariant ScanEnds(v, remaining)
        invariant seen + Events(v, remaining) == DomainEvents(v, entities[..e + 1])
        invariant Holds(liths, atts, seen)
        decreases PassesNeeded(v, remaining)
      {
        PassIsNeeded(v, remaining);
        ghost var text := remaining;
        liths, atts, remaining := RunPass(v, remaining, liths, atts, seen);
        seen := seen + Pass(v, text).0;
      }
    }
    assert entities[..|entities|] == entities;
  }

  lemma NothingHolds()
    ensures Holds({}, {}, [])
  {
  }

  // ---- two lithologies after one attribute ----

  lemma FindFirstWord(ws: seq<string>, targets: seq<Target>)
    requires AllWords(ws) && ws != [] && MatchTarget(ws[0], targets).Some?
    ensures Find(Join(ws), targets) == (MatchTarget(ws[0], targets), Join(ws[1..]))
  {
    SplitJoin(ws);
    assert Join(ws[..1]) == ws[0];
  }

  lemma FindNoWord(ws: seq<string>, targets: seq<Target>)
    requires AllWords(ws)
    requires forall t :: t in targets ==> IsWord(t.name) && (ws != [] ==> t.name != ws[0])
    ensures Find(Join(ws), targets) == (None, Join(ws))
  {
    SplitJoin(ws);
    var n := ShortestMatch(ws, targets, 1);
    if n <= |ws| {
      OneWordOnly(ws[..n]);
      assert false;
    }
  }

  lemma OneWordOnly(ws: seq<string>)
    requires ws != []
    ensures IsWord(Join(ws)) ==> Join(ws) == ws[0]
  {
    if |ws| > 1 {
      assert Join(ws) == ws[0] + " " + Join(ws[1..]);
      assert Join(ws)[|ws[0]|] == ' ';
    }
  }

  /** The vocabulary of one attribute and two lithologies, each of one word. */
  ghost predicate Plain(v: Vocabulary, att: Target, first: Target, second: Target) {
    && v == Vocabulary([first, second], [att], [], [])
    && AllWords([att.name, first.name, second.name])
    && NoComma(att.name) && NoComma(first.name) && NoComma(second.name)
    && att.name != first.name && att.name != second.name && first.name != second.name
  }

  lemma PlainFinds(v: Vocabulary, att: Target, first: Target, second: Target)
    requires Plain(v, att, first, second)
    ensures var text, rest := Join([att.name, first.name, second.name]), Join([first.name, second.name]);
            && FindLith(v, text) == (None, text) && FindAttribute(v, text) == (Some(att), rest)
            && FindLith(v, rest) == (Some(first), second.name)
            && FindLith(v, second.name) == (Some(second), "")
            && FindLith(v, "") == (None, "")
  {
    var ws := [att.name, first.name, second.name];
    assert IsWord(ws[0]) && IsWord(ws[1]) && IsWord(ws[2]);
    assert ws[1..] == [ws[1], ws[2]] && ws[1..][1..] == ws[2..] == [ws[2]] && ws[2..][1..] == [];
    hide IsWord, Find;
    FindNoWord(ws, v.liths);
    FindFirstWord(ws, v.atts);
    FindFirstWord(ws[1..], v.liths);
    FindFirstWord(ws[2..], v.liths);
    FindNoWord([], v.liths);
  }

  lemma PlainCounts(v: Vocabulary, att: Target, first: Target, second: Target)
    requires Plain(v, att, first, second)
    ensures |Split(Join([att.name, first.name, second.name]))| == 3 && |Split(second.name)| == 1
  {
    var ws := [att.name, first.name, second.name];
    assert IsWord(ws[0]) && IsWord(ws[1]) && IsWord(ws[2]);
    SplitJoin(ws);
    SplitJoin([ws[2]]);
  }

  /** A pass that finds an attribute, and then a lithology. */
  lemma AttributeThenLith(v: Vocabulary, text: string, att: Target, rest: string, lith: Target, end: string)
    requires FindLith(v, text) == (None, text) && FindAttribute(v, text) == (Some(att), rest)
    requires FindLith(v, rest) == (Some(lith), end) && |Split(end)| < |Split(text)|
    ensures Pass(v, text) == ([Att(att), Lith(lith)], end)
  {
    hide FindLith, FindAttribute, Split, DropWord;
    assert LithEvents(None) + AttEvents(Some(att)) + LithEvents(Some(lith)) == [Att(att), Lith(lith)];
  }

  /** A pass that finds a lithology, and then nothing in no text. */
  lemma LithThenNothing(v: Vocabulary, text: string, lith: Target)
    requires FindLith(v, text) == (Some(lith), "") && FindLith(v, "") == (None, "") && Split(text) != []
    ensures Pass(v, text) == ([Lith(lith)], "")
  {
    assert Split("") == [];
    DropWordDrops("");
    hide FindLith, FindAttribute, Split, DropWord;
    assert LithEvents(Some(lith)) + AttEvents(None) + LithEvents(None) == [Lith(lith)];
  }

  lemma PlainPasses(v: Vocabulary, att: Target, first: Target, second: Target)
    requires Plain(v, att, first, second)
    ensures Pass(v, Join([att.name, first.name, second.name])) == ([Att(att), Lith(first)], second.name)
    ensures Pass(v, second.name) == ([Lith(second)], "")
  {
    hide Plain, Pass, FindLith, FindAttribute, Split, Join, DropWord;
    PlainFinds(v, att, first, second);
    PlainCounts(v, att, first, second);
    var text, rest := Join([att.name, first.name, second.name]), Join([first.name, second.name]);
    AttributeThenLith(v, text, att, rest, first, second.name);
    LithThenNothing(v, second.name, second);
  }

  ghost predicate NoComma(s: string) {
    forall i :: 0 <= i < |s| ==> s[i] != ','
  }

  lemma {:induction false} NoCommaIsOnePart(s: string)
    requires NoComma(s)
    ensures SplitCommas(s) == [s]
  {
    if s != "" {
      NoCommaIsOnePart(s[1..]);
      assert [s[0]] + s[1..] == s;
    }
  }

  /** A dataset without rewrites. */
  function Unchanged(entity: string): string {
    entity
  }

  lemma PlainIsOneEntity(v: Vocabulary, att: Target, first: Target, second: Target)
    requires Plain(v, att, first, second)
    ensures var text := Join([att.name, first.name, second.name]); Entities(text, Unchanged) == [text]
  {
    var ws := [att.name, first.name, second.name];
    TrimJoin(ws);
    assert ws[1..] == [first.name, second.name] && [first.name, second.name][1..] == [second.name];
    assert Join([first.name, second.name]) == first.name + " " + second.name;
    assert Join(ws) == att.name + " " + (first.name + " " + second.name);
    assert NoComma(Join(ws));
    hide Join, Trim, IsWord, NoComma;
    NoCommaIsOnePart(Join(ws));
    assert |Entities(Join(ws), Unchanged)| == 1 && Entities(Join(ws), Unchanged)[0] == Join(ws);
  }

  /** The second of two lithologies after an attribute is left without it. */
  lemma {:induction false} SecondLithologyHasNoAttributes(v: Vocabulary, att: Target, first: Target, second: Target)
    requires Plain(v, att, first, second)
    ensures var entities := Entities(Join([att.name, first.name, second.name]), Unchanged);
            && AllScansEnd(v, entities)
            && LithSet(DomainEvents(v, entities)) ==
               {Lithology(first.name, first.id, Some({att})), Lithology(second.name, second.id, None)}
  {
    var text := Join([att.name, first.name, second.name]);
    assert Bounded(v);
    PlainIsOneEntity(v, att, first, second);
    hide Bounded, Plain, Events, LithSet, Join, ScanEnds, Entities;
    BoundedEnds(v, text);
    BoundedEnds(v, second.name);
    BoundedEnds(v, "");
    PlainEvents(v, att, first, second);
    TwoLithologies(att, first, second);
    OneEntity(v, text);
  }

  lemma OneEntity(v: Vocabulary, text: string)
    requires ScanEnds(v, text)
    ensures AllScansEnd(v, [text]) && DomainEvents(v, [text]) == Events(v, text)
  {
    hide Events, ScanEnds;
    assert [text][..0] == [] && DomainEvents(v, []) == [];
    assert [] + Events(v, text) == Events(v, text);
  }

  lemma PlainEvents(v: Vocabulary, att: Target, first: Target, second: Target)
    requires Plain(v, att, first, second)
    requires ScanEnds(v, Join([att.name, first.name, second.name])) && ScanEnds(v, second.name) && ScanEnds(v, "")
    ensures Events(v, Join([att.name, first.name, second.name])) == [Att(att), Lith(first), Lith(second)]
  {
    var text := Join([att.name, first.name, second.name]);
    PlainPasses(v, att, first, second);
    TrimJoin([att.name, first.name, second.name]);
    assert IsWord(second.name) by {
      assert [att.name, first.name, second.name][2] == second.name;
    }
    hide Pass, Join, IsWord, AllWords, Events, ScanEnds;
    EventsStep(v, second.name);
    EventsStep(v, text);
    EventsStep(v, "");
  }

  lemma EventsStep(v: Vocabulary, text: string)
    requires ScanEnds(v, text)
    ensures text == "" ==> Events(v, text) == []
    ensures text != "" ==>
              ScanEnds(v, Pass(v, text).1) && Events(v, text) == Pass(v, text).0 + Events(v, Pass(v, text).1)
  {
    hide Pass;
    if text != "" {
      PassIsNeeded(v, text);
    }
  }

  lemma TwoLithologies(att: Target, first: Target, second: Target)
    ensures LithSet([Att(att), Lith(first), Lith(second)]) ==
            {Lithology(first.name, first.id, Some({att})), Lithology(second.name, second.id, None)}
  {
    AssignAppend([], Att(att));
    AssignAppend([Att(att)], Lith(first));
    AssignAppend([Att(att), Lith(first)], Lith(second));
    assert [] + [Att(att)] == [Att(att)];
    assert [Att(att)] + [Lith(first)] == [Att(att), Lith(first)];
    assert [Att(att), Lith(first)] + [Lith(second)] == [Att(att), Lith(first), Lith(second)];
    assert {} + {att} == {att};
    assert Assign([]).0 == [] && Assign([]).1 == {};
    hide Assign;
    var found := [WithAttributes(first, {att}), WithAttributes(second, {})];
    assert Assign([Att(att), Lith(first), Lith(second)]).0 == found;
    assert forall l :: l in found <==> l == found[0] || l == found[1];
  }

  // ---- the bound on synonyms ----

  const DEFAULT_LITH_SYNONYMS: SynonymTable := [
    ("volcanic", ["volcanics", "lava"]),
    ("metavolcanic", ["metavolcanics"]),
    ("igneous", ["granitic"]),
    ("evaporite", ["gypsum-anhydrite"])]

  const DEFAULT_ATTRIBUTE_SYNONYMS: SynonymTable := [
    ("cross-bedded", ["cross-stratified", "cross bedded", "cross laminated"]),
    ("regularly bedded", ["bedded"]),
    ("fine", ["fine-grained", "fine grained"]),
    ("coarse", ["coarse-grained", "coarse grained"])]

  lemma {:induction false} GrowthOfAll(order: SynonymOrder, g: nat)
    requires forall p :: p in order ==> Growth(p) <= g
    ensures MaxGrowth(order) <= g
  {
    if order != [] {
      assert forall p :: p in order[1..] ==> p in order;
      GrowthOfAll(order[1..], g);
    }
  }

  lemma OneWord(w: string)
    requires IsWord(w)
    ensures |Split(w)| == 1 && EndsInWord(w)
  {
    SplitWordThenSpace(w, "");
    assert w + "" == w;
  }

  lemma TwoWords(a: string, b: string)
    requires IsWord(a) && IsWord(b)
    ensures |Split(a + " " + b)| == 2 && EndsInWord(a + " " + b)
  {
    OneWord(a);
    OneWord(b);
    SplitConcat(a + " ", b);
    SplitConcat(a, " ");
  }

  lemma OrderedPairsAreOfTable(table: SynonymTable)
    ensures forall p :: p in OrderSynonyms(table) <==> p in TablePairs(table)
  {
    SortByLengthSorts(TablePairs(table));
    assert forall p :: p in OrderSynonyms(table) <==> p in multiset(OrderSynonyms(table));
  }

  /** The tables every dataset gets satisfy the bound: only `bedded`, as `regularly bedded`, adds a word. */
  lemma {:induction false} DefaultSynonymsAreBounded(liths: seq<Target>, atts: seq<Target>)
    ensures Bounded(Vocabulary(liths, atts,
                               OrderSynonyms(DEFAULT_LITH_SYNONYMS), OrderSynonyms(DEFAULT_ATTRIBUTE_SYNONYMS)))
  {
    OrderedPairsAreOfTable(DEFAULT_LITH_SYNONYMS);
    OrderedPairsAreOfTable(DEFAULT_ATTRIBUTE_SYNONYMS);
    DefaultLithGrowth();
    DefaultAttributeGrowth();
    GrowthOfAll(OrderSynonyms(DEFAULT_LITH_SYNONYMS), 0);
    GrowthOfAll(OrderSynonyms(DEFAULT_ATTRIBUTE_SYNONYMS), 1);
  }

  lemma {:induction false} TablePairsGrowth(table: SynonymTable, g: int)
    requires forall e, s :: e in table && s in e.1 ==> Growth(Synonym(s, e.0)) <= g
    ensures forall p :: p in TablePairs(table) ==> Growth(p) <= g
  {
    if table != [] {
      assert table[0] in table && forall e :: e in table[1..] ==> e in table;
      TablePairsGrowth(table[1..], g);
    }
  }

  lemma WordForWord(term: string, canonical: string)
    requires IsWord(term) && IsWord(canonical)
    ensures Growth(Synonym(term, canonical)) == 0
  {
    OneWord(term);
    OneWord(canonical);
  }

  lemma WordForTwo(a: string, b: string, canonical: string)
    requires IsWord(a) && IsWord(b) && IsWord(canonical)
    ensures Growth(Synonym(a + " " + b, canonical)) == -1
    ensures Growth(Synonym(canonical, a + " " + b)) == 1
  {
    OneWord(canonical);
    TwoWords(a, b);
  }

  lemma DefaultLithGrowth()
    ensures forall p :: p in TablePairs(DEFAULT_LITH_SYNONYMS) ==> Growth(p) <= 0
  {
    hide Growth, TablePairs;
    VolcanicGrowth();
    OtherLithGrowth();
    TablePairsGrowth(DEFAULT_LITH_SYNONYMS, 0);
  }

  lemma VolcanicGrowth()
    ensures Growth(Synonym("volcanics", "volcanic")) == 0 && Growth(Synonym("lava", "volcanic")) == 0
    ensures Growth(Synonym("metavolcanics", "metavolcanic")) == 0
  {
    hide Growth;
    WordForWord("volcanics", "volcanic");
    WordForWord("lava", "volcanic");
    WordForWord("metavolcanics", "metavolcanic");
  }

  lemma OtherLithGrowth()
    ensures Growth(Synonym("granitic", "igneous")) == 0 && Growth(Synonym("gypsum-anhydrite", "evaporite")) == 0
  {
    hide Growth;
    WordForWord("granitic", "igneous");
    WordForWord("gypsum-anhydrite", "evaporite");
  }

  lemma CrossBeddedGrowth()
    ensures Growth(Synonym("cross-stratified", "cross-bedded")) <= 0
    ensures Growth(Synonym("cross bedded", "cross-bedded")) <= 0
    ensures Growth(Synonym("cross laminated", "cross-bedded")) <= 0
  {
    hide Growth;
    WordForWord("cross-stratified", "cross-bedded");
    WordForTwo("cross", "bedded", "cross-bedded");
    WordForTwo("cross", "laminated", "cross-bedded");
    assert "cross" + " " + "bedded" == "cross bedded" && "cross" + " " + "laminated" == "cross laminated";
  }

  lemma BeddedGrowth()
    ensures Growth(Synonym("bedded", "regularly bedded")) == 1
  {
    hide Growth;
    WordForTwo("regularly", "bedded", "bedded");
    assert "regularly" + " " + "bedded" == "regularly bedded";
  }

  lemma GrainedGrowth()
    ensures Growth(Synonym("fine-grained", "fine")) <= 0 && Growth(Synonym("fine grained", "fine")) <= 0
    ensures Growth(Synonym("coarse-grained", "coarse")) <= 0 && Growth(Synonym("coarse grained", "coarse")) <= 0
  {
    hide Growth;
    WordForWord("fine-grained", "fine");
    WordForTwo("fine", "grained", "fine");
    WordForWord("coarse-grained", "coarse");
    WordForTwo("coarse", "grained", "coarse");
    assert "fine" + " " + "grained" == "fine grained" && "coarse" + " " + "grained" == "coarse grained";
  }

  lemma DefaultAttributeGrowth()
    ensures forall p :: p in TablePairs(DEFAULT_ATTRIBUTE_SYNONYMS) ==> Growth(p) <= 1
  {
    hide Growth, TablePairs;
    CrossBeddedGrowth();
    BeddedGrowth();
    GrainedGrowth();
    TablePairsGrowth(DEFAULT_ATTRIBUTE_SYNONYMS, 1);
  }

  /** `x`, then `n` more of it. */
  function Repeat(n: nat): string {
    if n == 0 then "x" else "x " + Repeat(n - 1)
  }

  lemma {:induction false} RepeatedWords(k: nat, tail: string)
    requires tail == "" || tail == "q"
    ensures |Split(Repeat(k) + tail)| == k + 1
    ensures Join(Split(Repeat(k) + tail)) == Repeat(k) + tail
    ensures k > 0 ==> DropWord(Repeat(k) + tail) == Repeat(k - 1) + tail
  {
    if k == 0 {
      SplitWordThenSpace("x" + tail, "");
      assert "x" + tail + "" == "x" + tail == Repeat(0) + tail;
    } else {
      RepeatedWords(k - 1, tail);
      RepeatedStep(k, tail);
    }
  }

  lemma RepeatedStep(k: nat, tail: string)
    requires k > 0
    ensures Split(Repeat(k) + tail) == ["x"] + Split(Repeat(k - 1) + tail)
    ensures Repeat(k) + tail == "x" + " " + (Repeat(k - 1) + tail)
  {
    var rest := Repeat(k - 1) + tail;
    assert Repeat(k) + tail == "x" + (" " + rest);
    hide Repeat;
    assert (" " + rest)[1..] == rest && Split(" " + rest) == Split(rest);
    hide Split;
    SplitWordThenSpace("x", " " + rest);
  }

  lemma {:induction false} RepeatEndsInWord(k: nat)
    ensures EndsInWord(Repeat(k)) && "x" <= Repeat(k)
  {
    if k > 0 {
      RepeatEndsInWord(k - 1);
    }
  }

  /** The vocabulary with no names at all, and one synonym `x` in each table. */
  function Runaway(attGrowth: nat, lithGrowth: nat): Vocabulary {
    Vocabulary([], [], [Synonym("x", Repeat(lithGrowth))], [Synonym("x", Repeat(attGrowth))])
  }

  lemma ReplacementRepeats(k: nat, g: nat)
    ensures ReplaceSynonyms(Repeat(k) + "q", [Synonym("x", Repeat(g))]) == Repeat(k + g) + "q"
  {
    RepeatEndsInWord(k);
    Prepended(k, g);
  }

  lemma {:induction false} Prepended(k: nat, g: nat)
    ensures "x" <= Repeat(k)
    ensures Repeat(g) + (Repeat(k) + "q")[1..] == Repeat(k + g) + "q"
  {
    if g > 0 {
      Prepended(k, g - 1);
      assert Repeat(g) + (Repeat(k) + "q")[1..] == "x " + (Repeat(g - 1) + (Repeat(k) + "q")[1..]);
    }
  }

  lemma FindNothing(text: string)
    ensures Find(text, []) == (None, text)
  {
  }

  lemma RunawayPass(a: nat, l: nat, k: nat)
    requires a + l >= 2
    ensures Pass(Runaway(a, l), Repeat(k) + "q").1 == Repeat(k + a + l - 2) + "q"
  {
    hide Split, ReplaceSynonyms, Find, DropWord, Repeat;
    ReplacementRepeats(k, l);
    ReplacementRepeats(k, a);
    ReplacementRepeats(k + a, l);
    FindNothing(Repeat(k + l) + "q");
    FindNothing(Repeat(k + a) + "q");
    FindNothing(Repeat(k + a + l) + "q");
    RepeatedWords(k, "q");
    RepeatedWords(k + a + l, "q");
    RepeatedWords(k + a + l - 1, "q");
  }

  /** The bound cannot be relaxed: whatever two growths add up to two or more, some tables with exactly these
      growths keep a scan of `xq` going for ever. */
  lemma {:induction false} LargerGrowthNeverEnds(a: nat, l: nat, k: nat, n: nat)
    requires a + l >= 2
    ensures MaxGrowth(Runaway(a, l).attSynonyms) == a && MaxGrowth(Runaway(a, l).lithSynonyms) == l
    ensures Passes(Runaway(a, l), Repeat(k) + "q", n) != ""
    decreases n
  {
    hide Pass, MaxGrowth, Repeat;
    RunawayGrowth(a);
    RunawayGrowth(l);
    if n > 0 {
      RunawayPass(a, l, k);
      LargerGrowthNeverEnds(a, l, k + a + l - 2, n - 1);
    }
  }

  /** Synonyms whose attribute growth and lithology growth are these. */
  predicate Grows(v: Vocabulary, a: nat, l: nat) {
    MaxGrowth(v.attSynonyms) == a && MaxGrowth(v.lithSynonyms) == l
  }

  /** Growths guarantee that every scan ends exactly when they add up to at most one. */
  lemma {:induction false} GrowthsGuaranteeEnds(a: nat, l: nat)
    ensures (forall v, text :: Grows(v, a, l) ==> ScanEnds(v, text)) <==> a + l <= 1
  {
    hide ScanEnds, MaxGrowth;
    if a + l <= 1 {
      forall v, text | Grows(v, a, l) ensures ScanEnds(v, text) {
        BoundedEnds(v, text);
      }
    } else {
      RunawayNeverEnds(a, l);
    }
  }

  lemma RunawayNeverEnds(a: nat, l: nat)
    requires a + l >= 2
    ensures Grows(Runaway(a, l), a, l) && !ScanEnds(Runaway(a, l), Repeat(0) + "q")
  {
    hide Passes, MaxGrowth, Repeat;
    LargerGrowthNeverEnds(a, l, 0, 0);
    forall n: nat ensures Passes(Runaway(a, l), Repeat(0) + "q", n) != "" {
      LargerGrowthNeverEnds(a, l, 0, n);
    }
  }

  lemma RunawayGrowth(g: nat)
    ensures MaxGrowth([Synonym("x", Repeat(g))]) == g
  {
    RepeatedWords(g, "");
    RepeatEndsInWord(g);
    assert Repeat(g) + "" == Repeat(g);
    OneWord("x");
  }
}
