/** The values a database row holds, and the settings a reconciliation is called with. */
module Rows {
  datatype Value = Null | Number(n: real) | Text(s: string)
  type Column = string
  type Row = map<Column, Value>
  datatype Key = Key(parts: seq<Value>)
  type Id = int

  /** A row read from a table: its id, and its other columns. */
  datatype Stored = Stored(id: Id, row: Row)

  ghost predicate DistinctIds(rows: seq<Stored>) {
    forall i, j :: 0 <= i < j < |rows| ==> rows[i].id != rows[j].id
  }

  /** `dict.get`: a column the row does not carry reads as null. */
  function Get(row: Row, c: Column): Value {
    if c in row then row[c] else Null
  }

  /** `dict.get` on a dict of lists. */
  function Lookup<K, V>(lists: map<K, seq<V>>, k: K): seq<V> {
    if k in lists then lists[k] else []
  }

  /** The natural key as a list of column names. */
  function KeyColumns(columns: seq<Column>): Row -> Key {
    (row: Row) => Key(seq(|columns|, i requires 0 <= i < |columns| => Get(row, columns[i])))
  }

  /** Writing owned columns never moves the key. */
  ghost predicate KeyIgnores(key: Row -> Key, owned: seq<Column>) {
    forall row: Row, values: Row {:trigger row + values} :: values.Keys == (set c | c in owned) ==>
      key(row + values) == key(row)
  }

  /** What the caller of a reconciliation supplies. */
  datatype Spec = Spec(key: Row -> Key, owned: seq<Column>, quantize: (Column, Value) -> Value)

  /** How a table stores what it is sent: rounding per column, and the defaults of absent columns. */
  datatype Storage = Storage(round: (Column, Value) -> Value, defaults: Row)
}

/** Planning: which stored row each desired row keeps, and what has to be written. */
module Planning {
  import opened Occurrences
  import opened Wrappers
  import opened Rows

  datatype Plan = Plan(
    updates: seq<(Id, Row)>,
    inserts: seq<Row>,
    deletes: seq<Id>,
    kept: seq<Id>,
    matched: seq<Option<Id>>)
  {
    predicate IsNoop() {
      updates == [] && inserts == [] && deletes == []
    }
  }

  const EMPTY_PLAN := Plan([], [], [], [], [])

  function StoredKeys(existing: seq<Stored>, key: Row -> Key): seq<Key> {
    seq(|existing|, i requires 0 <= i < |existing| => key(existing[i].row))
  }

  function DesiredKeys(desired: seq<Row>, key: Row -> Key): seq<Key> {
    seq(|desired|, i requires 0 <= i < |desired| => key(desired[i]))
  }

  /** The stored rows of key `k`, in the order read. */
  function RowsOfKey(existing: seq<Stored>, key: Row -> Key, k: Key): seq<Stored> {
    if existing == [] then []
    else
      var n := |existing| - 1;
      RowsOfKey(existing[..n], key, k) + if key(existing[n].row) == k then [existing[n]] else []
  }

  /** The stored row of the same key and the same rank as the i-th desired row, if there is one. */
  function Partner(existing: seq<Stored>, desired: seq<Row>, key: Row -> Key, i: nat): Option<Stored>
    requires i < |desired|
  {
    var rank := Rank(DesiredKeys(desired, key), i);
    var rows := RowsOfKey(existing, key, key(desired[i]));
    if rank < |rows| then Some(rows[rank]) else None
  }

  function Partners(existing: seq<Stored>, desired: seq<Row>, key: Row -> Key): seq<Option<Stored>> {
    seq(|desired|, i requires 0 <= i < |desired| => Partner(existing, desired, key, i))
  }

  /** The owned columns of a row at the precision the database keeps. */
  function OwnedValues(row: Row, spec: Spec): Row {
    map c | c in spec.owned :: spec.quantize(c, Get(row, c))
  }

  predicate Changed(current: Row, row: Row, spec: Spec) {
    exists c :: c in spec.owned && spec.quantize(c, Get(row, c)) != spec.quantize(c, Get(current, c))
  }

  /** The plan without its deletes, one pair at a time. */
  function Decide(partners: seq<Option<Stored>>, desired: seq<Row>, spec: Spec): Plan
    requires |partners| == |desired|
  {
    if partners == [] then EMPTY_PLAN
    else
      var n := |partners| - 1;
      Extended(Decide(partners[..n], desired[..n], spec), partners[n], desired[n], spec)
  }

  /** The plan with one more pair decided. */
  function Extended(plan: Plan, partner: Option<Stored>, row: Row, spec: Spec): Plan {
    match partner
    case None => plan.(matched := plan.matched + [None], inserts := plan.inserts + [row])
    case Some(current) =>
      var plan := plan.(matched := plan.matched + [Some(current.id)]);
      if Changed(current.row, row, spec)
      then plan.(updates := plan.updates + [(current.id, OwnedValues(row, spec))])
      else plan.(kept := plan.kept + [current.id])
  }

  function Ids(rows: seq<Stored>): seq<Id> {
    seq(|rows|, j requires 0 <= j < |rows| => rows[j].id)
  }

  /** What is left of a queue of `rows` after `n` rows were asked of it. */
  function After(rows: seq<Stored>, n: nat): seq<Stored> {
    if n <= |rows| then rows[n..] else []
  }

  /** Key by key, the stored rows beyond as many as are desired. */
  function Surplus(existing: seq<Stored>, dks: seq<Key>, key: Row -> Key, order: seq<Key>): seq<Stored> {
    if order == [] then []
    else
      var k := order[|order| - 1];
      Surplus(existing, dks, key, order[..|order| - 1]) + After(RowsOfKey(existing, key, k), Count(dks, k))
  }

  /** The whole plan: key and rank pair the rows, and unpaired stored rows are deleted. */
  function PlanOf(existing: seq<Stored>, desired: seq<Row>, spec: Spec): Plan {
    Decide(Partners(existing, desired, spec.key), desired, spec)
    .(deletes := Ids(Surplus(existing, DesiredKeys(desired, spec.key), spec.key,
                             Distinct(StoredKeys(existing, spec.key)))))
  }

  // ---- the queues of the planner ----

  /** The queues hold, per key, the stored rows of that key less the first `taken` for it. */
  ghost predicate Queued(queues: map<Key, seq<Stored>>, existing: seq<Stored>, taken: seq<Key>, key: Row -> Key) {
    forall k :: Lookup(queues, k) == After(RowsOfKey(existing, key, k), Count(taken, k))
  }

  lemma QueuedStep(queues: map<Key, seq<Stored>>, existing: seq<Stored>, i: nat, key: Row -> Key)
    requires i < |existing| && Queued(queues, existing[..i], [], key)
    ensures var k := key(existing[i].row);
            Queued(queues[k := Lookup(queues, k) + [existing[i]]], existing[..i + 1], [], key)
  {
    var k := key(existing[i].row);
    var next := queues[k := Lookup(queues, k) + [existing[i]]];
    assert existing[..i + 1] == existing[..i] + [existing[i]];
    forall k' ensures Lookup(next, k') == After(RowsOfKey(existing[..i + 1], key, k'), Count([], k')) {
      assert existing[..i + 1][..i] == existing[..i];
      assert Lookup(queues, k') == RowsOfKey(existing[..i], key, k');
    }
  }

  lemma KeyOrderStep(existing: seq<Stored>, i: nat, key: Row -> Key)
    requires i < |existing|
    ensures var order, k := Distinct(StoredKeys(existing[..i], key)), key(existing[i].row);
            Distinct(StoredKeys(existing[..i + 1], key)) == if k in order then order else order + [k]
  {
    assert StoredKeys(existing[..i + 1], key)[..i] == StoredKeys(existing[..i], key);
  }

  /** One queue of stored rows per key, and the keys in the order a dict holds them. */
  method QueuesByKey(existing: seq<Stored>, key: Row -> Key)
    returns (queues: map<Key, seq<Stored>>, order: seq<Key>)
    ensures Queued(queues, existing, [], key)
    ensures forall k :: k in queues <==> k in order
    ensures order == Distinct(StoredKeys(existing, key))
  {
    queues, order := map[], [];
    var i := 0;
    while i < |existing|
      invariant i <= |existing|
      invariant Queued(queues, existing[..i], [], key)
      invariant forall k :: k in queues <==> k in order
      invariant order == Distinct(StoredKeys(existing[..i], key))
    {
      var k := key(existing[i].row);
      QueuedStep(queues, existing, i, key);
      KeyOrderStep(existing, i, key);
      if k in queues {
        queues := queues[k := queues[k] + [existing[i]]];
      } else {
        queues := queues[k := [] + [existing[i]]];
        order := order + [k];
      }
      i := i + 1;
    }
    assert existing[..i] == existing;
  }

  /** Taking the front of a queue is what asking for one more row of its key means. */
  lemma TakenStep(queues: map<Key, seq<Stored>>, existing: seq<Stored>, taken: seq<Key>, key: Row -> Key, k: Key)
    requires Queued(queues, existing, taken, key)
    ensures Lookup(queues, k) != [] ==> Queued(queues[k := Lookup(queues, k)[1..]], existing, taken + [k], key)
    ensures Lookup(queues, k) == [] ==> Queued(queues, existing, taken + [k], key)
  {
    var next := if Lookup(queues, k) != [] then queues[k := Lookup(queues, k)[1..]] else queues;
    forall k' ensures Lookup(next, k') == After(RowsOfKey(existing, key, k'), Count(taken + [k], k')) {
      assert (taken + [k])[..|taken|] == taken;
      var rows, n := RowsOfKey(existing, key, k'), Count(taken, k');
      assert Lookup(queues, k') == After(rows, n);
      assert k' == k ==> Count(taken + [k], k') == n + 1;
    }
  }

  /** The partner of the i-th desired row is at the front of its queue when its turn comes. */
  lemma PartnerIsInFront(queues: map<Key, seq<Stored>>, existing: seq<Stored>, desired: seq<Row>, key: Row -> Key,
                         i: nat)
    requires i < |desired| && Queued(queues, existing, DesiredKeys(desired[..i], key), key)
    ensures var queue := Lookup(queues, key(desired[i]));
            Partner(existing, desired, key, i) == if queue == [] then None else Some(queue[0])
    ensures DesiredKeys(desired[..i + 1], key) == DesiredKeys(desired[..i], key) + [key(desired[i])]
  {
    assert DesiredKeys(desired, key)[..i] == DesiredKeys(desired[..i], key);
    var k := key(desired[i]);
    assert Lookup(queues, k) == After(RowsOfKey(existing, key, k), Rank(DesiredKeys(desired, key), i));
  }

  lemma PairStep(queues: map<Key, seq<Stored>>, existing: seq<Stored>, desired: seq<Row>, key: Row -> Key, i: nat)
    requires i < |desired| && Queued(queues, existing, DesiredKeys(desired[..i], key), key)
    ensures var k := key(desired[i]);
            var queue := Lookup(queues, k);
            var queues' := if queue == [] then queues else queues[k := queue[1..]];
            && Partner(existing, desired, key, i) == (if queue == [] then None else Some(queue[0]))
            && Queued(queues', existing, DesiredKeys(desired[..i + 1], key), key)
            && queues'.Keys == queues.Keys
  {
    PartnerIsInFront(queues, existing, desired, key, i);
    TakenStep(queues, existing, DesiredKeys(desired[..i], key), key, key(desired[i]));
  }

  /** Pair each desired row with a stored row of the same key, if one is left. */
  method PairRows(existing: seq<Stored>, desired: seq<Row>, key: Row -> Key, start: map<Key, seq<Stored>>)
    returns (partners: seq<Option<Stored>>, queues: map<Key, seq<Stored>>)
    requires Queued(start, existing, [], key)
    ensures partners == Partners(existing, desired, key)
    ensures Queued(queues, existing, DesiredKeys(desired, key), key)
    ensures queues.Keys == start.Keys
  {
    hide Queued, Partner;
    partners, queues := [], start;
    assert DesiredKeys(desired[..0], key) == [];
    var i := 0;
    while i < |desired|
      invariant i <= |desired| && |partners| == i
      invariant forall j :: 0 <= j < i ==> partners[j] == Partner(existing, desired, key, j)
      invariant Queued(queues, existing, DesiredKeys(desired[..i], key), key)
      invariant queues.Keys == start.Keys
    {
      var k := key(desired[i]);
      PairStep(queues, existing, desired, key, i);
      var queue := Lookup(queues, k);
      if queue != [] {
        partners := partners + [Some(queue[0])];
        queues := queues[k := queue[1..]];
      } else {
        partners := partners + [None];
      }
      i := i + 1;
    }
    assert desired[..i] == desired;
  }

  /** Sort the pairs into updates, inserts and rows that already agree. */
  method DecidePairs(partners: seq<Option<Stored>>, desired: seq<Row>, spec: Spec) returns (plan: Plan)
    requires |partners| == |desired|
    ensures plan == Decide(partners, desired, spec)
  {
    plan := EMPTY_PLAN;
    for i := 0 to |desired|
      invariant plan == Decide(partners[..i], desired[..i], spec)
    {
      assert partners[..i + 1][..i] == partners[..i];
      assert desired[..i + 1][..i] == desired[..i];
      match partners[i] {
        case None =>
          plan := plan.(matched := plan.matched + [None], inserts := plan.inserts + [desired[i]]);
        case Some(current) =>
          plan := plan.(matched := plan.matched + [Some(current.id)]);
          var values := OwnedValues(desired[i], spec);
          if Changed(current.row, desired[i], spec) {
            plan := plan.(updates := plan.updates + [(current.id, values)]);
          } else {
            plan := plan.(kept := plan.kept + [current.id]);
          }
      }
    }
    assert partners[..|desired|] == partners && desired[..|desired|] == desired;
  }

  /** Whatever is left in the queues no longer corresponds to a desired row. */
  method DrainQueues(ghost existing: seq<Stored>, ghost taken: seq<Key>, ghost key: Row -> Key,
                     queues: map<Key, seq<Stored>>, order: seq<Key>)
    returns (deletes: seq<Id>)
    requires Queued(queues, existing, taken, key)
    requires forall k :: k in queues <==> k in order
    ensures deletes == Ids(Surplus(existing, taken, key, order))
  {
    deletes := [];
    var i := 0;
    while i < |order|
      invariant i <= |order|
      invariant deletes == Ids(Surplus(existing, taken, key, order[..i]))
    {
      var k := order[i];
      DrainStep(existing, taken, key, queues, order, i);
      deletes := deletes + Ids(queues[k]);
      i := i + 1;
    }
    assert order[..i] == order;
  }

  lemma DrainStep(existing: seq<Stored>, taken: seq<Key>, key: Row -> Key,
                  queues: map<Key, seq<Stored>>, order: seq<Key>, i: nat)
    requires Queued(queues, existing, taken, key)
    requires i < |order| && forall k :: k in order ==> k in queues
    ensures order[i] in queues
    ensures Ids(Surplus(existing, taken, key, order[..i + 1]))
         == Ids(Surplus(existing, taken, key, order[..i])) + Ids(queues[order[i]])
  {
    assert order[i] in order;
    assert queues[order[i]] == Lookup(queues, order[i]);
    assert order[..i + 1][..i] == order[..i];
  }

  method PlanReconciliation(existing: seq<Stored>, desired: seq<Row>, spec: Spec) returns (plan: Plan)
    ensures plan == PlanOf(existing, desired, spec)
  {
    var queues, order := QueuesByKey(existing, spec.key);
    var partners;
    partners, queues := PairRows(existing, desired, spec.key, queues);
    plan := DecidePairs(partners, desired, spec);
    var deletes := DrainQueues(existing, DesiredKeys(desired, spec.key), spec.key, queues, order);
    plan := plan.(deletes := deletes);
  }
}
