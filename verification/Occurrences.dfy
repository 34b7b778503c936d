/** Occurrences of a key in a sequence: the arithmetic behind first-in-first-out matching.

    The i-th position of a sequence has a rank: how many earlier positions hold the same key.
    Two sequences are matched first in, first out, when positions of equal key and equal rank
    are paired, so key and rank together say everything a queue per key does.
 */
module Occurrences {

  function Count<K(==)>(ks: seq<K>, k: K): nat {
    if ks == [] then 0 else Count(ks[..|ks| - 1], k) + if ks[|ks| - 1] == k then 1 else 0
  }

  function Rank<K(==)>(ks: seq<K>, i: nat): nat
    requires i < |ks|
  {
    Count(ks[..i], ks[i])
  }

  ghost predicate Ascending(ps: seq<int>) {
    forall i, j :: 0 <= i < j < |ps| ==> ps[i] < ps[j]
  }

  ghost predicate NoRepeats<T>(s: seq<T>) {
    forall i, j :: 0 <= i < j < |s| ==> s[i] != s[j]
  }

  /** The positions that hold `k`, in order. */
  function Positions<K(==)>(ks: seq<K>, k: K): (ps: seq<nat>)
    ensures |ps| == Count(ks, k)
    ensures forall j :: 0 <= j < |ps| ==> ps[j] < |ks|
  {
    if ks == [] then []
    else Positions(ks[..|ks| - 1], k) + if ks[|ks| - 1] == k then [|ks| - 1] else []
  }

  /** Counting is multiplicity, and a rank is the multiplicity of a key among what comes before it. */
  lemma {:induction false} CountIsMultiplicity<K>(ks: seq<K>, k: K)
    ensures Count(ks, k) == multiset(ks)[k]
    ensures forall i: nat :: i < |ks| ==> Rank(ks, i) == multiset(ks[..i])[ks[i]]
    decreases |ks|
  {
    if ks != [] {
      var n := |ks| - 1;
      assert ks == ks[..n] + [ks[n]];
      CountIsMultiplicity(ks[..n], k);
    }
    forall i: nat | i < |ks| ensures Rank(ks, i) == multiset(ks[..i])[ks[i]] {
      CountIsMultiplicity(ks[..i], ks[i]);
    }
  }

  /** The j-th position of `k` is the one of rank j. */
  lemma {:induction false} PositionsAreRanked<K>(ks: seq<K>, k: K)
    ensures var ps := Positions(ks, k);
            && (forall j :: 0 <= j < |ps| ==> ks[ps[j]] == k && Rank(ks, ps[j]) == j)
            && Ascending(ps)
  {
    if ks != [] {
      var n := |ks| - 1;
      PositionsAreRanked(ks[..n], k);
      var ps := Positions(ks[..n], k);
      forall j | 0 <= j < |ps| ensures ks[ps[j]] == k && Rank(ks, ps[j]) == j {
        assert ks[..n][..ps[j]] == ks[..ps[j]];
      }
    }
  }

  /** Every position is found again from its key and its rank. */
  lemma {:induction false} PositionOfRank<K>(ks: seq<K>, i: nat)
    requires i < |ks|
    ensures Rank(ks, i) < Count(ks, ks[i])
    ensures Positions(ks, ks[i])[Rank(ks, i)] == i
  {
    var init := ks[..|ks| - 1];
    if i < |init| {
      assert init[..i] == ks[..i];
      PositionOfRank(init, i);
    }
  }

  /** Key and rank identify a position. */
  lemma SameSlotSamePosition<K>(ks: seq<K>, i: nat, j: nat)
    requires i < |ks| && j < |ks| && ks[i] == ks[j] && Rank(ks, i) == Rank(ks, j)
    ensures i == j
  {
    PositionOfRank(ks, i);
    PositionOfRank(ks, j);
  }

  /** Within one key, rank follows position. */
  lemma RankFollowsPosition<K>(ks: seq<K>, i: nat, j: nat)
    requires i < j < |ks| && ks[i] == ks[j]
    ensures Rank(ks, i) < Rank(ks, j)
  {
    var upto := ks[..j];
    assert upto[..i] == ks[..i];
    PositionOfRank(upto, i);
  }

  /** The keys of a sequence in the order they first appear: the order of a Python dict filled from it. */
  function Distinct<K(==,!new)>(ks: seq<K>): (order: seq<K>)
    ensures NoRepeats(order)
    ensures forall k :: k in order <==> k in ks
  {
    if ks == [] then []
    else
      var order := Distinct(ks[..|ks| - 1]);
      var last := ks[|ks| - 1];
      assert ks == ks[..|ks| - 1] + [last];
      if last in order then order else order + [last]
  }

  /** Each of them appears before any later one does. */
  lemma {:induction false} DistinctInOrder<K(!new)>(ks: seq<K>, i: nat, j: nat) returns (first: nat)
    requires i < j < |Distinct(ks)|
    ensures first < |ks| && ks[first] == Distinct(ks)[i] && Distinct(ks)[j] !in ks[..first + 1]
  {
    var n := |ks| - 1;
    var order := Distinct(ks[..n]);
    if j < |order| {
      first := DistinctInOrder(ks[..n], i, j);
      assert ks[..n][..first + 1] == ks[..first + 1];
    } else {
      assert order[i] in order && order[i] in ks[..n];
      first :| 0 <= first < n && ks[first] == order[i];
      assert forall k :: k in ks[..first + 1] ==> k in ks[..n];
    }
  }

  ghost function Elements(ps: seq<int>): set<int> {
    set i | i in ps
  }

  lemma ElementsAppend(ps: seq<int>, last: int)
    ensures Elements(ps + [last]) == Elements(ps) + {last}
  {
  }

  lemma {:induction false} AscendingSize(ps: seq<int>)
    requires Ascending(ps)
    ensures |Elements(ps)| == |ps|
  {
    if ps != [] {
      var init, last := ps[..|ps| - 1], ps[|ps| - 1];
      AscendingSize(init);
      assert last !in Elements(init) && ps == init + [last];
      hide Elements, Ascending;
      ElementsAppend(init, last);
    }
  }

  lemma SomeElement(a: seq<int>) returns (x: int)
    requires a != []
    ensures x in a
  {
    x := a[0];
  }

  lemma LastIsGreatest(a: seq<int>)
    requires Ascending(a) && a != []
    ensures var init, last := a[..|a| - 1], a[|a| - 1];
            && Ascending(init) && last in a
            && (forall x :: x in a ==> x <= last)
            && (forall x :: x in init <==> x in a && x != last)
  {
    assert a == a[..|a| - 1] + [a[|a| - 1]];
  }

  /** Two ascending sequences over the same elements are the same sequence. */
  lemma {:induction false} AscendingUnique(a: seq<int>, b: seq<int>)
    requires Ascending(a) && Ascending(b)
    requires forall x :: x in a <==> x in b
    ensures a == b
  {
    if a == [] {
      if b != [] {
        var x := SomeElement(b);
        assert false;
      }
    } else {
      assert a[0] in a && b != [];
      LastIsGreatest(a);
      LastIsGreatest(b);
      hide Ascending;
      AscendingUnique(a[..|a| - 1], b[..|b| - 1]);
      assert a == a[..|a| - 1] + [a[|a| - 1]] && b == b[..|b| - 1] + [b[|b| - 1]];
    }
  }
}
