/**
  The most-recently-used order of the input sources: how it is rebuilt
  after the table changes (`_updateMruSources`) and how activating a source
  moves it to the front (`_currentInputSourceChanged`).
 */
module Mru {
  import opened Common
  import opened SourceSettings
  import opened SourceTable

  function KeysOf(sources: seq<InputSource>): (r: seq<SourceKey>)
    ensures |r| == |sources| && forall i :: 0 <= i < |sources| ==> r[i] == sources[i].key
  {
    if |sources| == 0 then [] else [sources[0].key] + KeysOf(sources[1..])
  }

  /** The first position of a source with key `k`: sources are matched by type and id. */
  function FirstWithKey(list: seq<InputSource>, k: SourceKey): (r: Option<nat>)
    ensures r.Some? ==> r.value < |list| && list[r.value].key == k
    ensures r.Some? ==> forall j :: 0 <= j < r.value ==> list[j].key != k
    ensures r.None? ==> forall j :: 0 <= j < |list| ==> list[j].key != k
  {
    if |list| == 0 then None
    else if list[0].key == k then Some(0)
    else match FirstWithKey(list[1..], k)
      case None => None
      case Some(j) => Some(j + 1)
  }

  /** The rebuilt list in two parts: sources matched from the previous list, then the rest. */
  datatype Reordering = Reordering(matched: seq<InputSource>, rest: seq<InputSource>)

  /**
    For each previous key in turn, take out the first remaining source with
    that key; what is never taken keeps its order and goes last.
   */
  function Reconcile(previous: seq<SourceKey>, remaining: seq<InputSource>): (r: Reordering)
    ensures multiset(r.matched + r.rest) == multiset(remaining)
    ensures IsSubsequence(r.rest, remaining)
    ensures IsSubsequence(KeysOf(r.matched), previous)
    decreases |previous|
  {
    if |previous| == 0 then
      SubsequenceReflexive(remaining);
      Reordering([], remaining)
    else
      match FirstWithKey(remaining, previous[0])
      case None =>
        var r := Reconcile(previous[1..], remaining);
        assert previous == [previous[0]] + previous[1..];
        r
      case Some(j) =>
        var left := RemoveAt(remaining, j);
        var r := Reconcile(previous[1..], left);
        TakeStep(previous, remaining, j, r);
        Reordering([remaining[j]] + r.matched, r.rest)
  }

  /** The facts `Reconcile` needs when the first previous key matches at position `j`. */
  lemma {:induction false} TakeStep(previous: seq<SourceKey>, remaining: seq<InputSource>, j: nat, r: Reordering)
    requires |previous| > 0 && j < |remaining| && remaining[j].key == previous[0]
    requires multiset(r.matched + r.rest) == multiset(RemoveAt(remaining, j))
    requires IsSubsequence(r.rest, RemoveAt(remaining, j))
    requires IsSubsequence(KeysOf(r.matched), previous[1..])
    ensures multiset([remaining[j]] + r.matched + r.rest) == multiset(remaining)
    ensures IsSubsequence(r.rest, remaining)
    ensures IsSubsequence(KeysOf([remaining[j]] + r.matched), previous)
  {
    var left := RemoveAt(remaining, j);
    RemoveAtIsSubsequence(remaining, j);
    SubsequenceTransitive(r.rest, left, remaining);
    var matched := [remaining[j]] + r.matched;
    assert matched + r.rest == [remaining[j]] + (r.matched + r.rest);
    assert matched[1..] == r.matched;
  }

  /**
    The stored MRU setting, resolved against the table: for each stored key
    the first table source with that key, skipping keys the table lacks.
   */
  function Seed(stored: seq<SourceKey>, table: seq<InputSource>): (r: seq<InputSource>)
    ensures forall i :: 0 <= i < |r| ==> r[i] in table
    ensures IsSubsequence(KeysOf(r), stored)
  {
    if |stored| == 0 then []
    else
      var rest := Seed(stored[1..], table);
      assert stored == [stored[0]] + stored[1..];
      match FirstWithKey(table, stored[0])
      case None => rest
      case Some(j) =>
        var r := [table[j]] + rest;
        assert KeysOf(r) == [stored[0]] + KeysOf(rest);
        r
  }

  /**
    `_updateMruSources`: the previous MRU list (seeded from the stored
    setting when it is empty) decides the front of the new list, the other
    table sources follow in table order.
   */
  function UpdateMru(previous: seq<InputSource>, stored: seq<SourceKey>, table: seq<InputSource>): (r: seq<InputSource>)
    ensures multiset(r) == multiset(table)
    ensures |r| == |table|
  {
    var base := if |previous| == 0 then Seed(stored, table) else previous;
    var o := Reconcile(KeysOf(base), table);
    assert |multiset(o.matched + o.rest)| == |multiset(table)|;
    o.matched + o.rest
  }

  /**
    With distinct keys in the table, a source is left over exactly when no
    previous key names it; everything matched is named by a previous key.
   */
  lemma {:induction false} LeftoverNotPrevious(previous: seq<SourceKey>, remaining: seq<InputSource>)
    requires Distinct(KeysOf(remaining))
    ensures forall x :: x in Reconcile(previous, remaining).rest ==> x.key !in previous
    decreases |previous|
  {
    if |previous| > 0 {
      var k := previous[0];
      assert previous == [k] + previous[1..];
      match FirstWithKey(remaining, k)
      case None =>
        LeftoverNotPrevious(previous[1..], remaining);
        var r := Reconcile(previous[1..], remaining);
        SubsequenceMembers(r.rest, remaining);
      case Some(j) =>
        var left := RemoveAt(remaining, j);
        DistinctAfterRemove(remaining, j);
        LeftoverNotPrevious(previous[1..], left);
        var r := Reconcile(previous[1..], left);
        SubsequenceMembers(r.rest, left);
        forall x | x in r.rest
          ensures x.key != k
        {
          OthersKeepKeys(remaining, j, x);
        }
    }
  }

  /** With distinct keys, nothing left after taking out position `j` has that position's key. */
  lemma {:induction false} OthersKeepKeys(remaining: seq<InputSource>, j: nat, x: InputSource)
    requires j < |remaining| && Distinct(KeysOf(remaining)) && x in RemoveAt(remaining, j)
    ensures x.key != remaining[j].key
  {
    var left := RemoveAt(remaining, j);
    var i :| 0 <= i < |left| && left[i] == x;
    var i' := if i < j then i else i + 1;
    assert x == remaining[i'] && i' != j;
    DistinctIndices(KeysOf(remaining), i', j);
  }

  lemma {:induction false} DistinctAfterRemove(remaining: seq<InputSource>, j: nat)
    requires j < |remaining| && Distinct(KeysOf(remaining))
    ensures Distinct(KeysOf(RemoveAt(remaining, j)))
  {
    var ks := KeysOf(remaining);
    assert KeysOf(RemoveAt(remaining, j)) == RemoveAt(ks, j);
    DistinctSubMultiset(RemoveAt(ks, j), ks);
  }

  /**
    Seeding from the stored keys and then reconciling gives the same list as
    reconciling with the stored keys directly: stored keys the table lacks
    never match anything.
   */
  lemma {:induction false} SeedThenReconcile(stored: seq<SourceKey>, table: seq<InputSource>, remaining: seq<InputSource>)
    requires forall x :: x in remaining ==> x in table
    ensures Reconcile(KeysOf(Seed(stored, table)), remaining) == Reconcile(stored, remaining)
    decreases |stored|
  {
    if |stored| > 0 {
      var k := stored[0];
      var seed := Seed(stored, table);
      var rest := Seed(stored[1..], table);
      match FirstWithKey(table, k)
      case None =>
        assert seed == rest;
        assert FirstWithKey(remaining, k).None? by {
          forall j | 0 <= j < |remaining|
            ensures remaining[j].key != k
          {
            assert remaining[j] in table;
          }
        }
        SeedThenReconcile(stored[1..], table, remaining);
      case Some(t) =>
        assert KeysOf(seed) == [k] + KeysOf(rest);
        assert KeysOf(seed)[1..] == KeysOf(rest);
        match FirstWithKey(remaining, k)
        case None =>
          SeedThenReconcile(stored[1..], table, remaining);
        case Some(j) =>
          var left := RemoveAt(remaining, j);
          assert forall x :: x in left ==> x in remaining;
          SeedThenReconcile(stored[1..], table, left);
    }
  }

  /**
    With distinct keys in the table, a remaining source ends up in the tail
    exactly when no previous key names it.
   */
  lemma {:induction false} LeftoverExactly(previous: seq<SourceKey>, remaining: seq<InputSource>, x: InputSource)
    requires Distinct(KeysOf(remaining)) && x in remaining
    ensures x in Reconcile(previous, remaining).rest <==> x.key !in previous
  {
    var r := Reconcile(previous, remaining);
    LeftoverNotPrevious(previous, remaining);
    if x.key !in previous {
      SubsequenceMembers(KeysOf(r.matched), previous);
      forall i | 0 <= i < |r.matched|
        ensures r.matched[i] != x
      {
        assert KeysOf(r.matched)[i] in previous;
      }
      assert x in multiset(r.matched + r.rest);
    }
  }

  /**
    After a restart the MRU list is empty, and the stored setting orders the
    new list exactly as a previous list with those keys would.
   */
  lemma {:induction false} UpdateMruFromStored(stored: seq<SourceKey>, table: seq<InputSource>)
    ensures var o := Reconcile(stored, table);
      UpdateMru([], stored, table) == o.matched + o.rest
  {
    SeedThenReconcile(stored, table, table);
  }

  /** The first position at or after `from` holding `s` (sources are compared as objects). */
  function FirstFrom(list: seq<InputSource>, s: InputSource, from: nat): (r: Option<nat>)
    ensures r.Some? ==> from <= r.value < |list| && list[r.value] == s
    ensures r.Some? ==> forall j :: from <= j < r.value ==> list[j] != s
    ensures r.None? ==> forall j :: from <= j < |list| ==> list[j] != s
    decreases |list| - from
  {
    if from >= |list| then None
    else if list[from] == s then Some(from)
    else FirstFrom(list, s, from + 1)
  }

  /**
    Activation's MRU update: the first occurrence of `s` at a position
    i >= 1 moves to the front and the others keep their order; when `s` is
    already first or absent the list is unchanged.
   */
  function MoveToFront(mru: seq<InputSource>, s: InputSource): (r: seq<InputSource>)
    ensures multiset(r) == multiset(mru)
    ensures (forall j :: 1 <= j < |mru| ==> mru[j] != s) ==> r == mru
    ensures (exists j :: 1 <= j < |mru| && mru[j] == s) ==>
      exists i :: 1 <= i < |mru| && mru[i] == s && (forall j :: 1 <= j < i ==> mru[j] != s) &&
        r == [s] + RemoveAt(mru, i)
  {
    match FirstFrom(mru, s, 1)
    case None => mru
    case Some(i) =>
      assert multiset(mru) == multiset(RemoveAt(mru, i)) + multiset{s};
      [s] + RemoveAt(mru, i)
  }

  /** Moving the second entry to the front swaps the first two when they differ. */
  lemma MoveSecondToFront(mru: seq<InputSource>)
    requires |mru| >= 2 && mru[0] != mru[1]
    ensures MoveToFront(mru, mru[1]) == [mru[1], mru[0]] + mru[2..]
  {
    var s := mru[1];
    var i :| 1 <= i < |mru| && mru[i] == s && (forall j :: 1 <= j < i ==> mru[j] != s) &&
             MoveToFront(mru, s) == [s] + RemoveAt(mru, i);
    assert i == 1;
    assert RemoveAt(mru, 1) == [mru[0]] + mru[2..];
  }

  /** On a list without repeats, moving the same source to the front twice changes nothing more. */
  lemma MoveToFrontIdempotent(mru: seq<InputSource>, s: InputSource)
    requires Distinct(mru)
    ensures MoveToFront(MoveToFront(mru, s), s) == MoveToFront(mru, s)
  {
    var r := MoveToFront(mru, s);
    if exists j :: 1 <= j < |mru| && mru[j] == s {
      assert r[0] == s;
      forall j | 1 <= j < |r|
        ensures r[j] != s
      {
        assert multiset(r) == multiset(mru);
        DistinctSubMultiset(r, mru);
        DistinctIndices(r, 0, j);
      }
    }
  }
}
