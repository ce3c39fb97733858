/**
  The input-source table the manager rebuilds whenever the configured
  sources change: the known configured sources in configuration order,
  numbered 0..n-1, a default layout when none is known, and short names
  made unique with subscript digits.
 */
module SourceTable {
  import opened Common
  import opened SourceSettings

  /** What the X keyboard configuration reports for a layout id. */
  datatype LayoutInfo = LayoutInfo(known: bool, displayName: string, shortName: string)

  /** A configured source together with the names the keyboard configuration gives it. */
  datatype SourceInfo = SourceInfo(key: SourceKey, displayName: string, shortName: string)

  /** One row of the source table; `index` is its position in the table. */
  datatype InputSource = InputSource(key: SourceKey, displayName: string, shortName: string, index: nat)

  /** Only X keyboard layouts are looked up; every other source type is unknown. */
  predicate IsKnown(k: SourceKey, layoutInfo: string -> LayoutInfo) {
    k.kind == XkbType && layoutInfo(k.id).known
  }

  function InfoFor(k: SourceKey, layoutInfo: string -> LayoutInfo): SourceInfo {
    SourceInfo(k, layoutInfo(k.id).displayName, layoutInfo(k.id).shortName)
  }

  function InfoKeys(infos: seq<SourceInfo>): (r: seq<SourceKey>)
    ensures |r| == |infos| && forall i :: 0 <= i < |infos| ==> r[i] == infos[i].key
  {
    seq(|infos|, i requires 0 <= i < |infos| => infos[i].key)
  }

  /** The configured sources that the keyboard configuration knows, in configuration order. */
  function KnownInfos(keys: seq<SourceKey>, layoutInfo: string -> LayoutInfo): (r: seq<SourceInfo>)
    ensures forall i :: 0 <= i < |r| ==> IsKnown(r[i].key, layoutInfo) && r[i] == InfoFor(r[i].key, layoutInfo)
    ensures IsSubsequence(InfoKeys(r), keys)
    ensures forall i :: 0 <= i < |keys| && IsKnown(keys[i], layoutInfo) ==> keys[i] in InfoKeys(r)
  {
    if |keys| == 0 then []
    else
      var rest := KnownInfos(keys[1..], layoutInfo);
      assert keys == [keys[0]] + keys[1..];
      if IsKnown(keys[0], layoutInfo) then
        var r := [InfoFor(keys[0], layoutInfo)] + rest;
        assert InfoKeys(r) == [keys[0]] + InfoKeys(rest);
        r
      else rest
  }

  /**
    The rows before numbering: the known configured sources, or, when none
    is known, the default layout alone (looked up whether or not it is known).
   */
  function TableInfos(keys: seq<SourceKey>, layoutInfo: string -> LayoutInfo, defaultLayout: string): (r: seq<SourceInfo>)
    ensures |r| >= 1
    ensures (forall i :: 0 <= i < |keys| ==> !IsKnown(keys[i], layoutInfo)) ==>
      r == [InfoFor(SourceKey(XkbType, defaultLayout), layoutInfo)]
    ensures (exists i :: 0 <= i < |keys| && IsKnown(keys[i], layoutInfo)) ==>
      && IsSubsequence(InfoKeys(r), keys)
      && (forall i :: 0 <= i < |r| ==> IsKnown(r[i].key, layoutInfo) && r[i] == InfoFor(r[i].key, layoutInfo))
      && (forall i :: 0 <= i < |keys| && IsKnown(keys[i], layoutInfo) ==> keys[i] in InfoKeys(r))
  {
    var known := KnownInfos(keys, layoutInfo);
    SubsequenceMembers(InfoKeys(known), keys);
    assert |known| > 0 ==> InfoKeys(known)[0] in keys && IsKnown(InfoKeys(known)[0], layoutInfo);
    if |known| == 0 then
      [InfoFor(SourceKey(XkbType, defaultLayout), layoutInfo)]
    else known
  }

  function ShortNames(infos: seq<SourceInfo>): (r: seq<string>)
    ensures |r| == |infos| && forall i :: 0 <= i < |infos| ==> r[i] == infos[i].shortName
  {
    seq(|infos|, i requires 0 <= i < |infos| => infos[i].shortName)
  }

  /** The subscript digit `String.fromCharCode(0x2080 + n)`. */
  function Subscript(n: nat): char {
    var code := 0x2080 + n;
    if code < 0xD800 then code as char else '\U{FFFD}'
  }

  /** How many earlier rows share row `i`'s short name. */
  function Rank(names: seq<string>, i: nat): nat
    requires i < |names|
  {
    Count(names[..i], names[i])
  }

  /** Row `i`'s short name as shown: subscripted by its position in its group when the name is shared. */
  function ShownShortName(names: seq<string>, i: nat): string
    requires i < |names|
  {
    if Count(names, names[i]) > 1 then names[i] + [Subscript(Rank(names, i) + 1)] else names[i]
  }

  predicate Indexed(table: seq<InputSource>) {
    forall i :: 0 <= i < |table| ==> table[i].index == i
  }

  /**
    The table `_inputSourcesChanged` builds: never empty, numbered by
    position, one row per entry of `TableInfos`, a unique short name kept,
    a shared one followed by the subscript of its rank within its group.
   */
  function BuildTable(keys: seq<SourceKey>, layoutInfo: string -> LayoutInfo, defaultLayout: string): (r: seq<InputSource>)
    ensures |r| >= 1 && Indexed(r)
    ensures var infos := TableInfos(keys, layoutInfo, defaultLayout);
      && |r| == |infos|
      && (forall i :: 0 <= i < |r| ==> r[i].key == infos[i].key && r[i].displayName == infos[i].displayName)
    ensures var names := ShortNames(TableInfos(keys, layoutInfo, defaultLayout));
      && (forall i :: 0 <= i < |r| && Count(names, names[i]) == 1 ==> r[i].shortName == names[i])
      && (forall i :: 0 <= i < |r| && Count(names, names[i]) > 1 ==>
            r[i].shortName == names[i] + [Subscript(Rank(names, i) + 1)])
  {
    var infos := TableInfos(keys, layoutInfo, defaultLayout);
    Rows(infos)
  }

  /** The rows for a list of descriptions, numbered by position, with their short names as shown. */
  function Rows(infos: seq<SourceInfo>): (r: seq<InputSource>)
    ensures |r| == |infos| && Indexed(r)
    ensures forall i :: 0 <= i < |r| ==> r[i].key == infos[i].key && r[i].displayName == infos[i].displayName
    ensures forall i :: 0 <= i < |r| ==> r[i].shortName == ShownShortName(ShortNames(infos), i)
  {
    var names := ShortNames(infos);
    seq(|infos|, i requires 0 <= i < |infos| =>
      InputSource(infos[i].key, infos[i].displayName, ShownShortName(names, i), i))
  }

  /** A row's rank is below its group's size, so subscripts run from 1 to the group size. */
  lemma RankBelowCount(names: seq<string>, i: nat)
    requires i < |names|
    ensures Rank(names, i) < Count(names, names[i])
  {
    assert names == names[..i] + names[i..];
    assert names[i..][0] == names[i];
    assert multiset(names) == multiset(names[..i]) + multiset(names[i..]);
  }

  /** Within a group, a later row has a larger rank: subscripts follow table order. */
  lemma RankIncreasing(names: seq<string>, i: nat, j: nat)
    requires i < j < |names| && names[i] == names[j]
    ensures Rank(names, i) < Rank(names, j)
  {
    assert names[..j] == names[..i] + [names[i]] + names[i + 1..j];
  }

  /** Every subscript 1..k of a group of k rows is used by some row of the group. */
  lemma {:induction false} RanksCoverGroup(names: seq<string>, x: string, p: nat)
    requires p < Count(names, x)
    ensures exists i :: 0 <= i < |names| && names[i] == x && Rank(names, i) == p
    decreases |names|
  {
    var n := |names|;
    var init := names[..n - 1];
    assert names == init + [names[n - 1]];
    assert forall i :: 0 <= i < n - 1 ==> names[..i] == init[..i] && names[i] == init[i];
    if p < Count(init, x) {
      RanksCoverGroup(init, x, p);
      var i :| 0 <= i < |init| && init[i] == x && Rank(init, i) == p;
      assert names[i] == x && Rank(names, i) == p;
    } else {
      assert names[n - 1] == x && Rank(names, n - 1) == p;
    }
  }
}
