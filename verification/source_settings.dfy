/**
  Where the configured input sources come from. In the greeter they are
  read from the comma-separated X keyboard layout and variant strings; in a
  user session they are a list of (type, id) pairs from the settings store,
  which the model takes as given.
 */
module SourceSettings {
  import opened Common

  /** The source type of X keyboard layouts. */
  const XkbType: string := "xkb"

  /** A configured source: its type and its id, e.g. ("xkb", "us+dvorak"). */
  datatype SourceKey = SourceKey(kind: string, id: string)

  /** `fields[i]`, where a missing field reads as the empty string (JavaScript's `undefined` is falsy too). */
  function FieldAt(fields: seq<string>, i: nat): string {
    if i < |fields| then fields[i] else ""
  }

  /** The sources for layout fields `i`, `i+1`, ... up to the first empty one. */
  function LeadingSources(layouts: seq<string>, variants: seq<string>, i: nat): (r: seq<SourceKey>)
    requires i <= |layouts|
    ensures i + |r| <= |layouts|
    ensures forall j :: i <= j < i + |r| ==> layouts[j] != ""
    ensures forall k :: 0 <= k < |r| ==> r[k].kind == XkbType
    ensures forall k :: 0 <= k < |r| && FieldAt(variants, i + k) != "" ==> r[k].id == layouts[i + k] + "+" + variants[i + k]
    ensures forall k :: 0 <= k < |r| && FieldAt(variants, i + k) == "" ==> r[k].id == layouts[i + k]
    ensures i + |r| == |layouts| || layouts[i + |r|] == ""
    decreases |layouts| - i
  {
    if i == |layouts| || layouts[i] == "" then []
    else
      var variant := FieldAt(variants, i);
      var id := if variant != "" then layouts[i] + "+" + variant else layouts[i];
      var rest := LeadingSources(layouts, variants, i + 1);
      var r := [SourceKey(XkbType, id)] + rest;
      assert forall k :: 1 <= k < |r| ==> r[k] == rest[k - 1] && i + k == (i + 1) + (k - 1);
      r
  }

  /** The greeter's settings: the raw layout, variant and option strings. */
  datatype SystemSettings = SystemSettings(layouts: string, variants: string, options: string)

  /**
    The greeter's sources: one X keyboard source per layout field, stopping
    at the first empty field; the id carries `+variant` exactly when the
    variant field at the same position is non-empty.
   */
  function SystemInputSources(g: SystemSettings): (r: seq<SourceKey>)
    ensures var ls, vs := Split(g.layouts, ','), Split(g.variants, ',');
      && |r| <= |ls|
      && (forall k :: 0 <= k < |r| ==> ls[k] != "")
      && (forall k :: 0 <= k < |r| ==> r[k].kind == XkbType)
      && (forall k :: 0 <= k < |r| && FieldAt(vs, k) != "" ==> r[k].id == ls[k] + "+" + vs[k])
      && (forall k :: 0 <= k < |r| && FieldAt(vs, k) == "" ==> r[k].id == ls[k])
      && (|r| == |ls| || ls[|r|] == "")
  {
    var ls, vs := Split(g.layouts, ','), Split(g.variants, ',');
    var r := LeadingSources(ls, vs, 0);
    assert forall k :: 0 <= k < |r| ==> ls[0 + k] == ls[k] && FieldAt(vs, 0 + k) == FieldAt(vs, k);
    r
  }

  /** The greeter's keyboard options: the option string split at every comma. */
  function SystemKeyboardOptions(g: SystemSettings): (r: seq<string>)
    ensures |r| >= 1
    ensures forall i :: 0 <= i < |r| ==> ',' !in r[i]
    ensures Join(r, ",") == g.options
  {
    Split(g.options, ',')
  }

  /** An empty layout string configures no source at all. */
  lemma NoLayoutsNoSources(variants: string, options: string)
    ensures SystemInputSources(SystemSettings("", variants, options)) == []
  {
    assert Split("", ',') == [""];
  }

  /** When no layout field is empty, every field yields a source. */
  lemma {:induction false} AllLayoutsUsed(layouts: seq<string>, variants: seq<string>, i: nat)
    requires i <= |layouts|
    requires forall k :: i <= k < |layouts| ==> layouts[k] != ""
    ensures |LeadingSources(layouts, variants, i)| == |layouts| - i
    decreases |layouts| - i
  {
    if i < |layouts| {
      AllLayoutsUsed(layouts, variants, i + 1);
    }
  }
}
