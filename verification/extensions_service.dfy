/**
  The value-level parts of the shell's bus interfaces: the extension
  descriptions served by `GnomeShellExtensions`, the cached overview
  visibility and the `Eval` gate of `GnomeShell`, and the screen saver's
  active time.

  JavaScript values are reduced to the three kinds that have a D-Bus type
  code here and a catch-all for the rest (undefined, null, objects, arrays).
 */
module ExtensionsService {
  import opened Common

  /** A JavaScript property value, by its `typeof`. */
  datatype JsValue = JsString(s: string) | JsNumber(n: real) | JsBoolean(b: bool) | JsOther

  /** A serialized value: a `GLib.Variant` of type `s`, `d` or `b`. */
  datatype Variant = Variant(code: char, value: JsValue)

  /**
    An extension as the shell knows it: its metadata properties, its own
    properties (of which `type`, `state`, `path`, `error` and `hasPrefs` are
    served; a missing one is undefined), and its error list, if it has one.
   */
  datatype Extension = Extension(metadata: map<string, JsValue>, fields: map<string, JsValue>, errors: Option<seq<string>>)

  /** The extension properties copied over the metadata. */
  const Serialized: seq<string> := ["type", "state", "path", "error", "hasPrefs"]

  const ServedKeys: set<string> := set p | p in Serialized

  /** The D-Bus type code of a value, or none for a value that is not served. */
  function TypeCode(v: JsValue): (r: Option<char>)
    ensures r.Some? <==> !v.JsOther?
    ensures v.JsString? ==> r == Some('s')
    ensures v.JsNumber? ==> r == Some('d')
    ensures v.JsBoolean? ==> r == Some('b')
  {
    match v
    case JsString(_) => Some('s')
    case JsNumber(_) => Some('d')
    case JsBoolean(_) => Some('b')
    case JsOther => None
  }

  function FieldOf(e: Extension, prop: string): JsValue {
    if prop in e.fields then e.fields[prop] else JsOther
  }

  /**
    The object `GetExtensionInfo` serializes: the metadata, with the five
    served properties set from the extension itself (undefined when the
    extension lacks one, which hides a metadata entry of that name).
   */
  function Properties(e: Extension): (r: map<string, JsValue>)
    ensures r.Keys == e.metadata.Keys + ServedKeys
    ensures forall k :: k in r && k !in Serialized ==> r[k] == e.metadata[k]
    ensures forall k :: k in Serialized ==> r[k] == FieldOf(e, k)
  {
    map k | k in e.metadata.Keys + ServedKeys ::
      if k in Serialized then FieldOf(e, k) else e.metadata[k]
  }

  /**
    `GetExtensionInfo`: nothing for an unknown extension; otherwise every
    property whose value is a string, number or boolean, with type code
    `s`, `d` or `b`; other values are left out.
   */
  function GetExtensionInfo(extensions: map<string, Extension>, uuid: string): (r: map<string, Variant>)
    ensures uuid !in extensions ==> r == map[]
    ensures uuid in extensions ==> forall k :: k in r <==> k in Properties(extensions[uuid]) && !Properties(extensions[uuid])[k].JsOther?
    ensures uuid in extensions ==> forall k :: k in r ==>
      r[k].value == Properties(extensions[uuid])[k] && Some(r[k].code) == TypeCode(r[k].value)
  {
    if uuid !in extensions then map[]
    else
      var obj := Properties(extensions[uuid]);
      map k | k in obj && TypeCode(obj[k]).Some? :: Variant(TypeCode(obj[k]).value, obj[k])
  }

  /** A served property comes from the extension itself, never from a metadata entry of the same name. */
  lemma ServedPropertiesOverrideMetadata(extensions: map<string, Extension>, uuid: string, prop: string)
    requires uuid in extensions && prop in Serialized
    ensures var e := extensions[uuid];
      (prop in GetExtensionInfo(extensions, uuid) <==> !FieldOf(e, prop).JsOther?) &&
      (prop in GetExtensionInfo(extensions, uuid) ==> GetExtensionInfo(extensions, uuid)[prop].value == FieldOf(e, prop))
  {
  }

  /** `ListExtensions`: every known extension with its description. */
  function ListExtensions(extensions: map<string, Extension>): (r: map<string, map<string, Variant>>)
    ensures r.Keys == extensions.Keys
    ensures forall u :: u in r ==> r[u] == GetExtensionInfo(extensions, u)
  {
    map u | u in extensions :: GetExtensionInfo(extensions, u)
  }

  /** `GetExtensionErrors`: the extension's errors, or none when it or its error list is missing. */
  function GetExtensionErrors(extensions: map<string, Extension>, uuid: string): (r: seq<string>)
    ensures uuid !in extensions || extensions[uuid].errors.None? ==> r == []
    ensures uuid in extensions && extensions[uuid].errors.Some? ==> r == extensions[uuid].errors.value
  {
    if uuid !in extensions then []
    else match extensions[uuid].errors
      case None => []
      case Some(errs) => errs
  }

  /** The shell describes and reports errors only for extensions it knows: an unknown one has neither. */
  lemma UnknownExtensionIsEmpty(extensions: map<string, Extension>, uuid: string)
    ensures uuid !in ListExtensions(extensions) <==> uuid !in extensions
    ensures uuid !in extensions ==> GetExtensionInfo(extensions, uuid) == map[] && GetExtensionErrors(extensions, uuid) == []
    ensures GetExtensionErrors(extensions, uuid) != [] ==> uuid in ListExtensions(extensions)
  {
  }

  /**
    `_checkOverviewVisibleChanged`: the cache takes the overview's
    visibility, and `OverviewActive` is announced (with the new value) only
    when it differs from the cached one.
   */
  function CheckOverviewVisibleChanged(cached: bool, visible: bool): (r: (bool, Option<bool>))
    ensures r.0 == visible
    ensures r.1.Some? <==> visible != cached
    ensures r.1.Some? ==> r.1.value == visible
  {
    if visible != cached then (visible, Some(visible)) else (cached, None)
  }

  /** A second check without a visibility change announces nothing. */
  lemma OverviewCheckIdempotent(cached: bool, visible: bool)
    ensures var first := CheckOverviewVisibleChanged(cached, visible);
      CheckOverviewVisibleChanged(first.0, visible) == (first.0, None)
  {
  }

  /**
    The announcements over a run of visibility changes, starting from the
    cache value `cached`: one for each change of value, none for repeats.
   */
  function Announcements(cached: bool, visibles: seq<bool>): (r: seq<bool>)
    ensures |r| <= |visibles|
    decreases |visibles|
  {
    if |visibles| == 0 then []
    else
      var step := CheckOverviewVisibleChanged(cached, visibles[0]);
      (if step.1.Some? then [step.1.value] else []) + Announcements(step.0, visibles[1..])
  }

  /** No two neighbouring entries of `r` are equal. */
  predicate Alternating(r: seq<bool>) {
    forall i :: 0 <= i < |r| - 1 ==> r[i] != r[i + 1]
  }

  /** Consecutive announcements always alternate: the same value is never announced twice in a row. */
  lemma {:induction false} AnnouncementsAlternate(cached: bool, visibles: seq<bool>)
    ensures var r := Announcements(cached, visibles);
      (|r| > 0 ==> r[0] != cached) && Alternating(r)
    decreases |visibles|
  {
    if |visibles| > 0 {
      var step := CheckOverviewVisibleChanged(cached, visibles[0]);
      AnnouncementsAlternate(step.0, visibles[1..]);
      var rest := Announcements(step.0, visibles[1..]);
      if step.1.Some? {
        assert Announcements(cached, visibles) == [visibles[0]] + rest;
        ConsAlternating(visibles[0], rest);
      } else {
        assert Announcements(cached, visibles) == rest;
      }
    }
  }

  lemma ConsAlternating(x: bool, rest: seq<bool>)
    requires (|rest| > 0 ==> rest[0] != x) && Alternating(rest)
    ensures Alternating([x] + rest)
  {
    var r := [x] + rest;
    forall i | 0 <= i < |r| - 1 ensures r[i] != r[i + 1] {
      if i > 0 {
        assert r[i] == rest[i - 1] && r[i + 1] == rest[i];
      }
    }
  }

  /**
    What evaluating the code gives: the JSON text of its value (none when
    `JSON.stringify` gives `undefined`), or the text of the exception thrown.
   */
  datatype Evaluation = Evaluated(json: Option<string>) | Threw(message: string)

  /**
    `Eval`: with the development tools setting off the answer is
    `[false, '']` and nothing is evaluated; otherwise success with the
    value's JSON text (`''` for undefined), or failure with the exception's
    text.
   */
  function Eval(developmentTools: bool, evaluate: string -> Evaluation, code: string): (r: (bool, string))
    ensures r.0 <==> developmentTools && evaluate(code).Evaluated?
    ensures !developmentTools ==> r == (false, "")
    ensures developmentTools && evaluate(code).Threw? ==> r.1 == evaluate(code).message
    ensures developmentTools && evaluate(code).Evaluated? ==>
      r.1 == (if evaluate(code).json.Some? then evaluate(code).json.value else "")
  {
    if !developmentTools then (false, "")
    else match evaluate(code)
      case Evaluated(json) => (true, if json.Some? then json.value else "")
      case Threw(message) => (false, message)
  }

  /** With the tools off, the answer depends neither on the code nor on what evaluating it would do. */
  lemma EvalOffIgnoresCode(evaluate1: string -> Evaluation, code1: string, evaluate2: string -> Evaluation, code2: string)
    ensures Eval(false, evaluate1, code1) == Eval(false, evaluate2, code2)
  {
  }

  /**
    `GetActiveTime`: whole seconds since the shield was activated (times in
    microseconds, rounded down as `Math.floor` does), or 0 when it never was.
   */
  function GetActiveTime(started: int, now: int): (r: int)
    ensures started <= 0 ==> r == 0
    ensures started > 0 ==> r * 1000000 <= now - started < (r + 1) * 1000000
  {
    if started > 0 then (now - started) / 1000000 else 0
  }
}
