/**
  `gnome-extensions disable`: remove an extension from the
  `enabled-extensions` setting, and the exit code of the command.

  The settings store is a value: absent, or present with the key's
  writability and its current list. What the command writes is returned
  instead of stored. Option parsing is reduced to its outcome.
 */
module DisableCommand {
  import opened Common

  datatype ShellSettings = NoSettings | ShellSettings(writable: bool, enabled: seq<string>)

  /** What `disable_extension` reports, and the list it writes back, if any. */
  datatype Disabled = Disabled(ok: bool, written: Option<seq<string>>)

  /** The outcome of option parsing: an error, or the remaining arguments (the UUIDs). */
  datatype Parsed = ParseError | Remaining(uuids: seq<string>)

  /** The exit code of the command, and the list written on the way. */
  datatype Exit = Exit(code: int, written: Option<seq<string>>)

  /** The position of the first `x` in `s`. */
  function FirstIndex(s: seq<string>, x: string): (i: nat)
    requires x in s
    ensures i < |s| && s[i] == x && forall j :: 0 <= j < i ==> s[j] != x
  {
    if s[0] == x then 0 else 1 + FirstIndex(s[1..], x)
  }

  /**
    The zero-filled array of `|enabled|` string slots that the loop fills:
    each entry other than `uuid` is copied into its own slot, the slots of
    `uuid` stay NULL.
   */
  function Slots(enabled: seq<string>, uuid: string): (r: seq<Option<string>>)
    ensures |r| == |enabled|
    ensures forall i :: 0 <= i < |r| ==> (r[i].None? <==> enabled[i] == uuid)
    ensures forall i :: 0 <= i < |r| && r[i].Some? ==> r[i].value == enabled[i]
  {
    seq(|enabled|, i requires 0 <= i < |enabled| => if enabled[i] == uuid then None else Some(enabled[i]))
  }

  /**
    The string vector a NULL-terminated array holds: the strings before the
    first NULL slot. The array holds a NULL slot whenever the loop skipped
    an entry, so the reading never runs past its end.
   */
  function Strv(slots: seq<Option<string>>): (r: seq<string>)
    ensures |r| <= |slots|
    ensures forall i :: 0 <= i < |r| ==> slots[i] == Some(r[i])
    ensures |r| < |slots| ==> slots[|r|].None?
    ensures |r| == |slots| ==> forall i :: 0 <= i < |slots| ==> slots[i].Some?
  {
    if |slots| == 0 || slots[0].None? then []
    else [slots[0].value] + Strv(slots[1..])
  }

  /**
    The list `disable_extension` writes, as the code stands: only the
    entries before the first occurrence of `uuid` (the NULL slot left for it
    ends the vector, so every later entry is lost).
   */
  function WrittenAsIs(enabled: seq<string>, uuid: string): (r: seq<string>)
    requires uuid in enabled
    ensures r == enabled[..FirstIndex(enabled, uuid)]
    ensures uuid !in r
  {
    var slots := Slots(enabled, uuid);
    StrvStopsAtNull(slots, FirstIndex(enabled, uuid));
    Strv(slots)
  }

  /** A vector whose first NULL slot is at `k` holds exactly `k` strings. */
  lemma {:induction false} StrvStopsAtNull(slots: seq<Option<string>>, k: nat)
    requires k < |slots| && slots[k].None? && forall i :: 0 <= i < k ==> slots[i].Some?
    ensures |Strv(slots)| == k
    decreases k
  {
    if k > 0 {
      StrvStopsAtNull(slots[1..], k - 1);
    }
  }

  /** The entries to keep: all but `uuid`. */
  function Others(uuid: string): string -> bool {
    e => e != uuid
  }

  /** The list evidently intended: the enabled list with every `uuid` taken out and the rest in order. */
  function WrittenIntended(enabled: seq<string>, uuid: string): (r: seq<string>)
    ensures uuid !in r
    ensures forall e :: e in r <==> e in enabled && e != uuid
    ensures IsSubsequence(r, enabled)
    ensures multiset(r) == multiset(enabled)[uuid := 0]
  {
    var r := Filter(enabled, Others(uuid));
    FilterIsSubsequence(enabled, Others(uuid));
    FilterMembers(enabled, Others(uuid));
    FilterOthersCounts(enabled, uuid);
    r
  }

  /** Filtering out `uuid` removes all its copies and keeps every other entry as often as it occurs. */
  lemma {:induction false} FilterOthersCounts(s: seq<string>, uuid: string)
    ensures multiset(Filter(s, Others(uuid))) == multiset(s)[uuid := 0]
    decreases |s|
  {
    if |s| > 0 {
      FilterOthersCounts(s[1..], uuid);
      assert s == [s[0]] + s[1..];
      assert multiset(s) == multiset{s[0]} + multiset(s[1..]);
      if s[0] == uuid {
        assert Filter(s, Others(uuid)) == Filter(s[1..], Others(uuid));
      } else {
        assert Filter(s, Others(uuid)) == [s[0]] + Filter(s[1..], Others(uuid));
      }
    }
  }

  /** An entry after the disabled one is lost by the code as it stands and kept by the intended one. */
  lemma WrittenAsIsLosesLaterEntries()
    ensures WrittenAsIs(["a", "x", "b"], "x") == ["a"]
    ensures WrittenIntended(["a", "x", "b"], "x") == ["a", "b"]
  {
    var enabled := ["a", "x", "b"];
    assert FirstIndex(enabled, "x") == 1 by {
      assert enabled[0] != "x" && enabled[1] == "x";
    }
    assert enabled[..1] == ["a"];
    assert enabled[1..][1..] == ["b"];
    assert Filter(["b"], Others("x")) == ["b"] by {
      assert ["b"][1..] == [];
    }
  }

  /** The two agree exactly when nothing but copies of `uuid` follows its first occurrence. */
  lemma WrittenAsIsAgrees(enabled: seq<string>, uuid: string)
    requires uuid in enabled
    ensures WrittenAsIs(enabled, uuid) == WrittenIntended(enabled, uuid) <==>
      forall j :: FirstIndex(enabled, uuid) <= j < |enabled| ==> enabled[j] == uuid
  {
    PrefixIsFiltered(enabled, uuid, FirstIndex(enabled, uuid));
  }

  /**
    When `uuid` first occurs at `k`, the entries before `k` are the filtered
    list exactly when only copies of `uuid` come after `k`.
   */
  lemma PrefixIsFiltered(enabled: seq<string>, uuid: string, k: nat)
    requires uuid in enabled && k == FirstIndex(enabled, uuid)
    ensures enabled[..k] == Filter(enabled, Others(uuid)) <==> forall j :: k <= j < |enabled| ==> enabled[j] == uuid
  {
    var tail := enabled[k + 1..];
    WrittenIntendedAround(enabled, uuid);
    FilterEmpty(tail, Others(uuid));
    AppendSelf(enabled[..k], Filter(tail, Others(uuid)));
    AfterFirst(enabled, uuid, k, tail);
  }

  lemma AppendSelf<T>(a: seq<T>, b: seq<T>)
    ensures a == a + b <==> b == []
  {
    if a == a + b {
      assert |b| == 0;
    }
  }

  /** Everything from `k` on is `uuid` exactly when everything after `k` (the `tail`) is. */
  lemma AfterFirst(enabled: seq<string>, uuid: string, k: nat, tail: seq<string>)
    requires k < |enabled| && enabled[k] == uuid && tail == enabled[k + 1..]
    ensures (forall j :: k <= j < |enabled| ==> enabled[j] == uuid) <==>
            (forall i :: 0 <= i < |tail| ==> tail[i] == uuid)
  {
    assert forall i :: 0 <= i < |tail| ==> tail[i] == enabled[k + 1 + i];
    if forall i :: 0 <= i < |tail| ==> tail[i] == uuid {
      forall j | k < j < |enabled| ensures enabled[j] == uuid {
        assert enabled[j] == tail[j - k - 1];
      }
    }
  }

  /** The intended list keeps everything before the first occurrence, then filters the rest. */
  lemma WrittenIntendedAround(enabled: seq<string>, uuid: string)
    requires uuid in enabled
    ensures var k := FirstIndex(enabled, uuid);
      Filter(enabled, Others(uuid)) == enabled[..k] + Filter(enabled[k + 1..], Others(uuid))
  {
    var k := FirstIndex(enabled, uuid);
    var head, tail := enabled[..k], enabled[k + 1..];
    assert enabled == head + ([uuid] + tail);
    FilterAppend(head, [uuid] + tail, Others(uuid));
    FilterAppend([uuid], tail, Others(uuid));
    FilterKeepsAll(head, Others(uuid));
    assert Filter([uuid], Others(uuid)) == [];
  }

  /**
    `disable_extension`, writing the list as the code stands (`asIs`) or as
    intended: no
    settings or a read-only key fail without writing; an extension that is
    not enabled succeeds without writing; otherwise the new list is written
    and the call succeeds.
   */
  function DisableWith(settings: ShellSettings, uuid: string, asIs: bool): (r: Disabled)
    ensures settings.NoSettings? || !settings.writable ==> r == Disabled(false, None)
    ensures settings.ShellSettings? && settings.writable && uuid !in settings.enabled ==> r == Disabled(true, None)
    ensures settings.ShellSettings? && settings.writable && uuid in settings.enabled ==>
      r.ok && r.written.Some? && uuid !in r.written.value
  {
    if settings.NoSettings? || !settings.writable then Disabled(false, None)
    else if uuid !in settings.enabled then Disabled(true, None)
    else if asIs then Disabled(true, Some(WrittenAsIs(settings.enabled, uuid)))
    else Disabled(true, Some(WrittenIntended(settings.enabled, uuid)))
  }

  /** `disable_extension` as the code stands. */
  function DisableAsIs(settings: ShellSettings, uuid: string): (r: Disabled)
    ensures settings.ShellSettings? && settings.writable && uuid in settings.enabled ==>
      r.written == Some(settings.enabled[..FirstIndex(settings.enabled, uuid)])
  {
    DisableWith(settings, uuid, true)
  }

  /** `disable_extension` as intended: every other enabled extension stays enabled. */
  function Disable(settings: ShellSettings, uuid: string): (r: Disabled)
    ensures settings.ShellSettings? && settings.writable && uuid in settings.enabled ==>
      r.written.Some? && forall e :: e in r.written.value <==> e in settings.enabled && e != uuid
  {
    DisableWith(settings, uuid, false)
  }

  /** The success flag, and so the exit code, does not depend on which list is written. */
  lemma DisableResultAgrees(settings: ShellSettings, uuid: string)
    ensures Disable(settings, uuid).ok == DisableAsIs(settings, uuid).ok
    ensures Disable(settings, uuid).written.None? <==> DisableAsIs(settings, uuid).written.None?
  {
  }

  /**
    `handle_disable` with `disable_extension` writing the list as the code
    stands (`asIs`) or as intended: 0 after showing help; 1 for a parse
    error, no UUID, or more than one; otherwise 0 when disabling succeeds
    and 2 when it fails.
   */
  function HandleDisableWith(doHelp: bool, parsed: Parsed, settings: ShellSettings, asIs: bool): (r: Exit)
    ensures doHelp ==> r == Exit(0, None)
    ensures !doHelp && (parsed.ParseError? || |parsed.uuids| != 1) ==> r == Exit(1, None)
    ensures !doHelp && parsed.Remaining? && |parsed.uuids| == 1 ==>
      r.written == DisableWith(settings, parsed.uuids[0], asIs).written &&
      (r.code == 0 <==> DisableWith(settings, parsed.uuids[0], asIs).ok) &&
      (r.code == 2 <==> !DisableWith(settings, parsed.uuids[0], asIs).ok)
    ensures r.code in {0, 1, 2}
  {
    if doHelp then Exit(0, None)
    else match parsed
      case ParseError => Exit(1, None)
      case Remaining(uuids) =>
        if |uuids| == 0 then Exit(1, None)
        else if |uuids| > 1 then Exit(1, None)
        else
          var d := DisableWith(settings, uuids[0], asIs);
          Exit(if d.ok then 0 else 2, d.written)
  }

  /** `handle_disable` as the code stands: the list written is the prefix before the UUID's first occurrence. */
  function HandleDisable(doHelp: bool, parsed: Parsed, settings: ShellSettings): (r: Exit)
    ensures !doHelp && parsed.Remaining? && |parsed.uuids| == 1 ==>
      r.written == DisableAsIs(settings, parsed.uuids[0]).written &&
      (r.code == 0 <==> DisableAsIs(settings, parsed.uuids[0]).ok)
    ensures !doHelp && parsed.Remaining? && |parsed.uuids| == 1 && settings.ShellSettings? && settings.writable &&
            parsed.uuids[0] in settings.enabled ==>
      r == Exit(0, Some(settings.enabled[..FirstIndex(settings.enabled, parsed.uuids[0])]))
  {
    HandleDisableWith(doHelp, parsed, settings, true)
  }

  /** `handle_disable` as intended: every other enabled extension stays enabled. */
  function HandleDisableIntended(doHelp: bool, parsed: Parsed, settings: ShellSettings): (r: Exit)
    ensures !doHelp && parsed.Remaining? && |parsed.uuids| == 1 ==>
      r.written == Disable(settings, parsed.uuids[0]).written &&
      (r.code == 0 <==> Disable(settings, parsed.uuids[0]).ok)
    ensures !doHelp && parsed.Remaining? && |parsed.uuids| == 1 && settings.ShellSettings? && settings.writable &&
            parsed.uuids[0] in settings.enabled ==>
      r.code == 0 && r.written == Some(WrittenIntended(settings.enabled, parsed.uuids[0]))
  {
    HandleDisableWith(doHelp, parsed, settings, false)
  }

  /** The command as it stands and as intended exit with the same code; only the list written can differ. */
  lemma HandleDisableAgrees(doHelp: bool, parsed: Parsed, settings: ShellSettings)
    ensures HandleDisable(doHelp, parsed, settings).code == HandleDisableIntended(doHelp, parsed, settings).code
  {
    if !doHelp && parsed.Remaining? && |parsed.uuids| == 1 {
      DisableResultAgrees(settings, parsed.uuids[0]);
    }
  }

  /** Exit code 2 means exactly: one UUID given, and no writable settings. */
  lemma ExitTwoMeansNotWritable(doHelp: bool, parsed: Parsed, settings: ShellSettings)
    ensures HandleDisable(doHelp, parsed, settings).code == 2 <==>
      !doHelp && parsed.Remaining? && |parsed.uuids| == 1 && (settings.NoSettings? || !settings.writable)
  {
  }
}
