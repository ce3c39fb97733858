/**
  The input-source manager of the keyboard status area: the current
  source, the MRU list, the per-window saved sources, and the panel
  indicator that marks the current source. Every operation is a pure step
  from one manager state to the next; activating a source includes the
  work done by the listeners of the change (the MRU update, the per-window
  record, the indicator).
 */
module SourceManager {
  import opened Common
  import opened SourceSettings
  import opened SourceTable
  import opened Mru

  /** Where input goes: the overview, or a focused application window. */
  datatype Window = Overview | AppWindow(id: nat)

  /** What a window remembers: which table it saw (by generation) and its source there. */
  datatype WindowSources = WindowSources(generation: nat, current: Option<InputSource>)

  /** The panel indicator: shown or hidden, and the table rows marked as current. */
  datatype Indicator = Indicator(visible: bool, marked: set<nat>)

  datatype Manager = Manager(
    sources: seq<InputSource>,
    generation: nat,
    current: Option<InputSource>,
    mru: seq<InputSource>,
    perWindow: bool,
    tracking: bool,
    windows: map<Window, WindowSources>,
    indicator: Indicator)

  /** Before the first load: no sources, nothing current, not tracking windows, indicator hidden. */
  const Initial: Manager := Manager([], 0, None, [], false, false, map[], Indicator(false, {}))

  /**
    The manager's own invariant: the table is numbered by position, the MRU
    list is a rearrangement of it, the current source is a table row, and
    window records never come from a future table while those from the
    present one name table rows.
   */
  predicate Consistent(m: Manager) {
    && Indexed(m.sources)
    && multiset(m.mru) == multiset(m.sources)
    && (m.current.Some? ==> m.current.value in m.sources)
    && (forall w :: w in m.windows ==> m.windows[w].generation <= m.generation)
    && (forall w :: w in m.windows && m.windows[w].generation == m.generation && m.windows[w].current.Some? ==>
          m.windows[w].current.value in m.sources)
  }

  /** The indicator is shown, and marks the current row, exactly when there is a current source and at least two rows. */
  predicate IndicatorShowsCurrent(m: Manager) {
    && (m.indicator.visible <==> m.current.Some? && |m.sources| >= 2)
    && m.indicator.marked == (if m.indicator.visible then {m.current.value.index} else {})
  }

  /** At most the current row is marked. */
  predicate MarksAtMostCurrent(m: Manager) {
    m.indicator.marked <= (if m.current.Some? then {m.current.value.index} else {})
  }

  predicate Valid(m: Manager) {
    Consistent(m) && IndicatorShowsCurrent(m)
  }

  lemma InitialValid()
    ensures Valid(Initial)
  {
  }

  /** The window whose source is tracked: the overview while it is shown, else the focused window. */
  function CurrentWindow(overviewVisible: bool, focus: Option<nat>): (r: Option<Window>)
    ensures overviewVisible ==> r == Some(Overview)
    ensures !overviewVisible ==> (r.None? <==> focus.None?)
    ensures !overviewVisible && focus.Some? ==> r == Some(AppWindow(focus.value))
  {
    if overviewVisible then Some(Overview)
    else match focus
      case None => None
      case Some(id) => Some(AppWindow(id))
  }

  /**
    The indicator's reaction to a current-source change: the old row is
    unmarked; then the indicator hides (and its menu closes) when there is
    no new source or fewer than two rows, and otherwise shows and marks the
    new row.
   */
  function IndicatorChanged(ind: Indicator, outgoing: Option<InputSource>, incoming: Option<InputSource>, rows: nat): (r: Indicator)
    ensures r.visible <==> incoming.Some? && rows >= 2
    ensures r.visible ==> r.marked == (ind.marked - (if outgoing.Some? then {outgoing.value.index} else {})) + {incoming.value.index}
    ensures !r.visible ==> r.marked == ind.marked - (if outgoing.Some? then {outgoing.value.index} else {})
  {
    var unmarked := if outgoing.Some? then ind.marked - {outgoing.value.index} else ind.marked;
    if incoming.None? || rows < 2 then Indicator(false, unmarked)
    else Indicator(true, unmarked + {incoming.value.index})
  }

  /** `_changePerWindowSource`: in per-window mode the current window remembers the current table and source. */
  function ChangePerWindowSource(m: Manager, win: Option<Window>): (r: Manager)
    ensures r.(windows := m.windows) == m
    ensures !m.perWindow || win.None? ==> r == m
    ensures m.perWindow && win.Some? ==> r.windows == m.windows[win.value := WindowSources(m.generation, m.current)]
  {
    if !m.perWindow then m
    else match win
      case None => m
      case Some(w) => m.(windows := m.windows[w := WindowSources(m.generation, m.current)])
  }

  /**
    `activateInputSource` followed by `_currentInputSourceChanged`: the
    source becomes current, moves to the front of the MRU list, the
    indicator follows, and in per-window mode the window remembers it.
   */
  function Activate(m: Manager, s: InputSource, win: Option<Window>): (r: Manager)
    ensures r.current == Some(s)
    ensures r.sources == m.sources && r.generation == m.generation
    ensures r.perWindow == m.perWindow && r.tracking == m.tracking
    ensures multiset(r.mru) == multiset(m.mru)
    ensures s in m.mru ==> |r.mru| > 0 && r.mru[0] == s
    ensures r.indicator == IndicatorChanged(m.indicator, m.current, Some(s), |m.sources|)
    ensures m.perWindow && win.Some? ==> r.windows == m.windows[win.value := WindowSources(m.generation, Some(s))]
    ensures !m.perWindow || win.None? ==> r.windows == m.windows
  {
    var mru := MoveToFront(m.mru, s);
    assert s in m.mru ==> mru[0] == s by {
      if s in m.mru && !(exists j :: 1 <= j < |m.mru| && m.mru[j] == s) {
        var j :| 0 <= j < |m.mru| && m.mru[j] == s;
        assert j == 0;
      }
    }
    var changed := m.(current := Some(s), mru := mru,
                      indicator := IndicatorChanged(m.indicator, m.current, Some(s), |m.sources|));
    ChangePerWindowSource(changed, win)
  }

  lemma {:induction false} ActivateValid(m: Manager, s: InputSource, win: Option<Window>)
    requires Consistent(m) && MarksAtMostCurrent(m) && s in m.sources
    ensures Valid(Activate(m, s, win))
  {
    var r := Activate(m, s, win);
    assert r.indicator.visible ==> r.indicator.marked == {s.index};
  }

  /** Activating the first entry of an MRU list without repeats leaves the list as it is. */
  lemma ActivateFirstKeepsOrder(mru: seq<InputSource>)
    requires |mru| > 0 && Distinct(mru)
    ensures MoveToFront(mru, mru[0]) == mru
  {
    forall j | 1 <= j < |mru| ensures mru[j] != mru[0] {
      DistinctIndices(mru, 0, j);
    }
  }

  /**
    The state `_inputSourcesChanged` reaches before activating: the new
    table under a new generation, no current source, the indicator's rows
    rebuilt unmarked, and the MRU list reconciled with the new table.
   */
  function Reloaded(m: Manager, table: seq<InputSource>, stored: seq<SourceKey>): (r: Manager)
    ensures r.sources == table && r.generation == m.generation + 1 && r.current.None?
    ensures r.indicator.marked == {}
    ensures multiset(r.mru) == multiset(table)
  {
    m.(sources := table, generation := m.generation + 1, current := None,
       mru := UpdateMru(m.mru, stored, table), indicator := m.indicator.(marked := {}))
  }

  /**
    `_inputSourcesChanged`: the table is rebuilt and reconciled, and the
    first MRU entry is activated.
   */
  function InputSourcesChanged(m: Manager, keys: seq<SourceKey>, layoutInfo: string -> LayoutInfo,
                               defaultLayout: string, stored: seq<SourceKey>, win: Option<Window>): (r: Manager)
    ensures r.sources == BuildTable(keys, layoutInfo, defaultLayout)
    ensures r.generation == m.generation + 1
    ensures multiset(r.mru) == multiset(r.sources)
    ensures r.mru == UpdateMru(m.mru, stored, r.sources)
    ensures |r.mru| >= 1 && r.current == Some(r.mru[0])
  {
    var table := BuildTable(keys, layoutInfo, defaultLayout);
    var reloaded := Reloaded(m, table, stored);
    if |reloaded.mru| > 0 then
      IndexedDistinct(table);
      DistinctSubMultiset(reloaded.mru, table);
      ActivateFirstKeepsOrder(reloaded.mru);
      Activate(reloaded, reloaded.mru[0], win)
    else reloaded
  }

  /** Rows of an indexed table are pairwise different, since each carries its own position. */
  lemma IndexedDistinct(table: seq<InputSource>)
    requires Indexed(table)
    ensures Distinct(table)
  {
    assert forall i, j :: 0 <= i < j < |table| ==> table[i].index != table[j].index;
    DistinctFromIndices(table);
  }

  lemma {:induction false} InputSourcesChangedValid(m: Manager, keys: seq<SourceKey>, layoutInfo: string -> LayoutInfo,
                                                   defaultLayout: string, stored: seq<SourceKey>, win: Option<Window>)
    requires Valid(m)
    ensures Valid(InputSourcesChanged(m, keys, layoutInfo, defaultLayout, stored, win))
  {
    var table := BuildTable(keys, layoutInfo, defaultLayout);
    var reloaded := Reloaded(m, table, stored);
    assert Consistent(reloaded);
    assert reloaded.mru[0] in multiset(table);
    ActivateValid(reloaded, reloaded.mru[0], win);
  }

  /** The table row the modifier shortcut moves to: the one after the current (or the first) row, wrapping to 0. */
  function NextIndex(sources: seq<InputSource>, current: Option<InputSource>): (r: nat)
    requires |sources| > 0
    ensures r < |sources|
  {
    var from := if current.Some? then current.value else sources[0];
    var next := from.index + 1;
    if next > |sources| - 1 then 0 else next
  }

  /** The next row is one past the current row, modulo the table size. */
  lemma NextIndexWraps(sources: seq<InputSource>, current: Option<InputSource>)
    requires |sources| > 0 && Indexed(sources)
    requires current.Some? ==> current.value in sources
    ensures current.Some? ==> NextIndex(sources, current) == (current.value.index + 1) % |sources|
    ensures current.None? ==> NextIndex(sources, current) == 1 % |sources|
  {
    var n := |sources|;
    var c := if current.Some? then current.value.index else 0;
    if current.Some? {
      var i :| 0 <= i < n && sources[i] == current.value;
      assert c == i;
    } else {
      assert sources[0].index == 0;
    }
    if c + 1 == n {
      ModUnique(c + 1, n, 1, 0);
    } else {
      ModUnique(c + 1, n, 0, c + 1);
    }
  }

  /**
    `_modifiersSwitcher`: with an empty table nothing is activated;
    otherwise the row after the current one is activated. The event is
    always reported as handled.
   */
  function ModifiersSwitcher(m: Manager, win: Option<Window>): (r: (Manager, bool))
    ensures r.1
    ensures |m.sources| == 0 ==> r.0 == m
    ensures |m.sources| > 0 ==> r.0.current == Some(m.sources[NextIndex(m.sources, m.current)])
    ensures r.0.sources == m.sources && multiset(r.0.mru) == multiset(m.mru)
  {
    if |m.sources| == 0 then (m, true)
    else (Activate(m, m.sources[NextIndex(m.sources, m.current)], win), true)
  }

  lemma ModifiersSwitcherValid(m: Manager, win: Option<Window>)
    requires Valid(m)
    ensures Valid(ModifiersSwitcher(m, win).0)
  {
    if |m.sources| > 0 {
      ActivateValid(m, m.sources[NextIndex(m.sources, m.current)], win);
    }
  }

  /** Row c moved k steps forward through n rows, wrapping from the last row to row 0. */
  function Rotate(c: nat, k: nat, n: nat): nat
    decreases k
  {
    if k == 0 then c
    else var p := Rotate(c, k - 1, n); if p + 1 > n - 1 then 0 else p + 1
  }

  lemma {:induction false} RotateIsModulo(c: nat, k: nat, n: nat)
    requires c < n
    ensures Rotate(c, k, n) == (c + k) % n
    decreases k
  {
    if k == 0 {
      ModUnique(c, n, 0, c);
    } else {
      RotateIsModulo(c, k - 1, n);
      var p := Rotate(c, k - 1, n);
      ModSucc(c + (k - 1), n);
      ModUnique(p + 1, n, if p + 1 == n then 1 else 0, if p + 1 == n then 0 else p + 1);
    }
  }

  /** Pressing the modifier shortcut k times from row c lands on row (c + k) mod n. */
  lemma {:induction false} ModifiersSwitcherCycles(m: Manager, win: Option<Window>, k: nat)
    requires Indexed(m.sources) && m.current.Some? && m.current.value.index < |m.sources|
    ensures var r := PressModifiers(m, win, k);
      r.current.Some? && r.current.value.index == (m.current.value.index + k) % |m.sources|
  {
    PressModifiersRotate(m, win, k);
    RotateIsModulo(m.current.value.index, k, |m.sources|);
  }

  lemma {:induction false} PressModifiersRotate(m: Manager, win: Option<Window>, k: nat)
    requires Indexed(m.sources) && m.current.Some? && |m.sources| > 0
    ensures PressModifiers(m, win, k).current.Some?
    ensures PressModifiers(m, win, k).current.value.index == Rotate(m.current.value.index, k, |m.sources|)
    decreases k
  {
    if k > 0 {
      PressModifiersRotate(m, win, k - 1);
      NextIndexStep(PressModifiers(m, win, k - 1), win);
    }
  }

  /** One press of the modifier shortcut moves to the next row, wrapping from the last row to row 0. */
  lemma NextIndexStep(m: Manager, win: Option<Window>)
    requires Indexed(m.sources) && m.current.Some? && |m.sources| > 0
    ensures var r := ModifiersSwitcher(m, win).0;
      r.current.Some? &&
      r.current.value.index == (if m.current.value.index + 1 > |m.sources| - 1 then 0 else m.current.value.index + 1)
  {
    var next := NextIndex(m.sources, m.current);
    assert m.sources[next].index == next;
  }

  lemma CurrentIndexInRange(m: Manager)
    requires Valid(m) && m.current.Some?
    ensures m.current.value.index < |m.sources|
  {
    var i :| 0 <= i < |m.sources| && m.sources[i] == m.current.value;
    assert m.current.value.index == i;
  }

  /** k presses of the modifier shortcut, with the same window focused. */
  function PressModifiers(m: Manager, win: Option<Window>, k: nat): (r: Manager)
    ensures r.sources == m.sources
    decreases k
  {
    if k == 0 then m else ModifiersSwitcher(PressModifiers(m, win, k - 1), win).0
  }

  /** What the switch-input-source shortcut does. */
  datatype SwitchOutcome =
    | TooFewSources
    | Cycled(manager: Manager)
    | ShowPopup(items: seq<InputSource>)

  /**
    `_switchInputSource`: nothing with fewer than two MRU entries; while a
    popup grab is active, the modifier switch; otherwise a popup over the
    MRU list.
   */
  function SwitchInputSource(m: Manager, popupMode: bool, win: Option<Window>): (r: SwitchOutcome)
    ensures r.TooFewSources? <==> |m.mru| < 2
    ensures r.Cycled? <==> |m.mru| >= 2 && popupMode
    ensures r.Cycled? ==> r.manager == ModifiersSwitcher(m, win).0
    ensures r.ShowPopup? ==> r.items == m.mru && |r.items| >= 2
  {
    if |m.mru| < 2 then TooFewSources
    else if popupMode then Cycled(ModifiersSwitcher(m, win).0)
    else ShowPopup(m.mru)
  }

  /** `_finish` of the popup: the selected item is activated. */
  function PopupFinish(m: Manager, items: seq<InputSource>, selected: nat, win: Option<Window>): (r: Manager)
    requires selected < |items|
    ensures r.current == Some(items[selected])
  {
    Activate(m, items[selected], win)
  }

  /**
    The quick switch: the shortcut opens the popup over the MRU list, and
    choosing its second item brings that source to the front, so the first
    two entries trade places and the rest keep their order.
   */
  lemma PopupSecondSwaps(m: Manager, win: Option<Window>)
    requires |m.mru| >= 2 && m.mru[0] != m.mru[1]
    ensures SwitchInputSource(m, false, win).ShowPopup?
    ensures var items := SwitchInputSource(m, false, win).items;
      PopupFinish(m, items, 1, win).mru == [m.mru[1], m.mru[0]] + m.mru[2..]
      && PopupFinish(m, items, 1, win).current == Some(m.mru[1])
  {
    ActivateMru(m, m.mru[1], win);
    MoveSecondToFront(m.mru);
  }

  /** Activation reorders the MRU list by `MoveToFront` and nothing else. */
  lemma ActivateMru(m: Manager, s: InputSource, win: Option<Window>)
    ensures Activate(m, s, win).mru == MoveToFront(m.mru, s)
  {
  }

  /** A popup opened over the MRU list only ever activates a table row. */
  lemma PopupFinishValid(m: Manager, selected: nat, win: Option<Window>)
    requires Valid(m) && selected < |m.mru|
    ensures Valid(PopupFinish(m, m.mru, selected, win))
  {
    assert m.mru[selected] in multiset(m.sources);
    ActivateValid(m, m.mru[selected], win);
  }

  /**
    `_getNewInputSource`: nothing for an empty table; else the first row
    with the type and id of `current`, falling back to the first row.
   */
  function GetNewInputSource(sources: seq<InputSource>, current: Option<InputSource>): (r: Option<InputSource>)
    ensures r.None? <==> |sources| == 0
    ensures r.Some? ==> r.value in sources
    ensures r.Some? && current.Some? && (exists i :: 0 <= i < |sources| && sources[i].key == current.value.key) ==>
      exists i :: 0 <= i < |sources| && sources[i] == r.value && r.value.key == current.value.key &&
        forall j :: 0 <= j < i ==> sources[j].key != current.value.key
    ensures r.Some? && (current.None? || forall i :: 0 <= i < |sources| ==> sources[i].key != current.value.key) ==>
      r.value == sources[0]
  {
    if |sources| == 0 then None
    else if current.None? then Some(sources[0])
    else match FirstWithKey(sources, current.value.key)
      case Some(i) => Some(sources[i])
      case None => Some(sources[0])
  }

  /**
    `_setPerWindowInputSource`: with no window, nothing. A window whose
    record is missing or from an older table re-resolves its saved source
    against the current table; then its source, if any, is activated.
   */
  function SetPerWindowInputSource(m: Manager, win: Option<Window>): (r: Manager)
    ensures win.None? ==> r == m
    ensures win.Some? ==> win.value in r.windows && r.windows[win.value].generation == m.generation
    ensures win.Some? && win.value in m.windows && m.windows[win.value].generation == m.generation ==>
      r.windows[win.value] == m.windows[win.value]
    ensures win.Some? ==> r.current == (if r.windows[win.value].current.Some? then r.windows[win.value].current else m.current)
  {
    match win
    case None => m
    case Some(w) =>
      var upToDate := w in m.windows && m.windows[w].generation == m.generation;
      var saved := if w in m.windows then m.windows[w].current else None;
      var m1 := if upToDate then m
                else m.(windows := m.windows[w := WindowSources(m.generation, GetNewInputSource(m.sources, saved))]);
      var rec := m1.windows[w];
      if rec.current.Some? then Activate(m1, rec.current.value, win) else m1
  }

  lemma {:induction false} SetPerWindowInputSourceValid(m: Manager, win: Option<Window>)
    requires Valid(m)
    ensures Valid(SetPerWindowInputSource(m, win))
  {
    if win.Some? {
      var w := win.value;
      var upToDate := w in m.windows && m.windows[w].generation == m.generation;
      var saved := if w in m.windows then m.windows[w].current else None;
      var m1 := if upToDate then m
                else m.(windows := m.windows[w := WindowSources(m.generation, GetNewInputSource(m.sources, saved))]);
      assert Valid(m1);
      if m1.windows[w].current.Some? {
        ActivateValid(m1, m1.windows[w].current.value, win);
      }
    }
  }

  /**
    `_sourcesPerWindowChanged`: the mode follows the setting; turning it on
    starts tracking window focus, turning it off stops tracking and forgets
    every window's saved source.
   */
  function SourcesPerWindowChanged(m: Manager, setting: bool): (r: Manager)
    ensures r.perWindow == setting && r.tracking == setting
    ensures r.(perWindow := m.perWindow, tracking := m.tracking, windows := m.windows) == m
    ensures r.windows == (if !setting && m.tracking then map[] else m.windows)
  {
    if setting && !m.tracking then m.(perWindow := true, tracking := true)
    else if !setting && m.tracking then m.(perWindow := false, tracking := false, windows := map[])
    else m.(perWindow := setting)
  }

  lemma SourcesPerWindowChangedValid(m: Manager, setting: bool)
    requires Valid(m)
    ensures Valid(SourcesPerWindowChanged(m, setting))
  {
  }

  /**
    Outside per-window mode the manager never records window sources, so
    once tracking is off no window record exists.
   */
  lemma {:induction false} NoRecordsWithoutPerWindow(m: Manager, s: InputSource, win: Option<Window>)
    requires !m.perWindow && m.windows == map[]
    ensures Activate(m, s, win).windows == map[]
    ensures SetPerWindowInputSource(m, None).windows == map[]
  {
  }

  // ---------------------------------------------------------------------------
  // The popup switcher's keys and engine short names
  // ---------------------------------------------------------------------------

  /** Clutter key symbols for the arrow keys. */
  const KeyLeft: nat := 0xff51
  const KeyRight: nat := 0xff53

  datatype KeyOutcome = SelectNext | SelectPrevious | Propagate

  /**
    `_keyPressHandler` of the popup: the forward binding or Right selects
    the next item, the backward binding or Left the previous one, anything
    else propagates. The bindings are checked before the arrow keys.
   */
  function PopupKeyPress(keysym: nat, action: nat, forward: nat, backward: nat): (r: KeyOutcome)
    ensures action == forward ==> r == SelectNext
    ensures action != forward && action == backward ==> r == SelectPrevious
    ensures action != forward && action != backward ==>
      (r == SelectPrevious <==> keysym == KeyLeft) && (r == SelectNext <==> keysym == KeyRight)
    ensures r == Propagate <==> action != forward && action != backward && keysym != KeyLeft && keysym != KeyRight
  {
    if action == forward then SelectNext
    else if action == backward then SelectPrevious
    else if keysym == KeyLeft then SelectPrevious
    else if keysym == KeyRight then SelectNext
    else Propagate
  }

  /**
    The bindings and the arrow keys agree: the forward binding does what
    Right does and the backward binding what Left does, and a binding wins
    over whatever key carries it.
   */
  lemma PopupKeysAgree(keysym: nat, other: nat, forward: nat, backward: nat)
    requires other != forward && other != backward
    ensures PopupKeyPress(keysym, forward, forward, backward) == PopupKeyPress(KeyRight, other, forward, backward)
    ensures forward != backward ==>
      PopupKeyPress(keysym, backward, forward, backward) == PopupKeyPress(KeyLeft, other, forward, backward)
  {
  }

  /** The keyboard glyph U+2328, the last-resort short name. */
  const KeyboardGlyph: string := "\U{2328}"

  /**
    `_makeEngineShortName`: the engine's symbol when it has one, else its
    language code (the text before the first `_`) lower-cased when that code
    has two or three characters, else the keyboard glyph.
   */
  function MakeEngineShortName(symbol: string, language: string): (r: string)
    ensures |r| > 0
    ensures symbol != "" ==> r == symbol
    ensures symbol == "" ==> var code := BeforeFirst(language, '_');
      && ((|code| == 2 || |code| == 3) ==> r == ToLower(code))
      && (!(|code| == 2 || |code| == 3) ==> r == KeyboardGlyph)
  {
    if symbol != "" then symbol
    else
      var code := BeforeFirst(language, '_');
      if |code| == 2 || |code| == 3 then ToLower(code) else KeyboardGlyph
  }

  /** A language tag with a two- or three-letter code before `_` gives that code, lower-cased. */
  lemma EngineShortNameFromLanguage(code: string, region: string)
    requires (|code| == 2 || |code| == 3) && '_' !in code
    ensures MakeEngineShortName("", code + "_" + region) == ToLower(code)
  {
    SplitAtSeparator(code, '_', region);
  }
}
