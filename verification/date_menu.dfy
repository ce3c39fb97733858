/**
  The logic inside the date menu of the top bar: the "today" rule that
  decides whether the today button reacts and whether the menu's size is
  frozen, the unread-message indicator next to the clock, and the size
  cache of the freezable layout.

  The clock reading is a parameter (`now`), message sources are numbered,
  and their unseen counts and the tray's queue length are parameters read
  when the count is updated. Sizes are integers, and the "not a number"
  the layout starts with is an absent size.
 */
module DateMenu {
  import opened Common

  // ---------------------------------------------------------------------------
  // Today

  /** A JavaScript `Date`: the calendar day and the time within it (in milliseconds). */
  datatype Date = Date(year: int, month: int, day: int, time: int)

  /** `_isToday`: the same year, month and day as the clock's; the time of day does not matter. */
  predicate IsToday(date: Date, now: Date) {
    now.year == date.year && now.month == date.month && now.day == date.day
  }

  // ---------------------------------------------------------------------------
  // The freezable layout

  /**
    `FreezableBinLayout`: whether it is frozen, and the width and height
    pairs (minimum, natural) saved at the last allocation, if any.
   */
  datatype Layout = Layout(frozen: bool, savedWidth: Option<(int, int)>, savedHeight: Option<(int, int)>)

  /** A new layout: not frozen, nothing saved. */
  const NewLayout: Layout := Layout(false, None, None)

  /**
    The `frozen` setter: setting the present value does nothing; otherwise
    the flag changes and, when unfreezing, a relayout is requested.
   */
  function SetFrozen(l: Layout, v: bool): (r: (Layout, bool))
    ensures r.0.frozen == v
    ensures r.0.savedWidth == l.savedWidth && r.0.savedHeight == l.savedHeight
    ensures r.1 <==> l.frozen && !v
  {
    if l.frozen == v then (l, false)
    else (l.(frozen := v), !v)
  }

  /** Setting the same value twice is the same as setting it once, and the second time asks for nothing. */
  lemma SetFrozenIdempotent(l: Layout, v: bool)
    ensures SetFrozen(SetFrozen(l, v).0, v) == (SetFrozen(l, v).0, false)
  {
  }

  /** The preferred size the layout reports: the saved one while frozen with a size saved, else the computed one. */
  function Preferred(frozen: bool, saved: Option<(int, int)>, computed: (int, int)): (r: (int, int))
    ensures frozen && saved.Some? ==> r == saved.value
    ensures !frozen || saved.None? ==> r == computed
  {
    if !frozen || saved.None? then computed else saved.value
  }

  /** `vfunc_get_preferred_width`. */
  function PreferredWidth(l: Layout, computed: (int, int)): (r: (int, int))
    ensures r == Preferred(l.frozen, l.savedWidth, computed)
  {
    if !l.frozen || l.savedWidth.None? then computed else l.savedWidth.value
  }

  /** `vfunc_get_preferred_height`. */
  function PreferredHeight(l: Layout, computed: (int, int)): (r: (int, int))
    ensures r == Preferred(l.frozen, l.savedHeight, computed)
  {
    if !l.frozen || l.savedHeight.None? then computed else l.savedHeight.value
  }

  /** `vfunc_allocate`: the allocated width and height are saved as both minimum and natural size. */
  function Allocate(l: Layout, width: int, height: int): (r: Layout)
    ensures r.frozen == l.frozen
    ensures r.savedWidth == Some((width, width)) && r.savedHeight == Some((height, height))
  {
    l.(savedWidth := Some((width, width)), savedHeight := Some((height, height)))
  }

  /** A new layout reports the computed size, frozen or not. */
  lemma NewLayoutComputes(v: bool, computedWidth: (int, int), computedHeight: (int, int))
    ensures PreferredWidth(SetFrozen(NewLayout, v).0, computedWidth) == computedWidth
    ensures PreferredHeight(SetFrozen(NewLayout, v).0, computedHeight) == computedHeight
  {
  }

  /**
    Once allocated and then frozen, the layout keeps reporting the
    allocation, whatever its contents would now ask for; unfrozen again,
    it reports what is computed.
   */
  lemma FrozenKeepsAllocation(l: Layout, width: int, height: int, computedWidth: (int, int), computedHeight: (int, int))
    ensures var frozen := SetFrozen(Allocate(l, width, height), true).0;
      PreferredWidth(frozen, computedWidth) == (width, width) &&
      PreferredHeight(frozen, computedHeight) == (height, height)
    ensures var thawed := SetFrozen(SetFrozen(Allocate(l, width, height), true).0, false).0;
      PreferredWidth(thawed, computedWidth) == computedWidth &&
      PreferredHeight(thawed, computedHeight) == computedHeight
  {
  }

  // ---------------------------------------------------------------------------
  // The calendar column: today button and frozen layout follow the selected date

  /** The menu's state: the layout of the calendar area and whether the today button reacts to clicks. */
  datatype Menu = Menu(layout: Layout, todayReactive: bool)

  /** A new menu: the button starts unreactive, the layout unfrozen. */
  const NewMenu: Menu := Menu(NewLayout, false)

  /**
    The listeners of `selected-date-changed`: the today button reacts, and
    the layout is frozen, exactly when the selected date is not today. The
    flag says whether a relayout was requested.
   */
  function SelectDate(menu: Menu, date: Date, now: Date): (r: (Menu, bool))
    ensures r.0.todayReactive <==> !IsToday(date, now)
    ensures r.0.layout.frozen <==> !IsToday(date, now)
    ensures r.0.layout.savedWidth == menu.layout.savedWidth && r.0.layout.savedHeight == menu.layout.savedHeight
    ensures r.1 <==> menu.layout.frozen && IsToday(date, now)
  {
    var (layout, relayout) := SetFrozen(menu.layout, !IsToday(date, now));
    (Menu(layout, !IsToday(date, now)), relayout)
  }

  /**
    Opening the menu selects today: the button stops reacting and the
    layout thaws. The today button's click selects the clock's moment in
    the same way.
   */
  function OpenMenu(menu: Menu, now: Date): (r: (Menu, bool))
    ensures !r.0.todayReactive && !r.0.layout.frozen
    ensures r.1 <==> menu.layout.frozen
  {
    SelectDate(menu, now, now)
  }

  /**
    Only the day of a selection matters: two moments of the same day leave
    the menu in the same state, and any moment of the clock's day acts as
    opening the menu does.
   */
  lemma SameDaySameMenu(menu: Menu, a: Date, b: Date, now: Date)
    requires a.year == b.year && a.month == b.month && a.day == b.day
    ensures SelectDate(menu, a, now) == SelectDate(menu, b, now)
    ensures a.year == now.year && a.month == now.month && a.day == now.day ==>
      SelectDate(menu, a, now) == OpenMenu(menu, now)
  {
  }

  /** A run of date selections. */
  function SelectAll(menu: Menu, dates: seq<Date>, now: Date): Menu
    decreases |dates|
  {
    if |dates| == 0 then menu else SelectAll(SelectDate(menu, dates[0], now).0, dates[1..], now)
  }

  /**
    After any run of selections the button reacts exactly when the layout
    is frozen, and both follow the last date selected.
   */
  lemma {:induction false} ReactiveIffFrozen(menu: Menu, dates: seq<Date>, now: Date)
    requires menu.todayReactive == menu.layout.frozen
    ensures var r := SelectAll(menu, dates, now); r.todayReactive == r.layout.frozen
    ensures |dates| > 0 ==> (SelectAll(menu, dates, now).layout.frozen <==> !IsToday(dates[|dates| - 1], now))
    decreases |dates|
  {
    if |dates| > 0 {
      ReactiveIffFrozen(SelectDate(menu, dates[0], now).0, dates[1..], now);
      if |dates| > 1 {
        assert dates[1..][|dates[1..]| - 1] == dates[|dates| - 1];
      }
    }
  }

  // ---------------------------------------------------------------------------
  // The messages indicator

  /** `indexOf`: the first position of `x`, or -1 when it is absent. */
  function IndexOf(s: seq<nat>, x: nat): (r: int)
    ensures -1 <= r < |s|
    ensures r == -1 <==> x !in s
    ensures r >= 0 ==> s[r] == x && forall j :: 0 <= j < r ==> s[j] != x
    decreases |s|
  {
    if |s| == 0 then -1
    else if s[0] == x then 0
    else
      var r := IndexOf(s[1..], x);
      if r == -1 then -1 else r + 1
  }

  /**
    `splice(start, 1)`: a negative start counts from the end (clamped to 0);
    one element is removed at that position, none when it is past the end.
   */
  function SpliceOne(s: seq<nat>, start: int): (r: seq<nat>)
    ensures 0 <= start < |s| ==> r == RemoveAt(s, start)
    ensures start < 0 && |s| > 0 ==> r == RemoveAt(s, if |s| + start < 0 then 0 else |s| + start)
    ensures start >= |s| || |s| == 0 ==> r == s
  {
    var k := if start >= 0 then start else if |s| + start < 0 then 0 else |s| + start;
    if k < |s| then RemoveAt(s, k) else s
  }

  /** `_onSourceAdded`: the source goes at the end. */
  function OnSourceAdded(sources: seq<nat>, source: nat): (r: seq<nat>)
    ensures r == sources + [source]
  {
    sources + [source]
  }

  /** `_onSourceRemoved`: `splice(indexOf(source), 1)`. */
  function OnSourceRemoved(sources: seq<nat>, source: nat): (r: seq<nat>)
    ensures |r| == (if |sources| == 0 then 0 else |sources| - 1)
  {
    SpliceOne(sources, IndexOf(sources, source))
  }

  /** Removing a listed source takes out its first occurrence and keeps the rest in order. */
  lemma RemovePresent(sources: seq<nat>, source: nat)
    requires source in sources
    ensures var i := IndexOf(sources, source);
      OnSourceRemoved(sources, source) == sources[..i] + sources[i + 1..]
    ensures multiset(OnSourceRemoved(sources, source)) == multiset(sources) - multiset{source}
  {
    var i := IndexOf(sources, source);
    assert multiset(OnSourceRemoved(sources, source)) + multiset{sources[i]} == multiset(sources);
  }

  /**
    Removing a source that is not listed takes out the last listed source
    instead (the index -1 counts from the end); an empty list stays empty.
   */
  lemma RemoveAbsent(sources: seq<nat>, source: nat)
    requires source !in sources
    ensures |sources| > 0 ==> OnSourceRemoved(sources, source) == sources[..|sources| - 1]
    ensures |sources| == 0 ==> OnSourceRemoved(sources, source) == []
  {
  }

  /** A source added and then removed leaves the list as it was, if it was not listed before. */
  lemma AddThenRemove(sources: seq<nat>, source: nat)
    requires source !in sources
    ensures OnSourceRemoved(OnSourceAdded(sources, source), source) == sources
  {
    var s := sources + [source];
    assert IndexOf(s, source) == |sources| by {
      assert s[|sources|] == source;
      assert forall j :: 0 <= j < |sources| ==> s[j] == sources[j];
    }
    assert s[..|sources|] == sources;
  }

  /** The unseen counts of the listed sources, added up. */
  function Unseen(sources: seq<nat>, unseen: nat -> int): int
    decreases |sources|
  {
    if |sources| == 0 then 0 else unseen(sources[0]) + Unseen(sources[1..], unseen)
  }

  lemma {:induction false} UnseenAppend(a: seq<nat>, b: seq<nat>, unseen: nat -> int)
    ensures Unseen(a + b, unseen) == Unseen(a, unseen) + Unseen(b, unseen)
    decreases |a|
  {
    if |a| > 0 {
      assert (a + b)[1..] == a[1..] + b;
      UnseenAppend(a[1..], b, unseen);
    } else {
      assert a + b == b;
    }
  }

  /** `_updateCount`: the indicator shows when the unseen messages outnumber those still queued. */
  function UpdateCount(sources: seq<nat>, unseen: nat -> int, queueCount: int): (visible: bool)
    ensures visible <==> Unseen(sources, unseen) > queueCount
  {
    var count := Unseen(sources, unseen) - queueCount;
    count > 0
  }

  /** Adding a source adds its unseen count. */
  lemma CountAfterAdd(sources: seq<nat>, source: nat, unseen: nat -> int)
    ensures Unseen(OnSourceAdded(sources, source), unseen) == Unseen(sources, unseen) + unseen(source)
  {
    UnseenAppend(sources, [source], unseen);
    UnseenSingle(source, unseen);
  }

  /** Removing a listed source takes its unseen count away. */
  lemma {:induction false} CountAfterRemove(sources: seq<nat>, source: nat, unseen: nat -> int)
    requires source in sources
    ensures Unseen(OnSourceRemoved(sources, source), unseen) == Unseen(sources, unseen) - unseen(source)
  {
    var i := IndexOf(sources, source);
    RemovePresent(sources, source);
    var head, tail := sources[..i], sources[i + 1..];
    assert sources == head + [source] + tail;
    UnseenWithout(head, source, tail, unseen);
  }

  /** A source between `head` and `tail` contributes exactly its own count. */
  lemma UnseenWithout(head: seq<nat>, source: nat, tail: seq<nat>, unseen: nat -> int)
    ensures Unseen(head + [source] + tail, unseen) == Unseen(head + tail, unseen) + unseen(source)
  {
    UnseenAppend(head + [source], tail, unseen);
    UnseenAppend(head, [source], unseen);
    UnseenAppend(head, tail, unseen);
    UnseenSingle(source, unseen);
  }

  lemma UnseenSingle(source: nat, unseen: nat -> int)
    ensures Unseen([source], unseen) == unseen(source)
  {
    assert [source][1..] == [];
  }

  /** The constructor: every source already in the tray is added in turn. */
  function AddAll(sources: seq<nat>, tray: seq<nat>): (r: seq<nat>)
    ensures r == sources + tray
    decreases |tray|
  {
    if |tray| == 0 then sources
    else
      assert sources + tray == (sources + [tray[0]]) + tray[1..];
      AddAll(OnSourceAdded(sources, tray[0]), tray[1..])
  }
}
