/**
  The shell's input method: the gate that decides whether key events go
  to the input-method engine. It follows the input-source manager's
  current source through the manager's `current-source-changed` signal,
  remembers the focused client, and is switched off for good by `_clear`.

  A session pairs the manager with the input method connected to it; each
  manager event is applied to the manager, and when the manager announces
  a new current source the input method's handler runs.
 */
module InputMethod {
  import opened Common
  import opened SourceSettings
  import opened SourceTable
  import opened SourceManager

  /** The input method's state: enabled, the focused client (by id), and the source it last heard of. */
  datatype InputMethod = InputMethod(enabled: bool, focus: Option<nat>, source: Option<InputSource>)

  /** `_init`: enabled, nothing focused, and the manager's current source. */
  function Init(m: Manager): (r: InputMethod)
    ensures r.enabled && r.focus.None? && r.source == m.current
  {
    InputMethod(true, None, m.current)
  }

  /** `_onSourceChanged`: take the manager's current source; nothing else changes. */
  function OnSourceChanged(im: InputMethod, m: Manager): (r: InputMethod)
    ensures r.source == m.current
    ensures r.(source := im.source) == im
  {
    im.(source := m.current)
  }

  /** `_clear`: disabled; nothing else changes. */
  function Clear(im: InputMethod): (r: InputMethod)
    ensures !r.enabled
    ensures r.(enabled := im.enabled) == im
  {
    im.(enabled := false)
  }

  /** `vfunc_focus_in`: the client becomes the current focus. */
  function FocusIn(im: InputMethod, focus: nat): (r: InputMethod)
    ensures r.focus == Some(focus)
    ensures r.(focus := im.focus) == im
  {
    im.(focus := Some(focus))
  }

  /** `vfunc_focus_out`: no client is focused any more. */
  function FocusOut(im: InputMethod): (r: InputMethod)
    ensures r.focus.None?
    ensures r.(focus := im.focus) == im
  {
    im.(focus := None)
  }

  /** `vfunc_filter_key_event`: the event goes to the engine exactly when enabled with a current source. */
  function FilterKeyEvent(im: InputMethod): (r: bool)
    ensures r <==> im.enabled && im.source.Some?
  {
    if !im.enabled then false
    else if im.source.None? then false
    else true
  }

  /** A focus change followed by a focus loss leaves no focus and touches nothing else. */
  lemma FocusInThenOut(im: InputMethod, focus: nat)
    ensures FocusOut(FocusIn(im, focus)) == im.(focus := None)
    ensures FilterKeyEvent(FocusOut(FocusIn(im, focus))) == FilterKeyEvent(im)
  {
  }

  // ---------------------------------------------------------------------------
  // A session: the manager and the input method connected to it

  datatype Session = Session(manager: Manager, im: InputMethod)

  /** The events a session goes through. */
  datatype Event =
    | Activated(s: InputSource, win: Option<Window>)
    | SourcesReloaded(keys: seq<SourceKey>, layoutInfo: string -> LayoutInfo, defaultLayout: string,
                      stored: seq<SourceKey>, win: Option<Window>)
    | WindowFocused(win: Option<Window>)
    | PerWindowSettingChanged(perWindow: bool)
    | ModifiersPressed(win: Option<Window>)
    | Cleared
    | ClientFocusIn(client: nat)
    | ClientFocusOut
    | Reset

  /** The session in which the input method has just been created against `m`. */
  function Start(m: Manager): (r: Session)
    ensures r.manager == m && r.im.source == r.manager.current && r.im.enabled
  {
    Session(m, Init(m))
  }

  /**
    The manager after a manager event, and whether it announced a new
    current source: every activation does, a reload always ends with one,
    a window focus does only while the manager tracks focus (the handler is
    connected only then) and the window has a source to restore, and the
    modifier switch does when the table is not empty. A change of the
    per-window setting starts or stops the tracking and announces nothing.
   */
  function ManagerStep(m: Manager, e: Event): (r: (Manager, bool))
    ensures !r.1 ==> r.0.current == m.current
    ensures e.WindowFocused? && !m.tracking ==> r == (m, false)
    ensures e.WindowFocused? && m.tracking ==> r.0 == SetPerWindowInputSource(m, e.win)
    ensures e.PerWindowSettingChanged? ==> !r.1 && r.0 == SourcesPerWindowChanged(m, e.perWindow)
  {
    match e
    case Activated(s, win) => (Activate(m, s, win), true)
    case SourcesReloaded(keys, layoutInfo, defaultLayout, stored, win) =>
      (InputSourcesChanged(m, keys, layoutInfo, defaultLayout, stored, win), true)
    case WindowFocused(win) =>
      if !m.tracking then (m, false)
      else
        var r := SetPerWindowInputSource(m, win);
        (r, win.Some? && r.windows[win.value].current.Some?)
    case PerWindowSettingChanged(perWindow) => (SourcesPerWindowChanged(m, perWindow), false)
    case ModifiersPressed(win) => (ModifiersSwitcher(m, win).0, |m.sources| > 0)
    case _ => (m, false)
  }

  /** One event of the session. */
  function Step(sess: Session, e: Event): (r: Session)
    ensures e.Cleared? ==> !r.im.enabled
    ensures !e.Cleared? ==> r.im.enabled == sess.im.enabled
    ensures e.ClientFocusIn? ==> r.im.focus == Some(e.client)
    ensures e.ClientFocusOut? ==> r.im.focus.None?
    ensures !e.ClientFocusIn? && !e.ClientFocusOut? ==> r.im.focus == sess.im.focus
  {
    match e
    case Cleared => sess.(im := Clear(sess.im))
    case ClientFocusIn(client) => sess.(im := FocusIn(sess.im, client))
    case ClientFocusOut => sess.(im := FocusOut(sess.im))
    case Reset => sess
    case _ =>
      var (m, announced) := ManagerStep(sess.manager, e);
      Session(m, if announced then OnSourceChanged(sess.im, m) else sess.im)
  }

  /** While the manager does not track focus, a focus change leaves the whole session as it was. */
  lemma UntrackedFocusIgnored(sess: Session, win: Option<Window>)
    requires !sess.manager.tracking
    ensures Step(sess, WindowFocused(win)) == sess
  {
  }

  /** The session after a run of events. */
  function Run(sess: Session, events: seq<Event>): Session
    decreases |events|
  {
    if |events| == 0 then sess else Run(Step(sess, events[0]), events[1..])
  }

  /** Each step keeps the input method's source equal to the manager's current source. */
  lemma StepMirrors(sess: Session, e: Event)
    requires sess.im.source == sess.manager.current
    ensures Step(sess, e).im.source == Step(sess, e).manager.current
  {
  }

  /** Over any run of events, the input method's source is the manager's current source. */
  lemma {:induction false} RunMirrors(sess: Session, events: seq<Event>)
    requires sess.im.source == sess.manager.current
    ensures Run(sess, events).im.source == Run(sess, events).manager.current
    decreases |events|
  {
    if |events| > 0 {
      StepMirrors(sess, events[0]);
      RunMirrors(Step(sess, events[0]), events[1..]);
    }
  }

  /** After a run, the input method is enabled exactly when it was and no event cleared it. */
  lemma {:induction false} RunEnabled(sess: Session, events: seq<Event>)
    ensures Run(sess, events).im.enabled <==> sess.im.enabled && forall i :: 0 <= i < |events| ==> !events[i].Cleared?
    decreases |events|
  {
    if |events| > 0 {
      RunEnabled(Step(sess, events[0]), events[1..]);
      assert forall i :: 1 <= i < |events| ==> events[i] == events[1..][i - 1];
    }
  }

  /**
    From the start against any manager, key events go to the engine
    exactly when nothing has cleared the input method and the manager has
    a current source.
   */
  lemma FilterAfterRun(m: Manager, events: seq<Event>)
    ensures var sess := Run(Start(m), events);
      FilterKeyEvent(sess.im) <==>
        (forall i :: 0 <= i < |events| ==> !events[i].Cleared?) && sess.manager.current.Some?
  {
    RunMirrors(Start(m), events);
    RunEnabled(Start(m), events);
  }
}
