/**
  The media-player indicator: the registry of MPRIS players keyed by bus
  name (`Media`), each player's track state and decisions (`MprisPlayer`),
  and the panel button's reactions (`MediaState`).

  The bus, the application system and the windows are values: the names
  and owners the bus reports, the player's metadata and capability flags,
  and what looking up the player's desktop entry finds.
 */
module Mpris {
  import opened Common

  const PlayerPrefix := "org.mpris.MediaPlayer2."

  const UnknownArtist := "Unknown artist"
  const UnknownTitle := "Unknown title"

  /** Mouse buttons: Clutter's primary, middle and secondary, and the two extra buttons. */
  const ButtonPrimary: nat := 1
  const ButtonMiddle: nat := 2
  const ButtonSecondary: nat := 3
  const ButtonPrev: nat := 8
  const ButtonNext: nat := 9

  /** The panel button of one player: `state` is never set, `shown` is its visibility. */
  datatype MediaState = MediaState(state: bool, shown: bool, iconName: string, connected: bool)

  /** What a player remembers. */
  datatype Player = Player(visible: bool, artists: seq<string>, title: string, coverUrl: string, iconName: Option<string>)

  /** A registered player and its panel button. */
  datatype Entry = Entry(player: Player, button: MediaState)

  /** A new player: not visible, no track, no icon. */
  const NewPlayer := Player(false, [], "", "", None)

  /** The panel button as `_init` builds it before its first update: hidden, with the default icon, `changed` connected. */
  const HiddenButton := MediaState(false, false, "multimedia-player-symbolic", true)

  // ---------------------------------------------------------------------------
  // The registry
  // ---------------------------------------------------------------------------

  predicate IsPlayerName(name: string) {
    IsPrefix(PlayerPrefix, name)
  }

  /**
    `new MediaState(new MprisPlayer(busName))`: the button is hidden and
    then updated once, so it is shown, with the icon the getter finds
    through the desktop entry the bus reports for the player at that
    moment; the player remembers what the getter found.
   */
  function NewEntry(desktopEntry: string, lookup: string -> Lookup): (r: Entry)
    ensures r.button.shown && !r.button.state && r.button.connected
    ensures r.player.(iconName := None) == NewPlayer
    ensures r.player.iconName.Some? <==> desktopEntry != "" && lookup(desktopEntry + ".desktop").Info? &&
                                         lookup(desktopEntry + ".desktop").icon.Some?
    ensures r.player.iconName.Some? ==> r.player.iconName == lookup(desktopEntry + ".desktop").icon
    ensures r.button.iconName == (if r.player.iconName.Some? && r.player.iconName.value != ""
                                  then r.player.iconName.value + "-symbolic" else HiddenButton.iconName)
  {
    var got := Icon(NewPlayer, desktopEntry, lookup);
    Entry(got.0, Update(HiddenButton, got.1))
  }

  /**
    `_addPlayer`: a name already registered keeps its entry; a new one gets
    a fresh entry, built with the desktop entry `desktopOf` reports for it.
   */
  function AddPlayer(players: map<string, Entry>, name: string, desktopOf: string -> string,
                     lookup: string -> Lookup): (r: map<string, Entry>)
    ensures name in r && r.Keys == players.Keys + {name}
    ensures name in players ==> r == players
    ensures name !in players ==> r[name] == NewEntry(desktopOf(name), lookup) && r[name].button.shown
    ensures forall n :: n in players ==> r[n] == players[n]
  {
    if name in players then players else players[name := NewEntry(desktopOf(name), lookup)]
  }

  /** Adding twice equals adding once, whatever the bus reports the second time. */
  lemma AddPlayerIdempotent(players: map<string, Entry>, name: string, desktopOf: string -> string,
                            lookup: string -> Lookup, desktopOf2: string -> string, lookup2: string -> Lookup)
    ensures AddPlayer(AddPlayer(players, name, desktopOf, lookup), name, desktopOf2, lookup2)
         == AddPlayer(players, name, desktopOf, lookup)
  {
  }

  /** The initial listing: every listed name with the player prefix is added, in order. */
  function AddListed(players: map<string, Entry>, names: seq<string>, desktopOf: string -> string,
                     lookup: string -> Lookup): (r: map<string, Entry>)
    ensures r.Keys == players.Keys + set n | n in names && IsPlayerName(n)
    ensures forall n :: n in players ==> r[n] == players[n]
    ensures forall n :: n in r && n !in players ==> r[n] == NewEntry(desktopOf(n), lookup)
    decreases |names|
  {
    if |names| == 0 then players
    else
      var next := if IsPlayerName(names[0]) then AddPlayer(players, names[0], desktopOf, lookup) else players;
      assert forall n :: n in names <==> n == names[0] || n in names[1..];
      AddListed(next, names[1..], desktopOf, lookup)
  }

  /**
    `_onNameOwnerChanged`: a player name that gains an owner (a non-empty
    new owner and an empty old one) is added; nothing else changes the
    registry.
   */
  function NameOwnerChanged(players: map<string, Entry>, name: string, oldOwner: string, newOwner: string,
                            desktopOf: string -> string, lookup: string -> Lookup): (r: map<string, Entry>)
    ensures IsPlayerName(name) && newOwner != "" && oldOwner == "" ==> r == AddPlayer(players, name, desktopOf, lookup)
    ensures !(IsPlayerName(name) && newOwner != "" && oldOwner == "") ==> r == players
  {
    if !IsPlayerName(name) then players
    else if newOwner != "" && oldOwner == "" then AddPlayer(players, name, desktopOf, lookup)
    else players
  }

  /** A player that loses its owner, or changes owner, is not added again. */
  lemma OwnerChangeKeepsRegistry(players: map<string, Entry>, name: string, oldOwner: string, newOwner: string,
                                 desktopOf: string -> string, lookup: string -> Lookup)
    requires oldOwner != ""
    ensures NameOwnerChanged(players, name, oldOwner, newOwner, desktopOf, lookup) == players
  {
  }

  /** The `closed` handler: the player's entry is destroyed and removed. */
  function Closed(players: map<string, Entry>, name: string): (r: map<string, Entry>)
    ensures r.Keys == players.Keys - {name}
    ensures forall n :: n in r ==> r[n] == players[n]
  {
    players - {name}
  }

  /** Adding a player and then closing it leaves the registry as it was, for a name not yet registered. */
  lemma AddThenClose(players: map<string, Entry>, name: string, desktopOf: string -> string, lookup: string -> Lookup)
    requires name !in players
    ensures Closed(AddPlayer(players, name, desktopOf, lookup), name) == players
  {
  }

  /** `destroy`: every entry is destroyed and the registry is emptied. */
  function DestroyAll(players: map<string, Entry>): (r: map<string, Entry>)
    ensures |r| == 0
  {
    map[]
  }

  /** After `destroy`, a player that appears again gets a fresh entry: nothing of its old one survives. */
  lemma DestroyThenAdd(players: map<string, Entry>, name: string, desktopOf: string -> string, lookup: string -> Lookup)
    ensures AddPlayer(DestroyAll(players), name, desktopOf, lookup) == map[name := NewEntry(desktopOf(name), lookup)]
  {
  }

  // ---------------------------------------------------------------------------
  // A player
  // ---------------------------------------------------------------------------

  /** What `_updateState` announces. */
  datatype Signal = Changed | Show | Close

  /**
    `_updateState`: the track fields take the metadata, with defaults for
    what is missing (JavaScript `||`: an empty title also gets the
    default); `changed` is announced; then a change of `CanPlay` shows the
    player (false to true) or closes it (true to false).
   */
  function UpdateState(p: Player, artist: Option<seq<string>>, title: Option<string>, artUrl: Option<string>,
                       canPlay: bool): (r: (Player, seq<Signal>))
    ensures r.0.artists == (if artist.Some? then artist.value else [UnknownArtist])
    ensures r.0.title == (if title.Some? && title.value != "" then title.value else UnknownTitle)
    ensures r.0.coverUrl == (if artUrl.Some? then artUrl.value else "")
    ensures r.0.visible == canPlay && r.0.iconName == p.iconName
    ensures |r.1| >= 1 && r.1[0] == Changed
    ensures p.visible == canPlay ==> r.1 == [Changed]
    ensures !p.visible && canPlay ==> r.1 == [Changed, Show]
    ensures p.visible && !canPlay ==> r.1 == [Changed, Close]
  {
    var artists := if artist.Some? then artist.value else [UnknownArtist];
    var t := if title.Some? && title.value != "" then title.value else UnknownTitle;
    var url := if artUrl.Some? then artUrl.value else "";
    var q := p.(artists := artists, title := t, coverUrl := url);
    if p.visible == canPlay then (q, [Changed])
    else (q.(visible := canPlay), [Changed, if canPlay then Show else Close])
  }

  /** A second update with the same `CanPlay` announces only `changed`. */
  lemma UpdateStateEdgesOnce(p: Player, artist: Option<seq<string>>, title: Option<string>, artUrl: Option<string>,
                             canPlay: bool)
    ensures var first := UpdateState(p, artist, title, artUrl, canPlay).0;
      UpdateState(first, artist, title, artUrl, canPlay).1 == [Changed]
  {
  }

  /** What looking up the desktop entry finds: no application, one without app info, or its icon field. */
  datatype Lookup = NoApp | NoInfo | Info(icon: Option<string>)

  /**
    The `icon` getter: a remembered non-empty icon name is returned at
    once; otherwise the desktop entry is looked up, and an icon found in
    the app info is remembered.
   */
  function Icon(p: Player, desktopEntry: string, lookup: string -> Lookup): (r: (Player, Option<string>))
    ensures p.iconName.Some? && p.iconName.value != "" ==> r == (p, p.iconName)
    ensures !(p.iconName.Some? && p.iconName.value != "") && desktopEntry == "" ==> r == (p, None)
    ensures !(p.iconName.Some? && p.iconName.value != "") && desktopEntry != "" && lookup(desktopEntry + ".desktop").Info? ==>
      r.0 == p.(iconName := lookup(desktopEntry + ".desktop").icon) && r.1 == r.0.iconName
    ensures !(p.iconName.Some? && p.iconName.value != "") && desktopEntry != "" && !lookup(desktopEntry + ".desktop").Info? ==>
      r == (p, None)
  {
    if p.iconName.Some? && p.iconName.value != "" then (p, p.iconName)
    else if desktopEntry == "" then (p, None)
    else match lookup(desktopEntry + ".desktop")
      case NoApp => (p, None)
      case NoInfo => (p, None)
      case Info(icon) => (p.(iconName := icon), icon)
  }

  /** Once an icon is found, later reads return it whatever the lookup now finds. */
  lemma IconCached(p: Player, desktopEntry: string, lookup: string -> Lookup, entry2: string, lookup2: string -> Lookup)
    ensures var first := Icon(p, desktopEntry, lookup);
      first.1.Some? && first.1.value != "" ==> Icon(first.0, entry2, lookup2) == (first.0, first.1)
  {
  }

  /**
    A property update as the registry sees it: the player's state is
    updated and `changed` runs the button's `_update`, which reads the
    `icon` getter (so a found icon is remembered by the player and shown
    on the button); a player that closes is removed.
   */
  function PlayerUpdated(players: map<string, Entry>, name: string, artist: Option<seq<string>>, title: Option<string>,
                         artUrl: Option<string>, canPlay: bool, desktopEntry: string, lookup: string -> Lookup)
    : (r: map<string, Entry>)
    requires name in players
    ensures players[name].player.visible && !canPlay ==> r == Closed(players, name)
    ensures !(players[name].player.visible && !canPlay) ==>
      var u := UpdateState(players[name].player, artist, title, artUrl, canPlay).0;
      var got := Icon(u, desktopEntry, lookup);
      r.Keys == players.Keys && (forall n :: n in r && n != name ==> r[n] == players[n]) &&
      r[name] == Entry(got.0, Update(players[name].button, got.1)) &&
      r[name].player.(iconName := u.iconName) == u
  {
    var e := players[name];
    var u := UpdateState(e.player, artist, title, artUrl, canPlay);
    if Close in u.1 then Closed(players, name)
    else
      var got := Icon(u.0, desktopEntry, lookup);
      players[name := Entry(got.0, Update(e.button, got.1))]
  }

  /**
    Once a player has found its icon, every later update that keeps it
    shows that icon on the button, whatever the desktop entry or the
    application system now report.
   */
  lemma PlayerUpdatedKeepsIcon(players: map<string, Entry>, name: string, artist: Option<seq<string>>,
                               title: Option<string>, artUrl: Option<string>, canPlay: bool, desktopEntry: string,
                               lookup: string -> Lookup)
    requires name in players && !players[name].button.state
    requires players[name].player.iconName.Some? && players[name].player.iconName.value != ""
    requires !(players[name].player.visible && !canPlay)
    ensures var r := PlayerUpdated(players, name, artist, title, artUrl, canPlay, desktopEntry, lookup);
      name in r && r[name].player.iconName == players[name].player.iconName &&
      r[name].button.shown && r[name].button.iconName == players[name].player.iconName.value + "-symbolic"
  {
  }

  /** A window of the player's application. */
  datatype Window = Window(showingOnWorkspace: bool)

  /** The player's application, if the desktop entry names one. */
  datatype App = App(running: bool, windows: seq<Window>)

  /** What raising the player does. */
  datatype RaiseAction = ActivateApp | CloseFirstWindow | ActivateFirstWindow | RemoteRaise | NoRaise

  /**
    `_toggleWin`: an application that is not running or has no windows is
    activated; otherwise its first window is closed if it is showing on
    its workspace and activated if not.
   */
  function ToggleWin(app: App): (r: RaiseAction)
    ensures !app.running || |app.windows| == 0 ==> r == ActivateApp
    ensures app.running && |app.windows| > 0 ==>
      r == (if app.windows[0].showingOnWorkspace then CloseFirstWindow else ActivateFirstWindow)
  {
    if !app.running then ActivateApp
    else if |app.windows| == 0 then ActivateApp
    else if app.windows[0].showingOnWorkspace then CloseFirstWindow
    else ActivateFirstWindow
  }

  /**
    `raise`: the application found through the desktop entry is toggled;
    only without one does the player's own Raise run, and only when it can.
   */
  function Raise(desktopEntry: string, canRaise: bool, lookupApp: string -> Option<App>): (r: RaiseAction)
    ensures r == RemoteRaise <==> (desktopEntry == "" || lookupApp(desktopEntry + ".desktop").None?) && canRaise
    ensures r == NoRaise <==> (desktopEntry == "" || lookupApp(desktopEntry + ".desktop").None?) && !canRaise
    ensures desktopEntry != "" && lookupApp(desktopEntry + ".desktop").Some? ==>
      r == ToggleWin(lookupApp(desktopEntry + ".desktop").value)
  {
    var app := if desktopEntry != "" then lookupApp(desktopEntry + ".desktop") else None;
    match app
    case Some(a) => ToggleWin(a)
    case None => if canRaise then RemoteRaise else NoRaise
  }

  /** Toggling twice on a running application alternates closing and activating its first window. */
  lemma ToggleWinAlternates(app: App)
    requires app.running && |app.windows| > 0
    ensures ToggleWin(app) != ToggleWin(app.(windows := [Window(!app.windows[0].showingOnWorkspace)] + app.windows[1..]))
  {
  }

  /** `quit`: the player's Quit is called exactly when it can quit. */
  function Quit(canQuit: bool): (called: bool)
    ensures called <==> canQuit
  {
    canQuit
  }

  /** The player's remote methods that the menu and the button call. */
  datatype Remote = PlayRemote | PauseRemote | StopRemote | PreviousRemote | NextRemote | PlayPauseRemote | QuitRemote

  /** The items of the button's menu, in the order `_init` adds them. */
  datatype MenuItem = MenuPlay | MenuPause | MenuStop | MenuPrevious | MenuNext | MenuQuit

  const MenuItems: seq<MenuItem> := [MenuPlay, MenuPause, MenuStop, MenuPrevious, MenuNext, MenuQuit]

  /** Activating a menu item: each calls its remote method; Quit only when the player can quit. */
  function MenuActivate(item: MenuItem, canQuit: bool): (r: Option<Remote>)
    ensures item != MenuQuit ==> r.Some? && r.value != QuitRemote && r.value != PlayPauseRemote
    ensures r == Some(QuitRemote) <==> item == MenuQuit && Quit(canQuit)
    ensures r.None? <==> item == MenuQuit && !canQuit
  {
    match item
    case MenuPlay => Some(PlayRemote)
    case MenuPause => Some(PauseRemote)
    case MenuStop => Some(StopRemote)
    case MenuPrevious => Some(PreviousRemote)
    case MenuNext => Some(NextRemote)
    case MenuQuit => if Quit(canQuit) then Some(QuitRemote) else None
  }

  /** The remote method a dispatched press calls directly; raising and the menu toggle are not remote calls here. */
  function PressRemote(a: ButtonAction): (r: Option<Remote>)
    ensures r.Some? <==> a in {PlayPause, Previous, Next}
    ensures r.Some? ==> r.value in {PlayPauseRemote, PreviousRemote, NextRemote}
  {
    match a
    case PlayPause => Some(PlayPauseRemote)
    case Previous => Some(PreviousRemote)
    case Next => Some(NextRemote)
    case _ => None
  }

  /**
    The extra mouse buttons do what the menu's Previous and Next items do,
    and no press on the panel button quits or stops the player: only the
    menu can.
   */
  lemma ButtonsAgreeWithMenu(ready: bool, button: nat, canQuit: bool)
    ensures PressRemote(OnEvent(true, true, ButtonPrev)) == MenuActivate(MenuPrevious, canQuit)
    ensures PressRemote(OnEvent(true, true, ButtonNext)) == MenuActivate(MenuNext, canQuit)
    ensures PressRemote(OnEvent(ready, true, button)) !in {Some(QuitRemote), Some(StopRemote)}
    ensures PressRemote(OnEvent(ready, true, button)).Some? <==> ready && button in {ButtonMiddle, ButtonPrev, ButtonNext}
  {
  }

  // ---------------------------------------------------------------------------
  // The panel button
  // ---------------------------------------------------------------------------

  /** What a mouse event on the panel button does. */
  datatype ButtonAction = RaisePlayer | PlayPause | ToggleMenu | Previous | Next | Ignore

  /**
    `_onEvent`: nothing happens without a menu and a player, or for an
    event that is not a button press; a press is dispatched on the button.
   */
  function OnEvent(ready: bool, isPress: bool, button: nat): (r: ButtonAction)
    ensures !ready || !isPress ==> r == Ignore
    ensures ready && isPress ==> r == ButtonMap(button)
  {
    if !ready || !isPress then Ignore else ButtonMap(button)
  }

  /** The press dispatch: primary raises, middle toggles play, secondary opens the menu, 8 and 9 skip. */
  function ButtonMap(button: nat): (r: ButtonAction)
    ensures r == RaisePlayer <==> button == ButtonPrimary
    ensures r == PlayPause <==> button == ButtonMiddle
    ensures r == ToggleMenu <==> button == ButtonSecondary
    ensures r == Previous <==> button == ButtonPrev
    ensures r == Next <==> button == ButtonNext
    ensures r == Ignore <==> button !in {ButtonPrimary, ButtonMiddle, ButtonSecondary, ButtonPrev, ButtonNext}
  {
    if button == ButtonPrimary then RaisePlayer
    else if button == ButtonMiddle then PlayPause
    else if button == ButtonSecondary then ToggleMenu
    else if button == ButtonPrev then Previous
    else if button == ButtonNext then Next
    else Ignore
  }

  /**
    `_update`: while `state` is unset, a non-empty player icon is taken
    (with the `-symbolic` suffix) and the button is shown.
   */
  function Update(b: MediaState, icon: Option<string>): (r: MediaState)
    ensures b.state ==> r == b
    ensures !b.state ==> r.shown && r.state == b.state && r.connected == b.connected
    ensures !b.state && icon.Some? && icon.value != "" ==> r.iconName == icon.value + "-symbolic"
    ensures !b.state && !(icon.Some? && icon.value != "") ==> r.iconName == b.iconName
  {
    if b.state then b
    else
      var named := if icon.Some? && icon.value != "" then b.(iconName := icon.value + "-symbolic") else b;
      named.(shown := true)
  }

  /** `_close`: the button hides only when `state` is set. */
  function CloseButton(b: MediaState): (r: MediaState)
    ensures b.state ==> r == b.(shown := false)
    ensures !b.state ==> r == b
  {
    if !b.state then b else b.(shown := false)
  }

  /** `destroy` of the button: the `changed` handler is disconnected once. */
  function DestroyButton(b: MediaState): (r: MediaState)
    ensures !r.connected && r.(connected := b.connected) == b
  {
    b.(connected := false)
  }

  /** The button operations that can follow its construction. */
  datatype ButtonOp = OpUpdate(icon: Option<string>) | OpClose | OpDestroy

  function RunButton(b: MediaState, ops: seq<ButtonOp>): (r: MediaState)
    ensures r.state == b.state
    decreases |ops|
  {
    if |ops| == 0 then b
    else
      var next := match ops[0]
        case OpUpdate(icon) => Update(b, icon)
        case OpClose => CloseButton(b)
        case OpDestroy => DestroyButton(b);
      RunButton(next, ops[1..])
  }

  /**
    Nothing sets `state`, so a shown button stays shown whatever follows:
    `_update` always shows it and `_close` never hides it.
   */
  lemma {:induction false} ButtonNeverHides(b: MediaState, ops: seq<ButtonOp>)
    requires !b.state && b.shown
    ensures RunButton(b, ops).shown
    decreases |ops|
  {
    if |ops| > 0 {
      var next := match ops[0]
        case OpUpdate(icon) => Update(b, icon)
        case OpClose => CloseButton(b)
        case OpDestroy => DestroyButton(b);
      ButtonNeverHides(next, ops[1..]);
    }
  }

  /** A new entry's button is shown and stays shown whatever the button receives afterwards. */
  lemma NewEntryStaysShown(desktopEntry: string, lookup: string -> Lookup, ops: seq<ButtonOp>)
    ensures RunButton(NewEntry(desktopEntry, lookup).button, ops).shown
  {
    ButtonNeverHides(NewEntry(desktopEntry, lookup).button, ops);
  }
}
