/**
  The accelerator bookkeeping of the shell's bus service (`GnomeShell`):
  which bus client owns each grabbed key-binding action, and which clients
  are watched so that their grabs can be released when they leave the bus.

  The display is a parameter: the action number it hands out for a grab
  (`NONE` when it refuses), and whether it manages to release an action.
  Watching a bus name is recorded by the name alone.
 */
module Accelerators {
  import opened Common

  /** `Meta.KeyBindingAction.NONE`: the display granted nothing. */
  const NONE: nat := 0

  /**
    `accels` maps a grabbed action to the bus name that grabbed it;
    `grabbers` lists the watched bus names in the order they were first
    watched.
   */
  datatype Grabs = Grabs(accels: map<nat, string>, grabbers: seq<string>)

  const NoGrabs := Grabs(map[], [])

  /** Each watched name is watched once, and every owner of a grab is watched. */
  predicate Valid(g: Grabs) {
    Distinct(g.grabbers) && forall a :: a in g.accels ==> g.accels[a] in g.grabbers
  }

  /**
    `_grabAcceleratorForSender`: when the display grants action `granted`,
    `sender` becomes its owner (replacing any earlier owner) and is watched
    unless it already is; a refused grab changes nothing.
   */
  function Grab(g: Grabs, sender: string, granted: nat): (r: (Grabs, nat))
    ensures r.1 == granted
    ensures granted == NONE ==> r.0 == g
    ensures granted != NONE ==> r.0.accels == g.accels[granted := sender]
    ensures granted != NONE && sender in g.grabbers ==> r.0.grabbers == g.grabbers
    ensures granted != NONE && sender !in g.grabbers ==> r.0.grabbers == g.grabbers + [sender]
  {
    if granted == NONE then (g, NONE)
    else
      var grabbers := if sender in g.grabbers then g.grabbers else g.grabbers + [sender];
      (Grabs(g.accels[granted := sender], grabbers), granted)
  }

  lemma GrabValid(g: Grabs, sender: string, granted: nat)
    requires Valid(g)
    ensures Valid(Grab(g, sender, granted).0)
  {
    var r := Grab(g, sender, granted).0;
    if granted != NONE && sender !in g.grabbers {
      forall i | 0 <= i < |r.grabbers| ensures multiset(r.grabbers)[r.grabbers[i]] <= 1 {
        if i < |g.grabbers| {
          assert r.grabbers[i] == g.grabbers[i];
          assert r.grabbers[i] != sender;
        }
      }
    }
  }

  /** A name is watched once, however many actions it grabs. */
  lemma {:induction false} GrabsWatchOnce(g: Grabs, sender: string, granted: seq<nat>)
    requires Valid(g)
    ensures Valid(GrabAll(g, sender, granted))
    ensures granted != [] && (exists i :: 0 <= i < |granted| && granted[i] != NONE) ==>
      multiset(GrabAll(g, sender, granted).grabbers)[sender] == 1
    decreases |granted|
  {
    if |granted| > 0 {
      var g1 := Grab(g, sender, granted[0]).0;
      GrabValid(g, sender, granted[0]);
      GrabsWatchOnce(g1, sender, granted[1..]);
      var r := GrabAll(g, sender, granted);
      if granted[0] != NONE {
        GrabAllKeepsWatched(g1, sender, granted[1..]);
        DistinctOnce(r.grabbers, sender);
      } else if exists i :: 0 <= i < |granted| && granted[i] != NONE {
        var i :| 0 <= i < |granted| && granted[i] != NONE;
        assert granted[1..][i - 1] != NONE;
      }
    }
  }

  /** `GrabAcceleratorsAsync`: one grab after the other, in request order. */
  function GrabAll(g: Grabs, sender: string, granted: seq<nat>): (r: Grabs)
    ensures forall a :: a in g.accels && a !in granted ==> a in r.accels && r.accels[a] == g.accels[a]
    ensures forall a :: a in granted && a != NONE ==> a in r.accels && r.accels[a] == sender
    ensures r.accels.Keys == g.accels.Keys + (set a | a in granted && a != NONE)
    decreases |granted|
  {
    if |granted| == 0 then g
    else
      assert forall a :: a in granted <==> a == granted[0] || a in granted[1..];
      GrabAll(Grab(g, sender, granted[0]).0, sender, granted[1..])
  }

  /** Grabbing never unwatches a name. */
  lemma {:induction false} GrabAllKeepsWatched(g: Grabs, sender: string, granted: seq<nat>)
    ensures forall n :: n in g.grabbers ==> n in GrabAll(g, sender, granted).grabbers
    decreases |granted|
  {
    if |granted| > 0 {
      GrabAllKeepsWatched(Grab(g, sender, granted[0]).0, sender, granted[1..]);
    }
  }

  /**
    `_ungrabAccelerator`: the entry is removed exactly when the display
    releases the action, and the result says whether it did.
   */
  function Ungrab(g: Grabs, action: nat, released: bool): (r: (Grabs, bool))
    ensures r.1 == released
    ensures r.0.grabbers == g.grabbers
    ensures released ==> r.0.accels == g.accels - {action}
    ensures !released ==> r.0 == g
  {
    if released then (g.(accels := g.accels - {action}), true) else (g, false)
  }

  /**
    `_ungrabAcceleratorForSender`: only the recorded owner may release an
    action; anyone else (or any caller, for an action nobody holds) gets
    false and nothing changes.
   */
  function UngrabForSender(g: Grabs, action: nat, sender: string, released: bool): (r: (Grabs, bool))
    ensures !(action in g.accels && g.accels[action] == sender) ==> r == (g, false)
    ensures action in g.accels && g.accels[action] == sender ==> r == Ungrab(g, action, released)
    ensures r.1 <==> action in g.accels && g.accels[action] == sender && released
  {
    if action !in g.accels || g.accels[action] != sender then (g, false)
    else Ungrab(g, action, released)
  }

  lemma UngrabForSenderValid(g: Grabs, action: nat, sender: string, released: bool)
    requires Valid(g)
    ensures Valid(UngrabForSender(g, action, sender, released).0)
  {
  }

  /** A name that grabs an action and then releases it, with the display's consent, leaves the action free. */
  lemma GrabThenUngrab(g: Grabs, sender: string, granted: nat)
    requires granted != NONE
    ensures var r := UngrabForSender(Grab(g, sender, granted).0, granted, sender, true);
      r.1 && granted !in r.0.accels && r.0.accels == g.accels - {granted}
  {
  }

  /** After a grab, a different name cannot release the action. */
  lemma OthersCannotUngrab(g: Grabs, sender: string, other: string, granted: nat, released: bool)
    requires granted != NONE && other != sender
    ensures var g1 := Grab(g, sender, granted).0;
      UngrabForSender(g1, granted, other, released) == (g1, false)
  {
  }

  /** The actions the bulk release removes: those `sender` owns, appear in the list, and the display releases. */
  function ReleasedBy(g: Grabs, actions: seq<nat>, sender: string, release: nat -> bool): (r: set<nat>)
    ensures forall a :: a in r <==> a in actions && a in g.accels && g.accels[a] == sender && release(a)
  {
    set a | a in actions && a in g.accels && g.accels[a] == sender && release(a)
  }

  /** Every action of the list is owned by `sender`, released, and listed once. */
  predicate AllReleased(g: Grabs, actions: seq<nat>, sender: string, release: nat -> bool) {
    Distinct(actions) &&
    forall i :: 0 <= i < |actions| ==> actions[i] in g.accels && g.accels[actions[i]] == sender && release(actions[i])
  }

  /**
    `UngrabAcceleratorsAsync`: every action is tried, with no stop at the
    first failure, and the answer is the conjunction of the single
    answers. An action listed twice fails the second time, since it is
    already gone.
   */
  method UngrabMany(g: Grabs, actions: seq<nat>, sender: string, release: nat -> bool) returns (r: Grabs, ok: bool)
    ensures r.grabbers == g.grabbers
    ensures r.accels == g.accels - ReleasedBy(g, actions, sender, release)
    ensures ok <==> AllReleased(g, actions, sender, release)
  {
    r, ok := g, true;
    var i := 0;
    while i < |actions|
      invariant 0 <= i <= |actions|
      invariant r.grabbers == g.grabbers
      invariant r.accels == g.accels - ReleasedBy(g, actions[..i], sender, release)
      invariant ok <==> AllReleased(g, actions[..i], sender, release)
    {
      var a := actions[i];
      var step := UngrabForSender(r, a, sender, release(a));
      UngrabStep(g, actions, i, sender, release, r, ok);
      r := step.0;
      ok := ok && step.1;
      i := i + 1;
    }
    assert actions[..|actions|] == actions;
  }

  /** One turn of the bulk release loop keeps its invariant. */
  lemma UngrabStep(g: Grabs, actions: seq<nat>, i: nat, sender: string, release: nat -> bool, r: Grabs, ok: bool)
    requires i < |actions|
    requires r.accels == g.accels - ReleasedBy(g, actions[..i], sender, release)
    requires ok <==> AllReleased(g, actions[..i], sender, release)
    ensures var step := UngrabForSender(r, actions[i], sender, release(actions[i]));
      && step.0.accels == g.accels - ReleasedBy(g, actions[..i + 1], sender, release)
      && (ok && step.1 <==> AllReleased(g, actions[..i + 1], sender, release))
  {
    var a := actions[i];
    var pre := actions[..i];
    assert actions[..i + 1] == pre + [a];
    ReleasedBySnoc(g, pre, a, sender, release);
    AllReleasedSnoc(g, pre, a, sender, release);
  }

  /** Trying one more action adds it to the released set exactly when `sender` owns it and the display lets go. */
  lemma ReleasedBySnoc(g: Grabs, pre: seq<nat>, a: nat, sender: string, release: nat -> bool)
    ensures var owned := a in g.accels && g.accels[a] == sender && release(a);
      ReleasedBy(g, pre + [a], sender, release) == ReleasedBy(g, pre, sender, release) + (if owned then {a} else {})
  {
  }

  /** The whole list is released once more exactly when the new action is owned, released, and not listed before. */
  lemma AllReleasedSnoc(g: Grabs, pre: seq<nat>, a: nat, sender: string, release: nat -> bool)
    ensures var owned := a in g.accels && g.accels[a] == sender && release(a);
      AllReleased(g, pre + [a], sender, release) <==> AllReleased(g, pre, sender, release) && owned && a !in pre
  {
    var post := pre + [a];
    DistinctSnoc(pre, a);
    assert forall j :: 0 <= j < |pre| ==> post[j] == pre[j];
    assert post[|pre|] == a;
  }

  /**
    `_onGrabberBusNameVanished`: every action the vanished name owns is
    released (those the display fails to release stay recorded), and the
    name is no longer watched. Other names' grabs are untouched.
   */
  function Vanish(g: Grabs, name: string, release: nat -> bool): (r: Grabs)
    ensures forall a :: a in r.accels <==> a in g.accels && !(g.accels[a] == name && release(a))
    ensures forall a :: a in r.accels ==> r.accels[a] == g.accels[a]
    ensures name !in r.grabbers
    ensures forall n :: n in r.grabbers <==> n in g.grabbers && n != name
  {
    var accels := map a | a in g.accels && !(g.accels[a] == name && release(a)) :: g.accels[a];
    var grabbers := Filter(g.grabbers, n => n != name);
    FilterMembers(g.grabbers, n => n != name);
    Grabs(accels, grabbers)
  }

  lemma VanishValid(g: Grabs, name: string, release: nat -> bool)
    requires Valid(g)
    requires forall a :: a in g.accels && g.accels[a] == name ==> release(a)
    ensures Valid(Vanish(g, name, release))
  {
    var r := Vanish(g, name, release);
    FilterIsSubsequence(g.grabbers, n => n != name);
    SubsequenceDistinct(r.grabbers, g.grabbers);
  }

  /** A subsequence of a repeat-free list is repeat-free. */
  lemma {:induction false} SubsequenceDistinct<T>(a: seq<T>, b: seq<T>)
    requires IsSubsequence(a, b) && Distinct(b)
    ensures Distinct(a)
    decreases |b|
  {
    if |a| > 0 {
      assert b == [b[0]] + b[1..];
      assert Distinct(b[1..]) by {
        DistinctCons(b[0], b[1..]);
      }
      DistinctCons(b[0], b[1..]);
      if a[0] == b[0] && IsSubsequence(a[1..], b[1..]) {
        SubsequenceDistinct(a[1..], b[1..]);
        SubsequenceMembers(a[1..], b[1..]);
        assert a == [a[0]] + a[1..];
        DistinctCons(a[0], a[1..]);
      } else {
        SubsequenceDistinct(a, b[1..]);
      }
    }
  }

  /**
    `_emitAcceleratorActivated`: the activation goes to the recorded owner
    only; an action nobody holds (or held under an empty name, which
    JavaScript treats as false) is dropped.
   */
  function Route(g: Grabs, action: nat): (r: Option<string>)
    ensures r.Some? <==> action in g.accels && g.accels[action] != ""
    ensures r.Some? ==> r.value == g.accels[action]
  {
    if action in g.accels && g.accels[action] != "" then Some(g.accels[action]) else None
  }

  /** After a successful grab by a non-empty name, activations of the action go to that name. */
  lemma GrabThenRoute(g: Grabs, sender: string, granted: nat)
    requires granted != NONE && sender != ""
    ensures Route(Grab(g, sender, granted).0, granted) == Some(sender)
  {
  }

  /** Once a name has vanished and its actions are released, no activation is routed to it. */
  lemma VanishStopsRouting(g: Grabs, name: string, release: nat -> bool, action: nat)
    requires forall a :: a in g.accels && g.accels[a] == name ==> release(a)
    ensures Route(Vanish(g, name, release), action) != Some(name)
  {
  }
}
