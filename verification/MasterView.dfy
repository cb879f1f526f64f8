/** What handling events does to the desktop: safety of the injections, and repair of the master's view. */
module MasterView {
  import opened Broadcaster
  import Capture
  import opened Desktop
  import opened Dispatch
  import opened Geometry
  import opened InputEvents
  import opened KeyStates
  import opened Routing

  // ---- No injection meant for a slave ever lands in another window

  ghost predicate OnTarget(d: Desk) {
    forall k | 0 <= k < |d.injected| && d.injected[k].purpose.ForTarget? ::
      d.injected[k].window == d.injected[k].purpose.window
  }

  lemma InjectAllOnTarget(d: Desk, purpose: Purpose, ps: seq<Payload>)
    requires OnTarget(d) && (purpose.ForTarget? ==> purpose.window == d.foreground)
    ensures OnTarget(InjectAll(d, purpose, ps))
  {
    InjectAllLogs(d, purpose, ps);
  }

  lemma ExecutedOnTarget(e: Surroundings, st: State, a: Action, ev: InputEvent)
    requires OnTarget(st.desk)
    ensures OnTarget(Executed(e, st, a, ev).desk)
  {
    match a
    case Deliver(i, s) =>
      if i < |st.targets| && s.FocusCycle? {
        var (desk, ok) := Bring(e.desktop, st.desk, st.targets[i]);
        if ok {
          InjectAllOnTarget(desk, ForTarget(st.targets[i]), Payloads(e, st, st.targets[i], ev));
        }
      }
    case ReassertHeld => InjectAllOnTarget(st.desk, ForMaster, HeldPayloads(st.keys));
    case _ =>
  }

  lemma {:induction false} ExecutedAllOnTarget(e: Surroundings, st: State, actions: seq<Action>, ev: InputEvent)
    requires OnTarget(st.desk)
    ensures OnTarget(ExecutedAll(e, st, actions, ev).desk)
  {
    if actions != [] {
      ExecutedAllOnTarget(e, st, actions[..|actions| - 1], ev);
      ExecutedOnTarget(e, ExecutedAll(e, st, actions[..|actions| - 1], ev), actions[|actions| - 1], ev);
    }
  }

  /** Over any run, swaps and focus failures included: a focus delivery only ever injects into its own target. */
  lemma {:induction false} InjectionsHitTheirTarget(e: Surroundings, st: State, evs: seq<InputEvent>)
    requires OnTarget(st.desk)
    ensures OnTarget(HandledAll(e, st, evs).desk)
  {
    if evs != [] {
      InjectionsHitTheirTarget(e, st, evs[..|evs| - 1]);
      var before, ev := HandledAll(e, st, evs[..|evs| - 1]), evs[|evs| - 1];
      ExecutedAllOnTarget(e, Started(before, ev), Planned(e, before, ev).actions, ev);
    }
  }

  // ---- What the deliveries of one plan leave behind

  /** Everything but the desktop and the counters. */
  predicate SameSetup(st: State, st': State) {
    st' == st.(desk := st'.desk, deliveries := st'.deliveries, focusFailures := st'.focusFailures, injectFailures := st'.injectFailures,
                 latencies := st'.latencies)
  }

  /** Keys seen by a window may vanish, but the only ones that may appear are in `limit`. */
  ghost predicate KeysWithin(d: Desk, d': Desk, limit: set<nat>) {
    forall h: Hwnd :: KeysOf(d', h) <= KeysOf(d, h) + limit
  }

  lemma PayloadsWithin(e: Surroundings, st: State, h: Hwnd, ev: InputEvent, limit: set<nat>)
    requires ev.kind.KeyDown? ==> ev.vk in limit
    ensures forall p | p in Payloads(e, st, h, ev) :: p.KeyStroke? && p.down ==> p.vk in limit
  {
  }

  lemma DeliveredFacts(e: Surroundings, st: State, i: nat, s: Strategy, ev: InputEvent, limit: set<nat>)
    requires BackgroundSilent(st.desk) && (ev.kind.KeyDown? ==> ev.vk in limit) && i < |st.targets|
    ensures
      var st' := Delivered(e, st, i, s, ev);
      && SameSetup(st, st') && BackgroundSilent(st'.desk) && KeysWithin(st.desk, st'.desk, limit)
      && st'.deliveries + st'.focusFailures == st.deliveries + st.focusFailures + 1
      && (s.WindowMessage? ==> st'.desk == st.desk.(posted := st'.desk.posted))
  {
    if s.FocusCycle? {
      var h := st.targets[i];
      var (desk, ok) := Bring(e.desktop, st.desk, h);
      BringFacts(e.desktop, st.desk, h);
      if ok {
        var ps := Payloads(e, st, h, ev);
        PayloadsWithin(e, st, h, ev, limit);
        InjectAllLogs(desk, ForTarget(h), ps);
        InjectAllKeysWithin(desk, ForTarget(h), ps, limit);
      }
    } else {
      assert forall h :: KeysOf(Delivered(e, st, i, s, ev).desk, h) == KeysOf(st.desk, h);
    }
  }

  ghost predicate DeliveriesFor(st: State, ds: seq<Action>) {
    forall a | a in ds :: a.Deliver? && a.target < |st.targets|
  }

  lemma {:induction false} AllDelivered(e: Surroundings, st: State, ds: seq<Action>, ev: InputEvent, limit: set<nat>)
    requires BackgroundSilent(st.desk) && (ev.kind.KeyDown? ==> ev.vk in limit) && DeliveriesFor(st, ds)
    ensures
      var st' := ExecutedAll(e, st, ds, ev);
      && SameSetup(st, st') && BackgroundSilent(st'.desk) && KeysWithin(st.desk, st'.desk, limit)
      && st'.deliveries + st'.focusFailures == st.deliveries + st.focusFailures + |ds|
      && ((forall a | a in ds :: a.strategy.WindowMessage?) ==> st'.desk == st.desk.(posted := st'.desk.posted))
  {
    if ds != [] {
      var before, last := ds[..|ds| - 1], ds[|ds| - 1];
      assert last in ds && forall a | a in before :: a in ds;
      AllDelivered(e, st, before, ev, limit);
      DeliveredFacts(e, ExecutedAll(e, st, before, ev), last.target, last.strategy, ev, limit);
    }
  }

  lemma SetupAfterOne(e: Surroundings, st: State, a: Action, ev: InputEvent)
    requires !a.SwapMaster?
    ensures SameSetup(st, Executed(e, st, a, ev))
  {
  }

  lemma SetupJoins(a: State, b: State, c: State)
    requires SameSetup(a, b) && SameSetup(b, c)
    ensures SameSetup(a, c)
  {
  }

  /** Nothing but a swap touches the configuration, published or in use. */
  lemma {:induction false} SetupThrough(e: Surroundings, st: State, actions: seq<Action>, ev: InputEvent)
    requires SwapMaster !in actions
    ensures SameSetup(st, ExecutedAll(e, st, actions, ev))
  {
    if actions != [] {
      var before, last := actions[..|actions| - 1], actions[|actions| - 1];
      assert last in actions;
      SetupThrough(e, st, before, ev);
      SetupAfterOne(e, ExecutedAll(e, st, before, ev), last, ev);
      SetupJoins(st, ExecutedAll(e, st, before, ev), ExecutedAll(e, st, actions, ev));
    }
  }

  lemma {:induction false} ExecutedAllConcat(e: Surroundings, st: State, a: seq<Action>, b: seq<Action>, ev: InputEvent)
    ensures ExecutedAll(e, st, a + b, ev) == ExecutedAll(e, ExecutedAll(e, st, a, ev), b, ev)
    decreases |b|
  {
    if b == [] {
      assert a + b == a;
    } else {
      ExecutedAllConcat(e, st, a, b[..|b| - 1], ev);
      assert (a + b)[..|a + b| - 1] == a + b[..|b| - 1];
    }
  }

  // ---- Repair

  /** Re-asserting sends one press for every held key, and nothing else. */
  lemma HeldPayloadsPress(keys: KeyTable)
    ensures forall p | p in HeldPayloads(keys) :: p.KeyStroke? && p.down
    ensures Presses(HeldPayloads(keys)) == Held(keys)
    ensures HeldPayloads(keys) == [] <==> Held(keys) == {}
  {
    var held, ps := HeldInOrder(keys, KEYS), HeldPayloads(keys);
    HeldInOrderIsHeld(keys, KEYS);
    forall vk | vk in Held(keys) ensures vk in Presses(ps) {
      assert HeldKey(vk, keys[vk]) in held;
      var i :| 0 <= i < |held| && held[i] == HeldKey(vk, keys[vk]);
      assert ps[i].vk == vk;
    }
    forall i | 0 <= i < |ps| ensures ps[i].KeyStroke? && ps[i].vk in Held(keys) {
      assert held[i] in held;
    }
    assert ps != [] ==> ps[0].vk in Presses(ps);
  }

  /** Re-asserting presses exactly the held keys, in whatever window is in front. */
  lemma ReassertFollowsForeground(st: State)
    requires BackgroundSilent(st.desk)
    ensures
      var st' := HeldReasserted(st);
      && st'.desk.foreground == st.desk.foreground && BackgroundSilent(st'.desk)
      && KeysOf(st'.desk, st.desk.foreground) == KeysOf(st.desk, st.desk.foreground) + Held(st.keys)
  {
    var ps := HeldPayloads(st.keys);
    HeldPayloadsPress(st.keys);
    InjectAllLogs(st.desk, ForMaster, ps);
    InjectPresses(st.desk, ForMaster, ps);
  }

  /** The state in which a focus cycle restores the focus: after its deliveries and, for pointers, the cursor. */
  function BeforeRestore(e: Surroundings, s: State, actions: seq<Action>, ev: InputEvent): State {
    var tail := if Held(s.keys) != {} then 2 else 1;
    ExecutedAll(e, s, if tail <= |actions| then actions[..|actions| - tail] else actions, ev)
  }

  /** Did bringing the master back succeed when `ev` was handled? */
  predicate RestoreSucceeds(e: Surroundings, st: State, ev: InputEvent) {
    var s := BeforeRestore(e, Started(st, ev), Planned(e, st, ev).actions, ev);
    s.master < |s.targets| && Bring(e.desktop, s.desk, s.targets[s.master]).1
  }

  /** A key event comes from the hook, whose key codes are below 256. */
  predicate FromHook(ev: InputEvent) {
    IsKey(ev.kind) ==> ev.vk < KEYS
  }

  function CursorPart(ev: InputEvent): seq<Action> {
    if IsPointer(ev) then [RestoreCursor] else []
  }

  function ReassertPart(s: State): seq<Action> {
    if Held(s.keys) != {} then [ReassertHeld] else []
  }

  predicate IsCycle(s: State, actions: seq<Action>, ds: seq<Action>, ev: InputEvent) {
    actions == ds + CursorPart(ev) + [RestoreFocus] + ReassertPart(s)
  }

  lemma ExecutedOne(e: Surroundings, st: State, a: Action, ev: InputEvent)
    ensures ExecutedAll(e, st, [a], ev) == Executed(e, st, a, ev)
    ensures ExecutedAll(e, st, [], ev) == st
  {
    assert [a][..0] == [];
  }

  lemma CycleBefore(e: Surroundings, s: State, actions: seq<Action>, ds: seq<Action>, ev: InputEvent)
    requires IsCycle(s, actions, ds, ev)
    ensures BeforeRestore(e, s, actions, ev) == ExecutedAll(e, s, ds + CursorPart(ev), ev)
  {
    assert actions[..|ds + CursorPart(ev)|] == ds + CursorPart(ev);
  }

  /** The end of a focus cycle: restore, and re-assert whatever is held. */
  lemma CycleEnd(e: Surroundings, s: State, actions: seq<Action>, ds: seq<Action>, ev: InputEvent)
    requires IsCycle(s, actions, ds, ev)
    ensures
      var restored := FocusRestored(e, BeforeRestore(e, s, actions, ev));
      && ExecutedAll(e, s, ds + CursorPart(ev) + [RestoreFocus], ev) == restored
      && ExecutedAll(e, s, actions, ev) == if Held(s.keys) != {} then HeldReasserted(restored) else restored
  {
    CycleBefore(e, s, actions, ds, ev);
    var before := ExecutedAll(e, s, ds + CursorPart(ev), ev);
    ExecutedAllConcat(e, s, ds + CursorPart(ev) + [RestoreFocus], ReassertPart(s), ev);
    ExecutedAllConcat(e, s, ds + CursorPart(ev), [RestoreFocus], ev);
    ExecutedOne(e, before, RestoreFocus, ev);
    ExecutedOne(e, FocusRestored(e, before), ReassertHeld, ev);
  }

  /** Up to the restore, windows have at most lost keys, or seen keys that are held. */
  lemma CycleDeliveries(e: Surroundings, s: State, ds: seq<Action>, ev: InputEvent)
    requires DeliveriesFor(s, ds) && BackgroundSilent(s.desk) && (ev.kind.KeyDown? ==> ev.vk in Held(s.keys))
    ensures
      var s' := ExecutedAll(e, s, ds + CursorPart(ev), ev);
      && SameSetup(s, s') && BackgroundSilent(s'.desk) && KeysWithin(s.desk, s'.desk, Held(s.keys))
      && s'.deliveries + s'.focusFailures == s.deliveries + s.focusFailures + |ds|
  {
    AllDelivered(e, s, ds, ev, Held(s.keys));
    ExecutedAllConcat(e, s, ds, CursorPart(ev), ev);
    var s1 := ExecutedAll(e, s, ds, ev);
    ExecutedOne(e, s1, RestoreCursor, ev);
    assert forall h :: KeysOf(Executed(e, s1, RestoreCursor, ev).desk, h) == KeysOf(s1.desk, h);
  }

  /** The master is in front, its game has exactly the keys `seen` down, and no other window has any. */
  ghost predicate Shows(st: State, seen: set<nat>) {
    && st.master < |st.targets|
    && st.desk.foreground == st.targets[st.master]
    && KeysOf(st.desk, st.desk.foreground) == seen
    && BackgroundSilent(st.desk)
  }

  ghost predicate InView(st: State) {
    Shows(st, Held(st.keys))
  }

  // ---- The same about handling an event

  lemma PressedIsHeld(t: KeyTable, ev: InputEvent)
    requires FromHook(ev) && ev.kind.KeyDown?
    ensures ev.vk in Held(Applied(t, ev))
  {
  }

  /** The plan of a focus cycle, taken apart. */
  lemma PlannedCycle(e: Surroundings, st: State, ev: InputEvent) returns (ds: seq<Action>)
    requires CyclesFocus(Planned(e, st, ev).actions)
    ensures IsCycle(Started(st, ev), Planned(e, st, ev).actions, ds, ev) && DeliveriesFor(Started(st, ev), ds)
  {
    var alive := AliveBelow(e.desktop, st.targets, st.desk.clock, MAX_TARGETS);
    ds := CyclePlan(ev, st.routes, alive, st.master, Applied(st.keys, ev), Planned(e, st, ev).actions);
  }

  /** Handling a focus cycle: what holds just before the restore, and how the handling ends. */
  lemma HandledCycle(e: Surroundings, st: State, ev: InputEvent) returns (ds: seq<Action>, before: State)
    requires st.targets != [] && CyclesFocus(Planned(e, st, ev).actions) && FromHook(ev) && BackgroundSilent(st.desk)
    ensures before == BeforeRestore(e, Started(st, ev), Planned(e, st, ev).actions, ev)
    ensures SameSetup(Started(st, ev), before) && BackgroundSilent(before.desk)
    ensures KeysWithin(st.desk, before.desk, Held(before.keys))
    ensures before.deliveries + before.focusFailures == st.deliveries + st.focusFailures + |ds|
    ensures IsCycle(Started(st, ev), Planned(e, st, ev).actions, ds, ev) && forall a | a in ds :: a.Deliver?
    ensures Handled(e, st, ev)
            == if Held(before.keys) != {} then HeldReasserted(FocusRestored(e, before)) else FocusRestored(e, before)
  {
    ds := PlannedCycle(e, st, ev);
    var s, actions := Started(st, ev), Planned(e, st, ev).actions;
    before := BeforeRestore(e, s, actions, ev);
    StartedFacts(st, ev);
    CycleBefore(e, s, actions, ds, ev);
    CycleDeliveries(e, s, ds, ev);
    CycleEnd(e, s, actions, ds, ev);
  }

  lemma CycleCursor(e: Surroundings, s: State, ds: seq<Action>, ev: InputEvent)
    requires IsPointer(ev)
    ensures ExecutedAll(e, s, ds + CursorPart(ev), ev).desk.cursor == ToAbsolute(e.desktop.screen, ev.x, ev.y)
  {
    ExecutedAllConcat(e, s, ds, [RestoreCursor], ev);
    ExecutedOne(e, ExecutedAll(e, s, ds, ev), RestoreCursor, ev);
  }

  /** The state in which a cycle re-asserts: after its restore was tried. */
  function RestoreTried(e: Surroundings, st: State, ev: InputEvent): State {
    FocusRestored(e, BeforeRestore(e, Started(st, ev), Planned(e, st, ev).actions, ev))
  }

  /** The keys that the master's game still has when the focus is about to be restored. */
  function Leftover(e: Surroundings, st: State, ev: InputEvent): set<nat>
    requires st.master < |st.targets|
  {
    KeysOf(BeforeRestore(e, Started(st, ev), Planned(e, st, ev).actions, ev).desk, st.targets[st.master])
  }

  /** What a cycle leaves the master with: the keys left over and the held ones, if its window is in front. */
  lemma CycleShows(e: Surroundings, st: State, ev: InputEvent, seen: set<nat>)
    requires st.master < |st.targets| && CyclesFocus(Planned(e, st, ev).actions) && FromHook(ev)
    requires BackgroundSilent(st.desk)
    ensures SameSetup(Started(st, ev), Handled(e, st, ev)) && BackgroundSilent(Handled(e, st, ev).desk)
    ensures Shows(Handled(e, st, ev), seen) <==>
              && RestoreTried(e, st, ev).desk.foreground == st.targets[st.master]
              && seen == Leftover(e, st, ev) + Held(Applied(st.keys, ev))
    ensures Leftover(e, st, ev) <= KeysOf(st.desk, st.targets[st.master]) + Held(Applied(st.keys, ev))
  {
    var _, before := HandledCycle(e, st, ev);
    EndShows(e, before, seen);
  }

  /** The end of a cycle, from the state in which it restores the focus. */
  lemma EndShows(e: Surroundings, before: State, seen: set<nat>)
    requires before.master < |before.targets| && BackgroundSilent(before.desk)
    ensures
      var restored := FocusRestored(e, before);
      var end := if Held(before.keys) != {} then HeldReasserted(restored) else restored;
      && SameSetup(before, end) && BackgroundSilent(end.desk)
      && (Shows(end, seen) <==>
            && restored.desk.foreground == before.targets[before.master]
            && seen == KeysOf(before.desk, before.targets[before.master]) + Held(before.keys))
  {
    BringFacts(e.desktop, before.desk, before.targets[before.master]);
    ReassertFollowsForeground(FocusRestored(e, before));
  }

  /**
   Focus-cycle repair. Whatever became of the deliveries, if the master could be brought back then it is in front,
   no other window has a key down, and its own game has the held keys and what was left over; so it has exactly
   what the broadcaster knows to be held iff nothing else was left over.
   */
  lemma RepairRestoresMaster(e: Surroundings, st: State, ev: InputEvent)
    requires st.master < |st.targets| && CyclesFocus(Planned(e, st, ev).actions) && FromHook(ev)
    requires BackgroundSilent(st.desk) && RestoreSucceeds(e, st, ev)
    ensures SameSetup(Started(st, ev), Handled(e, st, ev))
    ensures Shows(Handled(e, st, ev), Leftover(e, st, ev) + Held(Applied(st.keys, ev)))
    ensures InView(Handled(e, st, ev)) <==> Leftover(e, st, ev) <= Held(Applied(st.keys, ev))
  {
    var _, before := HandledCycle(e, st, ev);
    BringOutcome(e.desktop, before.desk, st.targets[st.master]);
    CycleShows(e, st, ev, Leftover(e, st, ev) + Held(Applied(st.keys, ev)));
  }

  lemma StartedFacts(st: State, ev: InputEvent)
    requires FromHook(ev) && BackgroundSilent(st.desk)
    ensures BackgroundSilent(Started(st, ev).desk)
    ensures forall h :: KeysOf(Started(st, ev).desk, h) == KeysOf(st.desk, h)
    ensures ev.kind.KeyDown? ==> ev.vk in Held(Started(st, ev).keys)
  {
    if ev.kind.KeyDown? {
      PressedIsHeld(st.keys, ev);
    }
    assert forall h :: KeysOf(Started(st, ev).desk, h) == KeysOf(st.desk, h);
  }

  // ---- Where the repair stops short

  /** Does the master's window still exist when the focus is restored? */
  predicate MasterAlive(e: Surroundings, st: State, ev: InputEvent) {
    var s := BeforeRestore(e, Started(st, ev), Planned(e, st, ev).actions, ev);
    s.master < |s.targets| && s.targets[s.master] != NO_WINDOW && e.desktop.isWindow(s.desk.clock, s.targets[s.master])
  }

  /** The re-assert runs whether or not the restore worked: held keys are then pressed in whatever is in front. */
  lemma FailedRestoreLeaksHeldKeys(e: Surroundings, st: State, ev: InputEvent)
    requires st.master < |st.targets| && CyclesFocus(Planned(e, st, ev).actions) && FromHook(ev)
    requires BackgroundSilent(st.desk) && MasterAlive(e, st, ev) && !RestoreSucceeds(e, st, ev)
    ensures
      var st' := Handled(e, st, ev);
      st'.desk.foreground != st.targets[st.master] && Held(st'.keys) <= KeysOf(st'.desk, st'.desk.foreground)
  {
    var _, before := HandledCycle(e, st, ev);
    BringFacts(e.desktop, before.desk, before.targets[before.master]);
    ReassertFollowsForeground(FocusRestored(e, before));
  }

  /** With a live master window, the view is back exactly when the restore succeeded and no released key was left over. */
  lemma RepairIffRestored(e: Surroundings, st: State, ev: InputEvent)
    requires st.master < |st.targets| && CyclesFocus(Planned(e, st, ev).actions) && FromHook(ev)
    requires BackgroundSilent(st.desk) && MasterAlive(e, st, ev)
    ensures InView(Handled(e, st, ev)) <==>
              RestoreSucceeds(e, st, ev) && Leftover(e, st, ev) <= Held(Applied(st.keys, ev))
  {
    var _, before := HandledCycle(e, st, ev);
    FrontIffRestored(e, before);
    CycleShows(e, st, ev, Held(Applied(st.keys, ev)));
    EqualIffWithin(Leftover(e, st, ev), Held(Applied(st.keys, ev)));
  }

  lemma FrontIffRestored(e: Surroundings, before: State)
    requires before.master < |before.targets| && before.targets[before.master] != NO_WINDOW
    requires e.desktop.isWindow(before.desk.clock, before.targets[before.master])
    ensures FocusRestored(e, before).desk.foreground == before.targets[before.master]
            <==> Bring(e.desktop, before.desk, before.targets[before.master]).1
  {
    BringOutcome(e.desktop, before.desk, before.targets[before.master]);
  }

  lemma EqualIffWithin(left: set<nat>, held: set<nat>)
    ensures held == left + held <==> left <= held
  {
  }

  /** The held keys the master's game was meant to see. */
  function Visible(st: State): set<nat> {
    set vk | vk in Held(st.keys) && !st.routes.Swallows(vk)
  }

  /**
   A repair shows the master its hotkeys: the game is left with what it should see iff no swallowed key is held
   and no released one was left over.
   */
  lemma RepairHidesSwallowedIffNoneHeld(e: Surroundings, st: State, ev: InputEvent)
    requires st.master < |st.targets| && CyclesFocus(Planned(e, st, ev).actions) && FromHook(ev)
    requires BackgroundSilent(st.desk) && RestoreSucceeds(e, st, ev)
    ensures
      var st' := Handled(e, st, ev);
      KeysOf(st'.desk, st.targets[st.master]) == Visible(st') <==>
        && (forall vk | vk in Held(Applied(st.keys, ev)) :: !st.routes.Swallows(vk))
        && Leftover(e, st, ev) <= Held(Applied(st.keys, ev))
  {
    RepairRestoresMaster(e, st, ev);
    HidesIff(Handled(e, st, ev), Leftover(e, st, ev));
  }

  lemma HidesIff(st: State, left: set<nat>)
    ensures left + Held(st.keys) == Visible(st) <==>
              (forall vk | vk in Held(st.keys) :: !st.routes.Swallows(vk)) && left <= Held(st.keys)
  {
    assert left + Held(st.keys) == Visible(st) ==> forall vk | vk in left + Held(st.keys) :: vk in Visible(st);
    if forall vk | vk in Held(st.keys) :: !st.routes.Swallows(vk) {
      assert Visible(st) == Held(st.keys);
      assert left <= Held(st.keys) ==> left + Held(st.keys) == Held(st.keys);
    }
  }

  // ---- Accounting and the cursor

  function DeliverCount(actions: seq<Action>): nat {
    if actions == [] then 0
    else DeliverCount(actions[..|actions| - 1]) + if actions[|actions| - 1].Deliver? then 1 else 0
  }

  lemma {:induction false} DeliverCountConcat(a: seq<Action>, b: seq<Action>)
    requires forall x | x in b :: !x.Deliver?
    ensures DeliverCount(a + b) == DeliverCount(a)
    decreases |b|
  {
    if b == [] {
      assert a + b == a;
    } else {
      assert b[|b| - 1] in b;
      assert (a + b)[..|a + b| - 1] == a + b[..|b| - 1];
      DeliverCountConcat(a, b[..|b| - 1]);
    }
  }

  lemma {:induction false} DeliverCountAll(ds: seq<Action>)
    requires forall x | x in ds :: x.Deliver?
    ensures DeliverCount(ds) == |ds|
  {
    if ds != [] {
      assert ds[|ds| - 1] in ds;
      DeliverCountAll(ds[..|ds| - 1]);
    }
  }

  lemma CycleCount(s: State, actions: seq<Action>, ds: seq<Action>, ev: InputEvent)
    requires IsCycle(s, actions, ds, ev) && forall a | a in ds :: a.Deliver?
    ensures DeliverCount(actions) == |ds|
  {
    assert actions == ds + (CursorPart(ev) + [RestoreFocus] + ReassertPart(s));
    DeliverCountConcat(ds, CursorPart(ev) + [RestoreFocus] + ReassertPart(s));
    DeliverCountAll(ds);
  }

  /** Every planned delivery is counted once, as a delivery or as a focus failure; a failed restore adds a failure. */
  lemma CycleAccounted(e: Surroundings, st: State, ev: InputEvent)
    requires st.master < |st.targets| && FromHook(ev) && BackgroundSilent(st.desk)
    requires CyclesFocus(Planned(e, st, ev).actions)
    ensures
      var st' := Handled(e, st, ev);
      st'.deliveries + st'.focusFailures
      == st.deliveries + st.focusFailures + DeliverCount(Planned(e, st, ev).actions)
         + if RestoreSucceeds(e, st, ev) then 0 else 1
  {
    var ds, before := HandledCycle(e, st, ev);
    CycleCount(Started(st, ev), Planned(e, st, ev).actions, ds, ev);
  }

  lemma {:induction false} StrokesKeepCursor(d: Desk, purpose: Purpose, ps: seq<Payload>)
    requires forall p | p in ps :: p.KeyStroke?
    ensures InjectAll(d, purpose, ps).cursor == d.cursor
  {
    if ps != [] {
      StrokesKeepCursor(d, purpose, ps[..|ps| - 1]);
      assert ps[|ps| - 1] in ps;
    }
  }

  /** A pointer cycle leaves the cursor at the position encoded from the event's own x and y. */
  lemma PointerCycleCursor(e: Surroundings, st: State, ev: InputEvent)
    requires CyclesFocus(Planned(e, st, ev).actions) && IsPointer(ev)
    ensures Handled(e, st, ev).desk.cursor == ToAbsolute(e.desktop.screen, ev.x, ev.y)
  {
    var s, actions := Started(st, ev), Planned(e, st, ev).actions;
    CycleHasTargets(e, st, ev);
    var ds := PlannedCycle(e, st, ev);
    CycleBefore(e, s, actions, ds, ev);
    CycleCursor(e, s, ds, ev);
    CycleEnd(e, s, actions, ds, ev);
    var before := BeforeRestore(e, s, actions, ev);
    BringOutcome(e.desktop, before.desk, if before.master < |before.targets| then before.targets[before.master] else NO_WINDOW);
    var restored := FocusRestored(e, before);
    HeldPayloadsPress(restored.keys);
    StrokesKeepCursor(restored.desk, ForMaster, HeldPayloads(restored.keys));
  }

  lemma CycleHasTargets(e: Surroundings, st: State, ev: InputEvent)
    requires CyclesFocus(Planned(e, st, ev).actions)
    ensures st.targets != []
  {
    PlannedTargetsExist(e, st, ev);
  }

  /** Screens whose pixels absolute units can tell apart. */
  predicate Addressable(screen: Rect) {
    1 <= screen.w <= ABS_MAX + 1 && 1 <= screen.h <= ABS_MAX + 1
  }

  /** The pixel of the screen nearest to a position. */
  function PixelAt(screen: Rect, x: int, y: int): Point {
    Point(ClampTo(x, screen.x, screen.w), ClampTo(y, screen.y, screen.h))
  }

  /** So the cursor is back where the master had it iff the event's x and y, on screen or not, come down to that pixel. */
  lemma CursorRestoredIffEventSaysSo(e: Surroundings, st: State, ev: InputEvent, px: int, py: int)
    requires CyclesFocus(Planned(e, st, ev).actions) && IsPointer(ev) && Addressable(e.desktop.screen)
    ensures Handled(e, st, ev).desk.cursor == ToAbsolute(e.desktop.screen, px, py)
            <==> PixelAt(e.desktop.screen, px, py) == PixelAt(e.desktop.screen, ev.x, ev.y)
  {
    PointerCycleCursor(e, st, ev);
    var r := e.desktop.screen;
    SameUnitsIffSamePixel(px, ev.x, r.x, r.w);
    SameUnitsIffSamePixel(py, ev.y, r.y, r.h);
  }

  lemma CycleIsKeyOrPointer(e: Surroundings, st: State, ev: InputEvent)
    requires CyclesFocus(Planned(e, st, ev).actions)
    ensures IsKey(ev.kind) || IsPointer(ev)
  {
    var alive := AliveBelow(e.desktop, st.targets, st.desk.clock, MAX_TARGETS);
    PlanDeliversToEligible(ev, st.routes, alive, st.master, Applied(st.keys, ev));
  }

  /**
   For what the hook captured at pointer position (x, y): a button event brings the cursor back; a wheel event does
   iff (x, y) is at the pixel that its deltas, read as a position, come down to.
   */
  lemma CursorAfterHook(e: Surroundings, st: State, cfg: Capture.Settings, raw: Capture.HookInput)
    requires raw.MouseInput? && Capture.MouseEvent(cfg, raw).Some? && Addressable(e.desktop.screen)
    requires CyclesFocus(Planned(e, st, Capture.MouseEvent(cfg, raw).value).actions)
    ensures
      var screen := e.desktop.screen;
      Handled(e, st, Capture.MouseEvent(cfg, raw).value).desk.cursor == ToAbsolute(screen, raw.x, raw.y) <==>
        match raw.message
        case MouseWheel => PixelAt(screen, raw.x, raw.y) == PixelAt(screen, 0, raw.hi)
        case MouseHWheel => PixelAt(screen, raw.x, raw.y) == PixelAt(screen, raw.hi, 0)
        case _ => true
  {
    var ev := Capture.MouseEvent(cfg, raw).value;
    CycleIsKeyOrPointer(e, st, ev);
    CursorRestoredIffEventSaysSo(e, st, ev, raw.x, raw.y);
  }

  // ---- Every delivery is timed

  lemma {:induction false} ExecutedAllTimed(e: Surroundings, st: State, actions: seq<Action>, ev: InputEvent)
    requires |st.latencies| == st.deliveries
    ensures |ExecutedAll(e, st, actions, ev).latencies| == ExecutedAll(e, st, actions, ev).deliveries
  {
    if actions != [] {
      ExecutedAllTimed(e, st, actions[..|actions| - 1], ev);
    }
  }

  /** Over any run there is one latency sample for each delivery counted; refused focus switches give none. */
  lemma {:induction false} EveryDeliveryIsTimed(e: Surroundings, st: State, evs: seq<InputEvent>)
    requires |st.latencies| == st.deliveries
    ensures |HandledAll(e, st, evs).latencies| == HandledAll(e, st, evs).deliveries
  {
    if evs != [] {
      var before, ev := HandledAll(e, st, evs[..|evs| - 1]), evs[|evs| - 1];
      EveryDeliveryIsTimed(e, st, evs[..|evs| - 1]);
      ExecutedAllTimed(e, Started(before, ev), Planned(e, before, ev).actions, ev);
    }
  }

  // ---- Whole runs

  /** A physical key reaches the window in front unless the hook swallows it; the event reaches the broadcaster. */
  function Arrived(st: State, ev: InputEvent): State {
    if IsKey(ev.kind) && !st.routes.Swallows(ev.vk) then st.(desk := Press(st.desk, ev.vk, ev.kind.KeyDown?)) else st
  }

  lemma ArrivedInStep(st: State, ev: InputEvent)
    requires InView(st) && FromHook(ev) && (IsKey(ev.kind) ==> !st.routes.Swallows(ev.vk))
    ensures
      var d := Arrived(st, ev).desk;
      && d.foreground == st.desk.foreground && BackgroundSilent(d)
      && KeysOf(d, d.foreground) == Held(Applied(st.keys, ev))
  {
    var d := Arrived(st, ev).desk;
    assert forall h | h != d.foreground :: KeysOf(d, h) == KeysOf(st.desk, h);
  }

  lemma QuietPlanKeepsView(e: Surroundings, st: State, ev: InputEvent)
    requires BackgroundSilent(st.desk) && FromHook(ev) && st.targets != []
    requires !CyclesFocus(Planned(e, st, ev).actions) && Planned(e, st, ev).actions != [SwapMaster]
    ensures
      var s, s' := Started(st, ev), Handled(e, st, ev);
      SameSetup(s, s') && s'.desk == s.desk.(posted := s'.desk.posted)
  {
    var alive := AliveBelow(e.desktop, st.targets, st.desk.clock, MAX_TARGETS);
    var actions := Planned(e, st, ev).actions;
    PlanRepairsWhatItBreaks(ev, st.routes, alive, st.master, Applied(st.keys, ev));
    PlannedTargetsExist(e, st, ev);
    forall a | a in actions ensures a.strategy.WindowMessage? {
      assert a == Deliver(a.target, a.strategy);
    }
    StartedFacts(st, ev);
    AllDelivered(e, Started(st, ev), actions, ev, Held(Started(st, ev).keys));
  }

  lemma PlannedTargetsExist(e: Surroundings, st: State, ev: InputEvent)
    ensures forall a | a in Planned(e, st, ev).actions && a.Deliver? :: a.target < |st.targets|
  {
    var alive := AliveBelow(e.desktop, st.targets, st.desk.clock, MAX_TARGETS);
    PlanDeliversToEligible(ev, st.routes, alive, st.master, Applied(st.keys, ev));
    forall a | a in Planned(e, st, ev).actions && a.Deliver? ensures a.target in alive {
      assert a == Deliver(a.target, a.strategy);
    }
  }

  /** Quiescent handling: nothing swallowed, and every focus cycle manages to bring the master back. */
  ghost predicate Calm(e: Surroundings, st: State, ev: InputEvent) {
    var there := Arrived(st, ev);
    && FromHook(ev)
    && (IsKey(ev.kind) ==> !st.routes.Swallows(ev.vk))
    && (CyclesFocus(Planned(e, there, ev).actions) ==> RestoreSucceeds(e, there, ev))
  }

  lemma FirstOfPlan(ds: seq<Action>, rs: seq<Action>)
    requires forall a | a in ds :: a.Deliver?
    ensures ds != [] ==> (ds + rs)[0].Deliver?
  {
    if ds != [] {
      assert ds[0] in ds;
    }
  }

  lemma NoSwapPlanned(e: Surroundings, st: State, ev: InputEvent)
    requires !IsSwapPress(ev, st.routes)
    ensures SwapMaster !in Planned(e, st, ev).actions
  {
    if !IsSwapKey(ev, st.routes) {
      var ds, rs := PlanParts(ev, st.routes, AliveBelow(e.desktop, st.targets, st.desk.clock, MAX_TARGETS), st.master, Applied(st.keys, ev));
    }
  }

  lemma SwapKeyIsSwallowed(e: Surroundings, st: State, ev: InputEvent)
    requires Planned(e, st, ev).actions == [SwapMaster]
    ensures IsKey(ev.kind) && st.routes.Swallows(ev.vk)
  {
    if !IsSwapKey(ev, st.routes) {
      var alive := AliveBelow(e.desktop, st.targets, st.desk.clock, MAX_TARGETS);
      var ds, rs := PlanParts(ev, st.routes, alive, st.master, Applied(st.keys, ev));
      FirstOfPlan(ds, rs);
    }
  }

  lemma CalmStepKeepsView(e: Surroundings, st: State, ev: InputEvent)
    requires InView(st) && Calm(e, st, ev)
    ensures InView(Handled(e, Arrived(st, ev), ev))
    ensures SameSetup(Started(Arrived(st, ev), ev), Handled(e, Arrived(st, ev), ev))
  {
    var there := Arrived(st, ev);
    ArrivedInStep(st, ev);
    if CyclesFocus(Planned(e, there, ev).actions) {
      CycleShows(e, there, ev, {});
      RepairRestoresMaster(e, there, ev);
    } else {
      if Planned(e, there, ev).actions == [SwapMaster] {
        SwapKeyIsSwallowed(e, there, ev);
      }
      QuietPlanKeepsView(e, there, ev);
      StartedFacts(there, ev);
      assert forall h :: KeysOf(Handled(e, there, ev).desk, h) == KeysOf(there.desk, h);
    }
  }

  function RunOf(e: Surroundings, st: State, evs: seq<InputEvent>): State {
    if evs == [] then st
    else
      var before := RunOf(e, st, evs[..|evs| - 1]);
      Handled(e, Arrived(before, evs[|evs| - 1]), evs[|evs| - 1])
  }

  ghost predicate CalmRun(e: Surroundings, st: State, evs: seq<InputEvent>) {
    evs != [] ==> CalmRun(e, st, evs[..|evs| - 1]) && Calm(e, RunOf(e, st, evs[..|evs| - 1]), evs[|evs| - 1])
  }

  /** Over a whole calm run, however many slaves refused the focus, the master's game stays in step with the keyboard. */
  lemma {:induction false} CalmRunKeepsView(e: Surroundings, st: State, evs: seq<InputEvent>)
    requires InView(st) && CalmRun(e, st, evs)
    ensures InView(RunOf(e, st, evs))
  {
    if evs != [] {
      CalmRunKeepsView(e, st, evs[..|evs| - 1]);
      CalmStepKeepsView(e, RunOf(e, st, evs[..|evs| - 1]), evs[|evs| - 1]);
    }
  }
}
