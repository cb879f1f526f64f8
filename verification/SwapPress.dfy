/** A press of the swap key as the broadcaster handles it: the handover of the view, and the session behind it. */
module SwapPress {
  import opened Assignments
  import opened Broadcaster
  import opened Desktop
  import opened Dispatch
  import opened InputEvents
  import opened KeyStates
  import opened MasterView
  import opened Routing
  import Session

  /** The window that the answer makes the master's, if there is one. */
  function NewMasterWindow(a: SwapAnswer): Hwnd {
    if a.master < |a.targets| then a.targets[a.master] else NO_WINDOW
  }

  /** A press that a callback answers. */
  predicate Answered(e: Surroundings, st: State, ev: InputEvent) {
    IsSwapPress(ev, st.routes) && st.targets != [] && st.seen <= st.version && e.onSwap(st.swaps).Some?
  }

  /** The whole effect of a swap press. */
  lemma PressEffect(e: Surroundings, st: State, ev: InputEvent)
    requires Answered(e, st, ev)
    ensures
      var a, d := e.onSwap(st.swaps).value, Started(st, ev).desk;
      Handled(e, st, ev)
      == st.(keys := Applied(st.keys, ev), swaps := st.swaps + 1,
             pendingTargets := a.targets, pendingMaster := a.master,
             version := st.version + 1, seen := st.version + 1,
             routes := st.pendingRoutes, targets := a.targets, master := a.master,
             desk := Bring(e.desktop, d, a.front).0)
  {
    assert Planned(e, st, ev).actions == [SwapMaster];
    ExecutedOne(e, Started(st, ev), SwapMaster, ev);
  }

  /** Without a callback a press only brings the configuration up to date. */
  lemma UnansweredPress(e: Surroundings, st: State, ev: InputEvent)
    requires IsSwapPress(ev, st.routes) && st.targets != [] && e.onSwap(st.swaps) == None
    ensures
      var s := Started(st, ev).(swaps := st.swaps + 1);
      Handled(e, st, ev)
      == if st.version == st.seen then s
         else s.(routes := st.pendingRoutes, targets := st.pendingTargets, master := st.pendingMaster, seen := st.version)
  {
    assert Planned(e, st, ev).actions == [SwapMaster];
    ExecutedOne(e, Started(st, ev), SwapMaster, ev);
  }

  // ---- What the new master's game sees

  /**
   The new master is in view with keys `seen` exactly when its window ends up in front and those are the keys it
   kept: its own if the foreground never moved, none otherwise. Nothing is re-asserted.
   */
  lemma SwapShows(e: Surroundings, st: State, ev: InputEvent, seen: set<nat>)
    requires Answered(e, st, ev) && BackgroundSilent(st.desk) && FromHook(ev)
    ensures
      var a, d := e.onSwap(st.swaps).value, Started(st, ev).desk;
      Shows(Handled(e, st, ev), seen) <==>
        && a.master < |a.targets| && Bring(e.desktop, d, a.front).0.foreground == NewMasterWindow(a)
        && seen == if FrontKept(e.desktop, d, a.front) then KeysOf(st.desk, NewMasterWindow(a)) else {}
  {
    PressEffect(e, st, ev);
    StartedFacts(st, ev);
    BringFacts(e.desktop, Started(st, ev).desk, e.onSwap(st.swaps).value.front);
    BringOutcome(e.desktop, Started(st, ev).desk, e.onSwap(st.swaps).value.front);
  }

  /** So the view is in step iff the new master was in front all along with all held keys, the swap key among them. */
  lemma InViewAfterSwap(e: Surroundings, st: State, ev: InputEvent)
    requires Answered(e, st, ev) && BackgroundSilent(st.desk) && FromHook(ev)
    ensures
      var a, d := e.onSwap(st.swaps).value, Started(st, ev).desk;
      InView(Handled(e, st, ev)) <==>
        && a.master < |a.targets| && st.desk.foreground == NewMasterWindow(a) && FrontKept(e.desktop, d, a.front)
        && KeysOf(st.desk, NewMasterWindow(a)) == Held(Applied(st.keys, ev))
  {
    PressEffect(e, st, ev);
    PressedIsHeld(st.keys, ev);
    SwapShows(e, st, ev, Held(Applied(st.keys, ev)));
    BringOutcome(e.desktop, Started(st, ev).desk, e.onSwap(st.swaps).value.front);
  }

  /** A handover: the answer's master has another window than the one in front. */
  predicate HandsOver(e: Surroundings, st: State, ev: InputEvent) {
    && Answered(e, st, ev)
    && e.onSwap(st.swaps).value.master < |e.onSwap(st.swaps).value.targets|
    && NewMasterWindow(e.onSwap(st.swaps).value) != st.desk.foreground
  }

  /** The new master's game never has the held keys; once its window is in front, it is as it should be iff that is nothing. */
  lemma HandoverShows(e: Surroundings, st: State, ev: InputEvent)
    requires HandsOver(e, st, ev) && BackgroundSilent(st.desk) && FromHook(ev)
    ensures
      var a, st' := e.onSwap(st.swaps).value, Handled(e, st, ev);
      && !InView(st')
      && (Shows(st', Visible(st')) <==> st'.desk.foreground == NewMasterWindow(a) && Visible(st') == {})
  {
    PressEffect(e, st, ev);
    InViewAfterSwap(e, st, ev);
    SwapShows(e, st, ev, Visible(Handled(e, st, ev)));
    BringOutcome(e.desktop, Started(st, ev).desk, e.onSwap(st.swaps).value.front);
  }

  // ---- Until the next focus cycle

  /** The master's game has at most the keys it should see. */
  ghost predicate Behind(st: State) {
    && st.master < |st.targets| && BackgroundSilent(st.desk)
    && KeysOf(st.desk, st.targets[st.master]) <= Visible(st)
  }

  lemma HandoverLeavesBehind(e: Surroundings, st: State, ev: InputEvent)
    requires HandsOver(e, st, ev) && BackgroundSilent(st.desk) && FromHook(ev)
    ensures Behind(Handled(e, st, ev))
  {
    PressEffect(e, st, ev);
    StartedFacts(st, ev);
    BringFacts(e.desktop, Started(st, ev).desk, e.onSwap(st.swaps).value.front);
  }

  lemma ArrivedBehind(st: State, ev: InputEvent)
    requires Behind(st) && FromHook(ev)
    ensures
      var there := Arrived(st, ev);
      && BackgroundSilent(there.desk)
      && KeysOf(there.desk, st.targets[st.master]) <= Visible(st.(keys := Applied(st.keys, ev)))
  {
    var there := Arrived(st, ev);
    forall h: Hwnd | h != st.desk.foreground ensures KeysOf(there.desk, h) == {} {
      assert KeysOf(there.desk, h) == KeysOf(st.desk, h);
    }
    var keys := Applied(st.keys, ev);
    assert forall vk: nat | vk < KEYS && (IsKey(ev.kind) ==> vk != ev.vk) :: keys[vk].down == st.keys[vk].down;
    if IsKey(ev.kind) {
      assert keys[ev.vk].down <==> ev.kind.KeyDown?;
    }
  }

  /** An event whose plan neither cycles the focus nor swaps. */
  ghost predicate Quiet(e: Surroundings, st: State, ev: InputEvent) {
    FromHook(ev) && !CyclesFocus(Planned(e, Arrived(st, ev), ev).actions) && !IsSwapPress(ev, st.routes)
  }

  ghost predicate QuietRun(e: Surroundings, st: State, evs: seq<InputEvent>) {
    evs != [] ==> QuietRun(e, st, evs[..|evs| - 1]) && Quiet(e, RunOf(e, st, evs[..|evs| - 1]), evs[|evs| - 1])
  }

  lemma QuietStaysBehind(e: Surroundings, st: State, ev: InputEvent)
    requires Behind(st) && Quiet(e, st, ev)
    ensures Behind(Handled(e, Arrived(st, ev), ev))
  {
    var there := Arrived(st, ev);
    ArrivedBehind(st, ev);
    NoSwapPlanned(e, there, ev);
    QuietPlanKeepsView(e, there, ev);
    StartedFacts(there, ev);
    assert forall h :: KeysOf(Handled(e, there, ev).desk, h) == KeysOf(there.desk, h);
  }

  lemma {:induction false} QuietRunStaysBehind(e: Surroundings, st: State, evs: seq<InputEvent>)
    requires Behind(st) && QuietRun(e, st, evs)
    ensures Behind(RunOf(e, st, evs))
  {
    if evs != [] {
      QuietRunStaysBehind(e, st, evs[..|evs| - 1]);
      QuietStaysBehind(e, RunOf(e, st, evs[..|evs| - 1]), evs[|evs| - 1]);
    }
  }

  /** After a handover and any input that cycles nothing, the next focus cycle that gets the master back repairs its view. */
  lemma NextCycleRepairsHandover(e: Surroundings, st: State, swap: InputEvent, evs: seq<InputEvent>, ev: InputEvent)
    requires HandsOver(e, st, swap) && BackgroundSilent(st.desk) && FromHook(swap) && FromHook(ev)
    ensures
      var there := Arrived(RunOf(e, Handled(e, st, swap), evs), ev);
      QuietRun(e, Handled(e, st, swap), evs) && CyclesFocus(Planned(e, there, ev).actions) && RestoreSucceeds(e, there, ev)
      ==> InView(Handled(e, there, ev))
  {
    HandoverLeavesBehind(e, st, swap);
    var now := RunOf(e, Handled(e, st, swap), evs);
    if QuietRun(e, Handled(e, st, swap), evs) {
      QuietRunStaysBehind(e, Handled(e, st, swap), evs);
      BehindIsRepaired(e, now, ev);
    }
  }

  lemma BehindIsRepaired(e: Surroundings, now: State, ev: InputEvent)
    requires Behind(now) && FromHook(ev)
    ensures
      var there := Arrived(now, ev);
      CyclesFocus(Planned(e, there, ev).actions) && RestoreSucceeds(e, there, ev) ==> InView(Handled(e, there, ev))
  {
    var there := Arrived(now, ev);
    ArrivedBehind(now, ev);
    if CyclesFocus(Planned(e, there, ev).actions) && RestoreSucceeds(e, there, ev) {
      CycleShows(e, there, ev, {});
      RepairRestoresMaster(e, there, ev);
    }
  }

  // ---- The session behind the callback

  /** The n-th callback is answered by the session, nobody exiting in between. */
  ghost predicate SessionAnswers(e: Surroundings, slots: seq<nat>, exited: seq<bool>, windows: seq<Hwnd>)
    requires |windows| == |exited|
  {
    forall n: nat :: e.onSwap(n) == Some(Session.AnswerOf(Session.Presses(slots, exited, n + 1), exited, windows))
  }

  /** These targets and this master are published and in use, after this many presses. */
  predicate WorksWith(st: State, targets: seq<Hwnd>, master: nat, presses: nat) {
    && st.swaps == presses && st.seen <= st.version && st.pendingRoutes == st.routes
    && st.targets == st.pendingTargets == targets && st.master == st.pendingMaster == master
  }

  /** The broadcaster has the session's targets, and the master after this many presses. */
  predicate Agrees(st: State, slots: seq<nat>, exited: seq<bool>, windows: seq<Hwnd>, presses: nat)
    requires |windows| == |exited|
  {
    WorksWith(st, Session.LiveWindows(windows, exited), MasterOf(Session.Presses(slots, exited, presses)), presses)
  }

  function SwapPresses(evs: seq<InputEvent>, routes: RoutesView): nat {
    if evs == [] then 0
    else SwapPresses(evs[..|evs| - 1], routes) + if IsSwapPress(evs[|evs| - 1], routes) then 1 else 0
  }

  lemma HandledWorksWith(e: Surroundings, st: State, ev: InputEvent, targets: seq<Hwnd>, master: nat, next: nat, k: nat)
    requires targets != [] && WorksWith(st, targets, master, k)
    requires e.onSwap(k).Some? && e.onSwap(k).value.targets == targets && e.onSwap(k).value.master == next
    ensures WorksWith(Handled(e, st, ev), targets, if IsSwapPress(ev, st.routes) then next else master,
                      if IsSwapPress(ev, st.routes) then k + 1 else k)
    ensures Handled(e, st, ev).routes == st.routes
  {
    if IsSwapPress(ev, st.routes) {
      PressEffect(e, st, ev);
    } else {
      SetupKeptWithoutSwap(e, st, ev);
    }
  }

  lemma SetupKeptWithoutSwap(e: Surroundings, st: State, ev: InputEvent)
    requires !IsSwapPress(ev, st.routes)
    ensures SameSetup(st.(keys := Applied(st.keys, ev)), Handled(e, st, ev))
  {
    NoSwapPlanned(e, st, ev);
    SetupThrough(e, Started(st, ev), Planned(e, st, ev).actions, ev);
  }

  /**
   Session and broadcaster agree: over any run the broadcaster works with the session's live windows and with the
   master of the session's assignment after as many presses as the run contains.
   */
  lemma {:induction false} BroadcasterFollowsSession(e: Surroundings, st: State, evs: seq<InputEvent>,
                                                     slots: seq<nat>, exited: seq<bool>, windows: seq<Hwnd>)
    requires 1 <= |windows| == |exited| && SessionAnswers(e, slots, exited, windows)
    requires Agrees(st, slots, exited, windows, 0)
    ensures Agrees(HandledAll(e, st, evs), slots, exited, windows, SwapPresses(evs, st.routes))
    ensures HandledAll(e, st, evs).routes == st.routes
  {
    if evs != [] {
      var before := evs[..|evs| - 1];
      BroadcasterFollowsSession(e, st, before, slots, exited, windows);
      var k := SwapPresses(before, st.routes);
      HandledWorksWith(e, HandledAll(e, st, before), evs[|evs| - 1], Session.LiveWindows(windows, exited),
                       MasterOf(Session.Presses(slots, exited, k)), MasterOf(Session.Presses(slots, exited, k + 1)), k);
    }
  }

  /** In particular, with L >= 2 live instances, a run with k < L presses works for the k-th live instance, and L bring back the first. */
  lemma RunOfARound(e: Surroundings, st: State, evs: seq<InputEvent>, slots: seq<nat>, exited: seq<bool>, windows: seq<Hwnd>)
    requires 1 <= |windows| == |exited| && SessionAnswers(e, slots, exited, windows)
    requires Agrees(st, slots, exited, windows, 0)
    requires Permutation(slots) && |slots| == |exited| && MasterOf(slots) < |slots| && !exited[MasterOf(slots)]
    requires |Session.Ring(exited, MasterOf(slots))| >= 2
    ensures
      var a, k := Session.Ring(exited, MasterOf(slots)), SwapPresses(evs, st.routes);
      && (k < |a| ==> HandledAll(e, st, evs).master == a[k])
      && (k == |a| ==> HandledAll(e, st, evs).master == st.master)
  {
    BroadcasterFollowsSession(e, st, evs, slots, exited, windows);
    Session.RoundOfSwaps(slots, exited);
    Session.PressesArePressed(slots, exited, 0);
  }
}
