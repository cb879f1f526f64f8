/** When the master's view comes back by itself, and the keys that can stay behind. */
module Recovery {
  import opened Broadcaster
  import opened Desktop
  import opened Dispatch
  import opened InputEvents
  import opened KeyStates
  import opened MasterView
  import opened Routing
  import opened TargetStreams

  // ---- Background windows have no keys down

  lemma ExecutedStaysSilent(e: Surroundings, s: State, a: Action, ev: InputEvent)
    requires BackgroundSilent(s.desk)
    ensures BackgroundSilent(Executed(e, s, a, ev).desk)
  {
    match a
    case Deliver(i, strategy) =>
      if i < |s.targets| {
        DeliveredFacts(e, s, i, strategy, ev, {ev.vk});
      }
    case RestoreFocus =>
      if s.master < |s.targets| {
        BringFacts(e.desktop, s.desk, s.targets[s.master]);
      }
    case RestoreCursor => assert forall h :: KeysOf(Executed(e, s, a, ev).desk, h) == KeysOf(s.desk, h);
    case ReassertHeld => ReassertFollowsForeground(s);
    case SwapMaster =>
      match e.onSwap(s.swaps)
      case None =>
      case Some(answer) => BringFacts(e.desktop, s.desk, answer.front);
  }

  lemma {:induction false} AllExecutedStaysSilent(e: Surroundings, s: State, actions: seq<Action>, ev: InputEvent)
    requires BackgroundSilent(s.desk)
    ensures BackgroundSilent(ExecutedAll(e, s, actions, ev).desk)
  {
    if actions != [] {
      AllExecutedStaysSilent(e, s, actions[..|actions| - 1], ev);
      ExecutedStaysSilent(e, ExecutedAll(e, s, actions[..|actions| - 1], ev), actions[|actions| - 1], ev);
    }
  }

  /** In every run, whatever it contains, only the window in front has keys down. */
  lemma {:induction false} RunStaysSilent(e: Surroundings, st: State, evs: seq<InputEvent>)
    requires BackgroundSilent(st.desk)
    ensures BackgroundSilent(RunOf(e, st, evs).desk)
  {
    if evs != [] {
      var before, ev := RunOf(e, st, evs[..|evs| - 1]), evs[|evs| - 1];
      RunStaysSilent(e, st, evs[..|evs| - 1]);
      var there := Arrived(before, ev);
      assert forall h: Hwnd | h != before.desk.foreground :: KeysOf(there.desk, h) == KeysOf(before.desk, h);
      assert forall h: Hwnd :: KeysOf(Started(there, ev).desk, h) == KeysOf(there.desk, h);
      AllExecutedStaysSilent(e, Started(there, ev), Planned(e, there, ev).actions, ev);
    }
  }

  // ---- A cycle that reached a slave leaves nothing over

  /** A delivery never gives a key to the master's window, and one that is granted takes away those it had. */
  lemma DeliveredKeepsClear(e: Surroundings, s: State, i: nat, strategy: Strategy, ev: InputEvent, m: Hwnd)
    requires Owns(s.targets, s.master, m) && BackgroundSilent(s.desk) && i != s.master && i < |s.targets|
    ensures
      var d := Delivered(e, s, i, strategy, ev).desk;
      && BackgroundSilent(d)
      && (KeysOf(s.desk, m) == {} || FocusGranted(e, s, Deliver(i, strategy), i) ==> KeysOf(d, m) == {})
  {
    var w := s.targets[i];
    if strategy.WindowMessage? {
      assert forall h :: KeysOf(Delivered(e, s, i, strategy, ev).desk, h) == KeysOf(s.desk, h);
    } else {
      BringFacts(e.desktop, s.desk, w);
      var brought := Bring(e.desktop, s.desk, w).0;
      var ps := Payloads(e, s, w, ev);
      InjectAllLogs(brought, ForTarget(w), ps);
      InjectAllKeysWithin(brought, ForTarget(w), ps, {ev.vk});
    }
  }

  /** Deliveries to slaves, and the cursor. */
  ghost predicate ToSlaves(s: State, actions: seq<Action>) {
    forall a | a in actions :: a.RestoreCursor? || (a.Deliver? && a.target != s.master && a.target < |s.targets|)
  }

  lemma {:induction false} GrantClears(e: Surroundings, s: State, actions: seq<Action>, ev: InputEvent, i: nat, m: Hwnd)
    requires Owns(s.targets, s.master, m) && BackgroundSilent(s.desk) && ToSlaves(s, actions)
    ensures BackgroundSilent(ExecutedAll(e, s, actions, ev).desk)
    ensures GrantedIn(e, s, actions, ev, i) ==> KeysOf(ExecutedAll(e, s, actions, ev).desk, m) == {}
  {
    if actions != [] {
      var before, last := actions[..|actions| - 1], actions[|actions| - 1];
      var mid := ExecutedAll(e, s, before, ev);
      assert last in actions && forall a | a in before :: a in actions;
      GrantClears(e, s, before, ev, i, m);
      SetupThrough(e, s, before, ev);
      if last.Deliver? {
        DeliveredKeepsClear(e, mid, last.target, last.strategy, ev, m);
      } else {
        assert forall h :: KeysOf(Executed(e, mid, last, ev).desk, h) == KeysOf(mid.desk, h);
      }
    }
  }

  lemma CycleToSlaves(e: Surroundings, st: State, ev: InputEvent) returns (ds: seq<Action>)
    requires CyclesFocus(Planned(e, st, ev).actions)
    ensures IsCycle(Started(st, ev), Planned(e, st, ev).actions, ds, ev) && forall a | a in ds :: a.Deliver?
    ensures ToSlaves(Started(st, ev), ds + CursorPart(ev))
  {
    ds := PlannedCycle(e, st, ev);
    var actions := Planned(e, st, ev).actions;
    PlanDeliversToEligible(ev, st.routes, AliveBelow(e.desktop, st.targets, st.desk.clock, MAX_TARGETS), st.master,
                           Applied(st.keys, ev));
    forall a | a in ds ensures a.target != st.master {
      assert a in actions && a == Deliver(a.target, a.strategy);
    }
  }

  lemma GrantLeavesNothing(e: Surroundings, st: State, ev: InputEvent, i: nat)
    requires st.master < |st.targets| && Owns(st.targets, st.master, st.targets[st.master])
    requires CyclesFocus(Planned(e, st, ev).actions) && FromHook(ev) && BackgroundSilent(st.desk) && Granted(e, st, ev, i)
    ensures Leftover(e, st, ev) == {}
  {
    var s, actions := Started(st, ev), Planned(e, st, ev).actions;
    var ds := CycleToSlaves(e, st, ev);
    StartedFacts(st, ev);
    CycleBefore(e, s, actions, ds, ev);
    PlannedForEligible(e, st, ev, i);
    var head := ds + CursorPart(ev);
    CoreFacts(e, s, actions, ds, ev, i);
    PartsDeliverOnce(e, s, head, RestoreFocus, ev, i);
    GrantClears(e, s, head, ev, i, st.targets[st.master]);
  }

  /** So once any slave was granted the focus, the view of a live master is back exactly when the restore succeeded. */
  lemma GrantedCycleRepairs(e: Surroundings, st: State, ev: InputEvent, i: nat)
    requires st.master < |st.targets| && Owns(st.targets, st.master, st.targets[st.master])
    requires CyclesFocus(Planned(e, st, ev).actions) && FromHook(ev) && BackgroundSilent(st.desk)
    requires MasterAlive(e, st, ev) && Granted(e, st, ev, i)
    ensures InView(Handled(e, st, ev)) <==> RestoreSucceeds(e, st, ev)
  {
    GrantLeavesNothing(e, st, ev, i);
    RepairIffRestored(e, st, ev);
  }

  // ---- Whole runs, failed restores and swaps included

  /** No game has a key down that is not held. */
  ghost predicate NothingStuck(st: State) {
    BackgroundSilent(st.desk) && forall h: Hwnd :: KeysOf(st.desk, h) <= Held(st.keys)
  }

  /** A swallowed release finds its key in the game in front, which it never reaches. */
  predicate Sticks(st: State, ev: InputEvent) {
    ev.kind.KeyUp? && st.routes.Swallows(ev.vk) && ev.vk in KeysOf(st.desk, st.desk.foreground)
  }

  ghost predicate Unstuck(e: Surroundings, st: State, evs: seq<InputEvent>) {
    evs != [] ==>
      var before, ev := evs[..|evs| - 1], evs[|evs| - 1];
      Unstuck(e, st, before) && FromHook(ev) && !Sticks(RunOf(e, st, before), ev)
  }

  lemma ArrivedUnstuck(st: State, ev: InputEvent)
    requires NothingStuck(st) && FromHook(ev) && !Sticks(st, ev)
    ensures
      var there := Arrived(st, ev);
      BackgroundSilent(there.desk) && forall h: Hwnd :: KeysOf(there.desk, h) <= Held(Applied(st.keys, ev))
  {
    var there, keys := Arrived(st, ev), Applied(st.keys, ev);
    forall h: Hwnd | h != st.desk.foreground ensures KeysOf(there.desk, h) == {} {
      assert KeysOf(there.desk, h) == KeysOf(st.desk, h);
    }
    assert forall vk: nat | vk < KEYS && (IsKey(ev.kind) ==> vk != ev.vk) :: keys[vk].down == st.keys[vk].down;
    if IsKey(ev.kind) {
      assert keys[ev.vk].down <==> ev.kind.KeyDown?;
    }
  }

  /** Handling gives no game a key that is not held. */
  lemma HandledUnstuck(e: Surroundings, st: State, ev: InputEvent)
    requires FromHook(ev) && BackgroundSilent(st.desk)
    requires forall h: Hwnd :: KeysOf(st.desk, h) <= Held(Applied(st.keys, ev))
    ensures NothingStuck(Handled(e, st, ev))
  {
    if st.targets != [] {
      StartedFacts(st, ev);
      if CyclesFocus(Planned(e, st, ev).actions) {
        CycleUnstuck(e, st, ev);
      } else if IsSwapPress(ev, st.routes) {
        SwapUnstuck(e, st, ev);
      } else {
        QuietUnstuck(e, st, ev);
      }
    }
  }

  lemma CycleUnstuck(e: Surroundings, st: State, ev: InputEvent)
    requires FromHook(ev) && BackgroundSilent(st.desk) && st.targets != [] && CyclesFocus(Planned(e, st, ev).actions)
    requires forall h: Hwnd :: KeysOf(st.desk, h) <= Held(Applied(st.keys, ev))
    ensures NothingStuck(Handled(e, st, ev))
  {
    var _, before := HandledCycle(e, st, ev);
    forall h: Hwnd ensures KeysOf(before.desk, h) <= Held(before.keys) {
      assert KeysOf(before.desk, h) <= KeysOf(st.desk, h) + Held(before.keys);
    }
    RestoreUnstuck(e, before);
    ReassertUnstuck(FocusRestored(e, before));
  }

  lemma RestoreUnstuck(e: Surroundings, before: State)
    requires NothingStuck(before)
    ensures NothingStuck(FocusRestored(e, before)) && FocusRestored(e, before).keys == before.keys
  {
    BringFacts(e.desktop, before.desk, if before.master < |before.targets| then before.targets[before.master] else NO_WINDOW);
  }

  lemma ReassertUnstuck(st: State)
    requires NothingStuck(st)
    ensures NothingStuck(HeldReasserted(st))
  {
    ReassertFollowsForeground(st);
  }

  lemma QuietUnstuck(e: Surroundings, st: State, ev: InputEvent)
    requires FromHook(ev) && BackgroundSilent(st.desk) && st.targets != []
    requires !CyclesFocus(Planned(e, st, ev).actions) && !IsSwapPress(ev, st.routes)
    requires forall h: Hwnd :: KeysOf(st.desk, h) <= Held(Applied(st.keys, ev))
    ensures NothingStuck(Handled(e, st, ev))
  {
    NoSwapPlanned(e, st, ev);
    QuietPlanKeepsView(e, st, ev);
    StartedFacts(st, ev);
    assert forall h: Hwnd :: KeysOf(Handled(e, st, ev).desk, h) == KeysOf(st.desk, h);
  }

  lemma SwapUnstuck(e: Surroundings, st: State, ev: InputEvent)
    requires FromHook(ev) && BackgroundSilent(st.desk) && st.targets != [] && IsSwapPress(ev, st.routes)
    requires forall h: Hwnd :: KeysOf(st.desk, h) <= Held(Applied(st.keys, ev))
    ensures NothingStuck(Handled(e, st, ev))
  {
    var s := Started(st, ev);
    assert Planned(e, st, ev).actions == [SwapMaster];
    ExecutedOne(e, s, SwapMaster, ev);
    StartedFacts(st, ev);
    match e.onSwap(st.swaps)
    case None =>
    case Some(a) => BringFacts(e.desktop, s.desk, a.front);
  }

  /** Over any run at all, no game is ahead of the keyboard unless a swallowed release has left it so. */
  lemma {:induction false} RunStaysUnstuck(e: Surroundings, st: State, evs: seq<InputEvent>)
    requires NothingStuck(st) && Unstuck(e, st, evs)
    ensures NothingStuck(RunOf(e, st, evs))
  {
    if evs != [] {
      var before, ev := RunOf(e, st, evs[..|evs| - 1]), evs[|evs| - 1];
      RunStaysUnstuck(e, st, evs[..|evs| - 1]);
      ArrivedUnstuck(before, ev);
      HandledUnstuck(e, Arrived(before, ev), ev);
    }
  }

  /**
   Recovery: after any such run, whatever focus switches and restores failed in it and whatever swaps it contains,
   the next focus cycle brings a live master's view back exactly when it brings its window back.
   */
  lemma ViewRecovers(e: Surroundings, st: State, evs: seq<InputEvent>, ev: InputEvent)
    requires NothingStuck(st) && Unstuck(e, st, evs + [ev])
    ensures
      var there := Arrived(RunOf(e, st, evs), ev);
      CyclesFocus(Planned(e, there, ev).actions) && MasterAlive(e, there, ev)
      ==> (InView(Handled(e, there, ev)) <==> RestoreSucceeds(e, there, ev))
  {
    assert (evs + [ev])[..|evs|] == evs;
    RunStaysUnstuck(e, st, evs);
    ArrivedUnstuck(RunOf(e, st, evs), ev);
    UnstuckCycle(e, Arrived(RunOf(e, st, evs), ev), ev);
  }

  lemma UnstuckCycle(e: Surroundings, there: State, ev: InputEvent)
    requires FromHook(ev) && BackgroundSilent(there.desk)
    requires forall h: Hwnd :: KeysOf(there.desk, h) <= Held(Applied(there.keys, ev))
    ensures CyclesFocus(Planned(e, there, ev).actions) && MasterAlive(e, there, ev)
            ==> (InView(Handled(e, there, ev)) <==> RestoreSucceeds(e, there, ev))
  {
    if CyclesFocus(Planned(e, there, ev).actions) && MasterAlive(e, there, ev) {
      var _ := ConfigBeforeRestore(e, there, ev);
      CycleShows(e, there, ev, {});
      RepairIffRestored(e, there, ev);
    }
  }
}
