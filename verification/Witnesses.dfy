/** Inputs at which the code does not do what one would expect: the exact conditions elsewhere are not empty. */
module Witnesses {
  import opened Broadcaster
  import Capture
  import opened Desktop
  import opened Dispatch
  import opened Geometry
  import opened InputEvents
  import opened KeyStates
  import opened MasterView
  import Recovery
  import opened Routing
  import SwapPress
  import opened TargetStreams

  const MASTER: Hwnd := 1
  const SLAVE: Hwnd := 2
  const VK_A := 65
  const SCREEN := Rect(0, 0, 1920, 1080)

  /** A desktop of live windows on which the n-th switch attempt ends up in `lands(n)`. */
  function Around(lands: nat -> Hwnd): Surroundings {
    Surroundings(Outside((n, h) => true, lands, lands, h => Rect(0, 0, 800, 600), SCREEN), n => None, (ts, now) => 0,
                 (n, k) => true)
  }

  /** Every switch ends up in the slave's window. */
  function Stuck(): Surroundings {
    Around(n => SLAVE)
  }

  /** The first switch of a plan goes to the slave, the next one back to the master. */
  function Cooperative(): Surroundings {
    Around(n => if n == 1 then SLAVE else MASTER)
  }

  /** One key and all pointer events are mirrored from the master to the slave; nothing has happened yet. */
  function Fresh(swallow: bool): State {
    var routes := RoutesView(map[VK_A := KeyBinding(VK_A, {1}, FocusCycle, swallow)], {1}, 0, FocusCycle, 0);
    State(routes, [MASTER, SLAVE], 0, 1, routes, [MASTER, SLAVE], 0, 1, EmptyTable(),
          Desk(MASTER, map[], AbsPoint(0, 0), 0, [], []), 0, 0, 0, 0, [])
  }

  const PRESS := InputEvent(0, KeyDown, VK_A, 30, 0, 0, 0)
  const STROKE := KeyStroke(VK_A, 30, true, 0)

  lemma {:induction false} OneDelivery(i: nat, s: Strategy, n: nat)
    requires i < MAX_TARGETS
    ensures Deliveries({i}, s, n) == if i < n then [Deliver(i, s)] else []
  {
    if n > 0 {
      OneDelivery(i, s, n - 1);
    }
  }

  lemma SelectsSlave(e: Surroundings, st: State, ev: InputEvent)
    requires e == Stuck() || e == Cooperative()
    requires st == Fresh(true) || st == Fresh(false)
    requires ev == PRESS || IsPointer(ev)
    ensures Selected(ev, st.routes, AliveBelow(e.desktop, st.targets, st.desk.clock, MAX_TARGETS), st.master,
                     Applied(st.keys, ev)) == {1}
    ensures StrategyFor(ev, st.routes) == FocusCycle && !IsSwapKey(ev, st.routes)
  {
    var alive := AliveBelow(e.desktop, st.targets, st.desk.clock, MAX_TARGETS);
    assert alive == {0, 1};
  }

  /** The plan for the slave: deliver, restore what a pointer or a key event needs restored, re-assert what is held. */
  lemma SlavePlan(e: Surroundings, st: State, ev: InputEvent)
    requires e == Stuck() || e == Cooperative()
    requires st == Fresh(true) || st == Fresh(false)
    requires ev == PRESS || IsPointer(ev)
    ensures Planned(e, st, ev).actions
            == [Deliver(1, FocusCycle)] + Repairs(IsPointer(ev), Held(Applied(st.keys, ev)) != {})
    ensures CyclesFocus(Planned(e, st, ev).actions)
  {
    SelectsSlave(e, st, ev);
    OneDelivery(1, FocusCycle, MAX_TARGETS);
    assert Deliver(1, FocusCycle) in Planned(e, st, ev).actions;
  }

  lemma PressPlan(e: Surroundings, st: State)
    requires e == Stuck() || e == Cooperative()
    requires st == Fresh(true) || st == Fresh(false)
    ensures Held(Applied(st.keys, PRESS)) == {VK_A}
    ensures Planned(e, st, PRESS).actions == [Deliver(1, FocusCycle), RestoreFocus, ReassertHeld]
    ensures
      var s := Started(st, PRESS);
      BeforeRestore(e, s, Planned(e, st, PRESS).actions, PRESS) == Delivered(e, s, 1, FocusCycle, PRESS)
  {
    FreshIsInView(st);
    SlavePlan(e, st, PRESS);
    OneBefore(e, Started(st, PRESS), Planned(e, st, PRESS).actions);
  }

  lemma OneBefore(e: Surroundings, s: State, actions: seq<Action>)
    requires Held(s.keys) != {} && actions == [Deliver(1, FocusCycle), RestoreFocus, ReassertHeld]
    ensures BeforeRestore(e, s, actions, PRESS) == Delivered(e, s, 1, FocusCycle, PRESS)
  {
    ExecutedOne(e, s, Deliver(1, FocusCycle), PRESS);
    assert actions[..1] == [Deliver(1, FocusCycle)];
  }

  /** Pressing the key goes to the slave with the first switch. */
  lemma PressDelivered(e: Surroundings, st: State)
    requires e == Stuck() || e == Cooperative()
    requires st == Fresh(true) || st == Fresh(false)
    ensures
      var s := Started(st, PRESS);
      && Delivered(e, s, 1, FocusCycle, PRESS).desk
         == Inject(Bring(e.desktop, s.desk, SLAVE).0, ForTarget(SLAVE), STROKE)
      && Bring(e.desktop, s.desk, SLAVE).1
      && Delivered(e, s, 1, FocusCycle, PRESS).desk.foreground == SLAVE
      && Delivered(e, s, 1, FocusCycle, PRESS).desk.clock == 2
  {
    var s := Started(st, PRESS);
    InjectOne(Bring(e.desktop, s.desk, SLAVE).0, ForTarget(SLAVE), STROKE);
    assert Payloads(e, s, SLAVE, PRESS) == [STROKE];
  }

  // ---- A restore that fails

  lemma StuckRestore(e: Surroundings, before: State)
    requires e == Stuck() && before.targets == [MASTER, SLAVE] && before.master == 0 && before.desk.foreground == SLAVE
    ensures !Bring(e.desktop, before.desk, MASTER).1 && FocusRestored(e, before).desk.foreground == SLAVE
  {
  }

  lemma StrayRun(e: Surroundings, st: State)
    requires HeldKeysGoTo(e, st, PRESS, SLAVE)
    ensures Strays(e, st, [PRESS], SLAVE)
  {
    assert [PRESS][..0] == [];
  }

  /** After the delivery the slave is in front, and stays there. */
  lemma RestoreFails(e: Surroundings, st: State)
    requires e == Stuck() && st == Fresh(false)
    ensures MasterAlive(e, st, PRESS) && !RestoreSucceeds(e, st, PRESS) && HeldKeysGoTo(e, st, PRESS, SLAVE)
  {
    PressPlan(e, st);
    PressDelivered(e, st);
    StuckRestore(e, Delivered(e, Started(st, PRESS), 1, FocusCycle, PRESS));
  }

  lemma TwoStrokes(e: Surroundings, st: State)
    requires e == Stuck() && st == Fresh(false)
    ensures InputsHandled(e, st, PRESS, 1, SLAVE) == [STROKE, STROKE]
  {
    RestoreFails(e, st);
    FirstGranted(e, st);
    assert Payloads(e, st, SLAVE, PRESS) == [STROKE];
    ActsOfStrokes([STROKE]);
    OneHeld(Applied(st.keys, PRESS));
  }

  lemma SlaveGetsTwo(e: Surroundings, st: State)
    requires e == Stuck() && st == Fresh(false)
    ensures InjectedInto(Handled(e, st, PRESS).desk.injected, SLAVE) == [STROKE, STROKE]
  {
    TwoStrokes(e, st);
    HandledLogs(e, st, PRESS, 1, SLAVE);
    FirstInputs(st.desk, Handled(e, st, PRESS).desk, SLAVE, [STROKE, STROKE],
                If(PostedOne(e, st, PRESS, 1), Messages(e, st, SLAVE, PRESS)));
  }

  lemma FirstInputs(d: Desk, d': Desk, h: Hwnd, ps: seq<Payload>, ms: seq<Message>)
    requires Received(d, d', h, ps, ms) && d.injected == []
    ensures InjectedInto(d'.injected, h) == ps
  {
  }

  lemma FirstGranted(e: Surroundings, st: State)
    requires e == Stuck() && st == Fresh(false)
    ensures Granted(e, st, PRESS, 1)
  {
    PressPlan(e, st);
    PressDelivered(e, st);
    var s, d := Started(st, PRESS), [Deliver(1, FocusCycle)];
    assert d[..0] == [];
    assert GrantedIn(e, s, d, PRESS, 1);
    assert Planned(e, st, PRESS).actions[..2][..1] == d;
    assert Planned(e, st, PRESS).actions[..2] == Planned(e, st, PRESS).actions[..|Planned(e, st, PRESS).actions| - 1];
  }

  lemma {:induction false} OnlyHeld(keys: KeyTable, vk: nat, n: nat)
    requires vk < KEYS && n <= KEYS && forall k | 0 <= k < KEYS :: keys[k].down <==> k == vk
    ensures HeldInOrder(keys, n) == if vk < n then [HeldKey(vk, keys[vk])] else []
  {
    if n > 0 {
      OnlyHeld(keys, vk, n - 1);
    }
  }

  lemma OneHeld(keys: KeyTable)
    requires keys == EmptyTable()[VK_A := Key(true, 30, 0)]
    ensures HeldPayloads(keys) == [STROKE]
  {
    OnlyHeld(keys, VK_A, KEYS);
  }

  /**
   The slave keeps the focus: the master is alive, its restore fails, and one press is put into the slave twice. So
   the window gets more than the event granted to it, and the master's view is not back.
   */
  lemma RestoreCanFail()
    ensures
      var e, st := Stuck(), Fresh(false);
      var st' := Handled(e, st, PRESS);
      && InView(st)
      && MasterAlive(e, st, PRESS) && !RestoreSucceeds(e, st, PRESS)
      && !InView(st') && VK_A in Held(st'.keys)
      && HeldKeysGoTo(e, st, PRESS, SLAVE) && Strays(e, st, [PRESS], SLAVE)
      && InjectedInto(st'.desk.injected, SLAVE) == [STROKE, STROKE]
  {
    var e, st := Stuck(), Fresh(false);
    RestoreFails(e, st);
    SlaveGetsTwo(e, st);
    StrayRun(e, st);
    ViewIsLost(e, st);
  }

  lemma ViewIsLost(e: Surroundings, st: State)
    requires e == Stuck() && st == Fresh(false)
    ensures InView(st) && !InView(Handled(e, st, PRESS)) && VK_A in Held(Handled(e, st, PRESS).keys)
  {
    RestoreFails(e, st);
    FreshIsInView(st);
    SlavePlan(e, st, PRESS);
    RepairIffRestored(e, st, PRESS);
    CycleShows(e, st, PRESS, {});
  }

  // ---- A swallowed key that the master gets to see

  lemma CooperativeRestore(e: Surroundings, st: State)
    requires e == Cooperative() && st == Fresh(true)
    ensures RestoreSucceeds(e, st, PRESS)
  {
    PressPlan(e, st);
    PressDelivered(e, st);
  }

  lemma FreshIsInView(st: State)
    requires st == Fresh(true) || st == Fresh(false)
    ensures InView(st) && Held(Applied(st.keys, PRESS)) == {VK_A}
  {
    assert Held(st.keys) == {};
  }

  /** The key is bound with swallowing, the cycle works as intended, and the master's game ends up with the key down. */
  lemma SwallowedKeyCanShow()
    ensures
      var e, st := Cooperative(), Fresh(true);
      var st' := Handled(e, st, PRESS);
      && InView(st) && RestoreSucceeds(e, st, PRESS) && st.routes.Swallows(VK_A)
      && KeysOf(st'.desk, MASTER) == {VK_A} && Visible(st') == {}
  {
    var e, st := Cooperative(), Fresh(true);
    FreshIsInView(st);
    CooperativeRestore(e, st);
    SlavePlan(e, st, PRESS);
    CycleShows(e, st, PRESS, {});
    RepairRestoresMaster(e, st, PRESS);
  }

  // ---- A wheel event that moves the master's cursor

  /** Scrolling down one notch in the middle of a 1920 x 1080 desktop leaves the cursor somewhere else; a click does not. */
  lemma ScrollMovesCursor(cfg: Capture.Settings)
    ensures
      var e, st := Cooperative(), Fresh(false);
      var scroll := Capture.MouseInput(Capture.MouseWheel, 960, 540, -120, false, 0, 0);
      var click := Capture.MouseInput(Capture.LButtonDown, 960, 540, 0, false, 0, 0);
      && Capture.MouseEvent(cfg, scroll).Some? && Capture.MouseEvent(cfg, click).Some?
      && Handled(e, st, Capture.MouseEvent(cfg, scroll).value).desk.cursor != ToAbsolute(SCREEN, 960, 540)
      && Handled(e, st, Capture.MouseEvent(cfg, click).value).desk.cursor == ToAbsolute(SCREEN, 960, 540)
  {
    var e, st := Cooperative(), Fresh(false);
    var scroll := Capture.MouseInput(Capture.MouseWheel, 960, 540, -120, false, 0, 0);
    var click := Capture.MouseInput(Capture.LButtonDown, 960, 540, 0, false, 0, 0);
    SlavePlan(e, st, Capture.MouseEvent(cfg, scroll).value);
    SlavePlan(e, st, Capture.MouseEvent(cfg, click).value);
    CursorAfterHook(e, st, cfg, scroll);
    CursorAfterHook(e, st, cfg, click);
  }

  // ---- A key that stays down

  const VK_F12 := 123
  const RELEASE := InputEvent(1, KeyUp, VK_F12, 88, 0, 0, 0)
  const CLICK := InputEvent(2, MouseDown, 1, 0, 0, 400, 300)

  /** The slave never gets the focus. */
  function Refusing(): Surroundings {
    Around(n => MASTER)
  }

  /** The swap key is held and, after a click mirrored meanwhile, down in the master's game too. */
  function SwapKeyShown(): State {
    var st := Fresh(false);
    st.(routes := st.routes.(swapHotkeyVk := VK_F12), pendingRoutes := st.routes.(swapHotkeyVk := VK_F12),
        keys := EmptyTable()[VK_F12 := Key(true, 88, 0)], desk := st.desk.(keys := map[MASTER := {VK_F12}]))
  }

  /** The same after its release, which the hook swallows and the broadcaster only records. */
  function SwapKeyStuck(): State {
    var st := SwapKeyShown();
    st.(keys := EmptyTable()[VK_F12 := Key(false, 88, 0)], desk := st.desk.(clock := 1))
  }

  lemma ReleaseSticks()
    ensures
      var e, st := Refusing(), SwapKeyShown();
      && InView(st) && Recovery.Sticks(st, RELEASE) && Handled(e, Arrived(st, RELEASE), RELEASE) == SwapKeyStuck()
  {
    var e, st := Refusing(), SwapKeyShown();
    assert Held(st.keys) == {VK_F12};
    assert Planned(e, st, RELEASE).actions == [];
    assert Handled(e, st, RELEASE) == Started(st, RELEASE);
  }

  lemma StuckClick()
    ensures
      var e, st := Refusing(), SwapKeyStuck();
      && Planned(e, st, CLICK).actions == [Deliver(1, FocusCycle), RestoreCursor, RestoreFocus]
      && CyclesFocus(Planned(e, st, CLICK).actions) && Held(Applied(st.keys, CLICK)) == {}
  {
    var e, st := Refusing(), SwapKeyStuck();
    var alive := AliveBelow(e.desktop, st.targets, st.desk.clock, MAX_TARGETS);
    assert alive == {0, 1};
    assert Selected(CLICK, st.routes, alive, st.master, Applied(st.keys, CLICK)) == {1};
    assert Held(Applied(st.keys, CLICK)) == {};
    OneDelivery(1, FocusCycle, MAX_TARGETS);
    assert Deliver(1, FocusCycle) in Planned(e, st, CLICK).actions;
  }

  /** Up to the restore nothing happens but a refused switch and the cursor put back. */
  lemma StuckBefore()
    ensures
      var e, st := Refusing(), SwapKeyStuck();
      var before := BeforeRestore(e, Started(st, CLICK), Planned(e, st, CLICK).actions, CLICK);
      before.targets == [MASTER, SLAVE] && before.master == 0 && before.desk.foreground == MASTER
      && KeysOf(before.desk, MASTER) == {VK_F12}
  {
    var e, st := Refusing(), SwapKeyStuck();
    StuckClick();
    TwoBefore(e, Started(st, CLICK), Planned(e, st, CLICK).actions);
    RefusedDelivery(e, Started(st, CLICK));
  }

  lemma TwoBefore(e: Surroundings, s: State, actions: seq<Action>)
    requires Held(s.keys) == {} && actions == [Deliver(1, FocusCycle), RestoreCursor, RestoreFocus]
    ensures BeforeRestore(e, s, actions, CLICK) == Executed(e, Delivered(e, s, 1, FocusCycle, CLICK), RestoreCursor, CLICK)
  {
    var ds := [Deliver(1, FocusCycle)];
    assert actions[..2] == ds + [RestoreCursor];
    ExecutedAllConcat(e, s, ds, [RestoreCursor], CLICK);
    ExecutedOne(e, s, Deliver(1, FocusCycle), CLICK);
    ExecutedOne(e, Delivered(e, s, 1, FocusCycle, CLICK), RestoreCursor, CLICK);
  }

  lemma RefusedDelivery(e: Surroundings, s: State)
    requires e == Refusing() && s.targets == [MASTER, SLAVE] && s.desk.foreground == MASTER
    ensures
      var s' := Delivered(e, s, 1, FocusCycle, CLICK);
      s'.targets == s.targets && s'.master == s.master && s'.desk.foreground == MASTER && s'.desk.keys == s.desk.keys
  {
  }

  lemma StuckCycle(e: Surroundings, st: State)
    requires e == Refusing() && st == SwapKeyStuck()
    ensures CyclesFocus(Planned(e, st, CLICK).actions) && MasterAlive(e, st, CLICK) && RestoreSucceeds(e, st, CLICK)
    ensures Leftover(e, st, CLICK) == {VK_F12} && Held(Applied(st.keys, CLICK)) == {}
  {
    StuckClick();
    StuckBefore();
  }

  lemma StuckStays(e: Surroundings, st: State)
    requires e == Refusing() && st == SwapKeyStuck()
    ensures Shows(Handled(e, st, CLICK), {VK_F12}) && Handled(e, st, CLICK).targets[0] == MASTER
    ensures Held(Handled(e, st, CLICK).keys) == {} && !InView(Handled(e, st, CLICK))
  {
    StuckCycle(e, st);
    CycleShows(e, st, CLICK, {});
    RepairRestoresMaster(e, st, CLICK);
    assert {VK_F12} + {} == {VK_F12};
  }

  lemma OneRelease(e: Surroundings, st: State)
    requires e == Refusing() && st == SwapKeyShown()
    ensures Arrived(RunOf(e, st, [RELEASE]), CLICK) == SwapKeyStuck()
  {
    ReleaseSticks();
    assert [RELEASE][..0] == [];
    assert RunOf(e, st, []) == st;
  }

  /**
   From a view in step, releasing the swap key and then clicking leaves that key down in the master's game although
   no key is held, the slave refused the focus, and the master was restored.
   */
  lemma KeyCanStayDown()
    ensures
      var e, st := Refusing(), SwapKeyShown();
      var there := Arrived(RunOf(e, st, [RELEASE]), CLICK);
      && InView(st)
      && CyclesFocus(Planned(e, there, CLICK).actions) && MasterAlive(e, there, CLICK) && RestoreSucceeds(e, there, CLICK)
      && Held(Handled(e, there, CLICK).keys) == {} && Shows(Handled(e, there, CLICK), {VK_F12})
      && !InView(Handled(e, there, CLICK))
  {
    ReleaseSticks();
    OneRelease(Refusing(), SwapKeyShown());
    StuckCycle(Refusing(), SwapKeyStuck());
    StuckStays(Refusing(), SwapKeyStuck());
  }

  // ---- A handover that loses the held keys

  const VK_W := 87
  const SWAP := InputEvent(1, KeyDown, VK_F12, 88, 0, 0, 0)

  /** The callback makes the slave the master, and its window takes the focus. */
  function Swapping(): Surroundings {
    Stuck().(onSwap := n => Some(SwapAnswer([MASTER, SLAVE], 1, SLAVE)))
  }

  /** A key is held, and down in the master's game as it should be. */
  function Walking(): State {
    var st := Fresh(false);
    st.(routes := st.routes.(swapHotkeyVk := VK_F12), pendingRoutes := st.routes.(swapHotkeyVk := VK_F12),
        keys := EmptyTable()[VK_W := Key(true, 17, 0)], desk := st.desk.(keys := map[MASTER := {VK_W}]))
  }

  /** After the swap the new master is in front, and its game lacks a key that it should see. */
  lemma HandoverCanLoseKeys()
    ensures
      var e, st := Swapping(), Walking();
      var st' := Handled(e, st, SWAP);
      && InView(st) && SwapPress.HandsOver(e, st, SWAP)
      && Shows(st', {}) && VK_W in Visible(st')
  {
    var e, st := Swapping(), Walking();
    assert Held(st.keys) == {VK_W};
    SwapPress.PressEffect(e, st, SWAP);
    SwapPress.SwapShows(e, st, SWAP, {});
  }
}
