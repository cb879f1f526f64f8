/**
 What one window receives over a run of the broadcaster, whoever it was meant for: its own part of the popped
 stream, and the held keys whenever a cycle ends with the wrong window in front.
 */
module TargetStreams {
  import opened Broadcaster
  import opened Desktop
  import opened Dispatch
  import opened Geometry
  import opened InputEvents
  import opened KeyStates
  import opened MasterView
  import opened Routing

  // ---- The desktop's logs, seen from one window

  /** Key, button and wheel inputs; moving the cursor is no input to a window. */
  predicate Acts(p: Payload) {
    !p.MoveTo?
  }

  function ActsOf(ps: seq<Payload>): seq<Payload> {
    if ps == [] then []
    else ActsOf(ps[..|ps| - 1]) + if Acts(ps[|ps| - 1]) then [ps[|ps| - 1]] else []
  }

  /** The inputs that went into window `h`: those injected while it was in front. */
  function InjectedInto(log: seq<Injection>, h: Hwnd): seq<Payload> {
    if log == [] then []
    else
      var last := log[|log| - 1];
      InjectedInto(log[..|log| - 1], h) + if last.window == h && Acts(last.payload) then [last.payload] else []
  }

  function PostedTo(log: seq<Post>, h: Hwnd): seq<Message> {
    if log == [] then []
    else PostedTo(log[..|log| - 1], h) + if log[|log| - 1].window == h then [log[|log| - 1].message] else []
  }

  lemma {:induction false} InjectedConcat(a: seq<Injection>, b: seq<Injection>, h: Hwnd)
    ensures InjectedInto(a + b, h) == InjectedInto(a, h) + InjectedInto(b, h)
    decreases |b|
  {
    if b == [] {
      assert a + b == a;
    } else {
      InjectedConcat(a, b[..|b| - 1], h);
      assert (a + b)[..|a + b| - 1] == a + b[..|b| - 1];
    }
  }

  lemma {:induction false} PostedToConcat(a: seq<Post>, b: seq<Post>, h: Hwnd)
    ensures PostedTo(a + b, h) == PostedTo(a, h) + PostedTo(b, h)
    decreases |b|
  {
    if b == [] {
      assert a + b == a;
    } else {
      PostedToConcat(a, b[..|b| - 1], h);
      assert (a + b)[..|a + b| - 1] == a + b[..|b| - 1];
    }
  }

  lemma {:induction false} InjectedBlock(front: Hwnd, purpose: Purpose, ps: seq<Payload>, h: Hwnd)
    ensures InjectedInto(seq(|ps|, i requires 0 <= i < |ps| => Injection(front, purpose, ps[i])), h)
            == if front == h then ActsOf(ps) else []
  {
    if ps != [] {
      var before := ps[..|ps| - 1];
      var block := seq(|ps|, i requires 0 <= i < |ps| => Injection(front, purpose, ps[i]));
      InjectedBlock(front, purpose, before, h);
      assert block[..|block| - 1] == seq(|before|, i requires 0 <= i < |before| => Injection(front, purpose, before[i]));
    }
  }

  lemma {:induction false} ActsOfStrokes(ps: seq<Payload>)
    requires forall p | p in ps :: p.KeyStroke?
    ensures ActsOf(ps) == ps
  {
    if ps != [] {
      assert ps[|ps| - 1] in ps;
      ActsOfStrokes(ps[..|ps| - 1]);
      assert ps == ps[..|ps| - 1] + [ps[|ps| - 1]];
    }
  }

  lemma {:induction false} PostedBlock(w: Hwnd, ms: seq<Message>, h: Hwnd)
    ensures PostedTo(seq(|ms|, i requires 0 <= i < |ms| => Post(w, ms[i])), h) == if w == h then ms else []
  {
    if ms != [] {
      var before := ms[..|ms| - 1];
      var block := seq(|ms|, i requires 0 <= i < |ms| => Post(w, ms[i]));
      PostedBlock(w, before, h);
      assert block[..|block| - 1] == seq(|before|, i requires 0 <= i < |before| => Post(w, before[i]));
      assert ms == before + [ms[|ms| - 1]];
    }
  }

  lemma InjectAllInto(d: Desk, purpose: Purpose, ps: seq<Payload>, h: Hwnd)
    ensures InjectAll(d, purpose, ps).posted == d.posted && InjectAll(d, purpose, ps).foreground == d.foreground
    ensures InjectedInto(InjectAll(d, purpose, ps).injected, h)
            == InjectedInto(d.injected, h) + If(d.foreground == h, ActsOf(ps))
  {
    InjectAllLogs(d, purpose, ps);
    InjectedBlock(d.foreground, purpose, ps, h);
    InjectedConcat(d.injected, seq(|ps|, i requires 0 <= i < |ps| => Injection(d.foreground, purpose, ps[i])), h);
  }

  lemma PostAllFor(d: Desk, w: Hwnd, ms: seq<Message>, h: Hwnd)
    ensures PostAll(d, w, ms).injected == d.injected
    ensures PostedTo(PostAll(d, w, ms).posted, h) == PostedTo(d.posted, h) + if w == h then ms else []
  {
    PostedBlock(w, ms, h);
    PostedToConcat(d.posted, seq(|ms|, i requires 0 <= i < |ms| => Post(w, ms[i])), h);
  }

  // ---- One action

  /** Between two desktops, window `h` was given the inputs `ps` and posted `ms`, by anybody and for any reason. */
  predicate Received(d: Desk, d': Desk, h: Hwnd, ps: seq<Payload>, ms: seq<Message>) {
    InjectedInto(d'.injected, h) == InjectedInto(d.injected, h) + ps && PostedTo(d'.posted, h) == PostedTo(d.posted, h) + ms
  }

  function If<T>(c: bool, xs: seq<T>): seq<T> {
    if c then xs else []
  }

  predicate SameConfig(s: State, s': State) {
    s'.routes == s.routes && s'.targets == s.targets && s'.master == s.master && s'.keys == s.keys
  }

  /** Window `h` is that of instance `i` and of nobody else. */
  ghost predicate Owns(targets: seq<Hwnd>, i: nat, h: Hwnd) {
    i < |targets| && targets[i] == h && forall j | 0 <= j < |targets| && targets[j] == h :: j == i
  }

  predicate FocusGranted(e: Surroundings, s: State, a: Action, i: nat) {
    a == Deliver(i, FocusCycle) && i < |s.targets| && Bring(e.desktop, s.desk, s.targets[i]).1
  }

  /** The inputs of one event in window `h`. */
  function Inputs(e: Surroundings, st: State, h: Hwnd, ev: InputEvent): seq<Payload> {
    ActsOf(Payloads(e, st, h, ev))
  }

  lemma DeliveredLogs(e: Surroundings, s: State, j: nat, strategy: Strategy, ev: InputEvent, i: nat, h: Hwnd)
    requires Owns(s.targets, i, h)
    ensures Received(s.desk, Delivered(e, s, j, strategy, ev).desk, h,
                     If(FocusGranted(e, s, Deliver(j, strategy), i), Inputs(e, s, h, ev)),
                     If(Deliver(j, strategy) == Deliver(i, WindowMessage), Messages(e, s, h, ev)))
  {
    if j < |s.targets| {
      var w := s.targets[j];
      if strategy.WindowMessage? {
        PostAllFor(s.desk, w, Messages(e, s, w, ev), h);
      } else {
        BringOutcome(e.desktop, s.desk, w);
        InjectAllInto(Bring(e.desktop, s.desk, w).0, ForTarget(w), Payloads(e, s, w, ev), h);
      }
    }
  }

  lemma CursorIsNoInput(d: Desk, at: AbsPoint, h: Hwnd)
    ensures Received(d, Inject(d, ForMaster, MoveTo(at)), h, [], [])
  {
    InjectOne(d, ForMaster, MoveTo(at));
    InjectAllInto(d, ForMaster, [MoveTo(at)], h);
    assert [MoveTo(at)][..0] == [];
  }

  /** Everything but re-asserting and swapping: a window is given an input only if it is the one delivered to. */
  lemma ExecutedLogs(e: Surroundings, s: State, a: Action, ev: InputEvent, i: nat, h: Hwnd)
    requires Owns(s.targets, i, h) && !a.SwapMaster? && !a.ReassertHeld?
    ensures SameConfig(s, Executed(e, s, a, ev))
    ensures Received(s.desk, Executed(e, s, a, ev).desk, h,
                     If(FocusGranted(e, s, a, i), Inputs(e, s, h, ev)),
                     If(a == Deliver(i, WindowMessage), Messages(e, s, h, ev)))
  {
    match a
    case Deliver(j, strategy) => DeliveredLogs(e, s, j, strategy, ev, i, h);
    case RestoreFocus =>
      if s.master < |s.targets| {
        BringOutcome(e.desktop, s.desk, s.targets[s.master]);
      }
    case RestoreCursor => CursorIsNoInput(s.desk, ToAbsolute(e.desktop.screen, ev.x, ev.y), h);
  }

  /** Re-asserting gives the held keys to the window in front, whichever that is. */
  lemma ReassertedLogs(s: State, h: Hwnd)
    ensures Received(s.desk, HeldReasserted(s).desk, h, If(s.desk.foreground == h, HeldPayloads(s.keys)), [])
  {
    HeldPayloadsPress(s.keys);
    ActsOfStrokes(HeldPayloads(s.keys));
    InjectAllInto(s.desk, ForMaster, HeldPayloads(s.keys), h);
  }

  // ---- One plan

  /** Did some action of the plan deliver to instance `i` with the focus granted? */
  predicate GrantedIn(e: Surroundings, s: State, actions: seq<Action>, ev: InputEvent, i: nat) {
    actions != [] &&
    var before, last := actions[..|actions| - 1], actions[|actions| - 1];
    GrantedIn(e, s, before, ev, i) || FocusGranted(e, ExecutedAll(e, s, before, ev), last, i)
  }

  lemma {:induction false} GrantedIsPlanned(e: Surroundings, s: State, actions: seq<Action>, ev: InputEvent, i: nat)
    requires GrantedIn(e, s, actions, ev, i)
    ensures Deliver(i, FocusCycle) in actions
  {
    var before := actions[..|actions| - 1];
    if GrantedIn(e, s, before, ev, i) {
      GrantedIsPlanned(e, s, before, ev, i);
    }
  }

  lemma SamePayloads(e: Surroundings, s: State, s': State, h: Hwnd, ev: InputEvent)
    requires SameConfig(s, s')
    ensures Payloads(e, s', h, ev) == Payloads(e, s, h, ev) && Messages(e, s', h, ev) == Messages(e, s, h, ev)
  {
  }

  lemma AtMostOnce(before: seq<Action>, last: Action, i: nat)
    requires DeliveriesFirst(before + [last]) && last.Deliver? && last.target == i
    ensures forall s :: Deliver(i, s) !in before
  {
    var all := before + [last];
    assert all[|before|] == last;
    forall j: nat | j < |before| ensures before[j].Deliver? && before[j].target < i {
      assert all[j] == before[j];
    }
  }

  lemma OnceInAll<T>(base: seq<T>, xs: seq<T>, p: bool, q: bool)
    requires !(p && q)
    ensures base + If(p, xs) + If(q, xs) == base + If(p || q, xs)
  {
  }

  lemma ReceivedOnceInAll(d: Desk, d1: Desk, d2: Desk, h: Hwnd, ps: seq<Payload>, ms: seq<Message>,
                          p1: bool, p2: bool, m1: bool, m2: bool)
    requires Received(d, d1, h, If(p1, ps), If(m1, ms)) && Received(d1, d2, h, If(p2, ps), If(m2, ms))
    requires !(p1 && p2) && !(m1 && m2)
    ensures Received(d, d2, h, If(p1 || p2, ps), If(m1 || m2, ms))
  {
    OnceInAll(InjectedInto(d.injected, h), ps, p1, p2);
    OnceInAll(PostedTo(d.posted, h), ms, m1, m2);
  }

  predicate Posts(actions: seq<Action>, i: nat) {
    Deliver(i, WindowMessage) in actions
  }

  /** The parts of a plan deliver to an instance once in all. */
  lemma PartsDeliverOnce(e: Surroundings, s: State, before: seq<Action>, last: Action, ev: InputEvent, i: nat)
    requires DeliveriesFirst(before + [last])
    ensures DeliveriesFirst(before)
    ensures Posts(before + [last], i) <==> Posts(before, i) || last == Deliver(i, WindowMessage)
    ensures GrantedIn(e, s, before + [last], ev, i)
            <==> GrantedIn(e, s, before, ev, i) || FocusGranted(e, ExecutedAll(e, s, before, ev), last, i)
    ensures last.Deliver? && last.target == i ==> !Posts(before, i) && !GrantedIn(e, s, before, ev, i)
  {
    assert (before + [last])[..|before|] == before;
    assert forall j | 0 <= j < |before| :: (before + [last])[j] == before[j];
    if last.Deliver? && last.target == i {
      AtMostOnce(before, last, i);
      if GrantedIn(e, s, before, ev, i) {
        GrantedIsPlanned(e, s, before, ev, i);
      }
    }
  }

  lemma ExecutedSnoc(e: Surroundings, s: State, before: seq<Action>, last: Action, ev: InputEvent)
    ensures ExecutedAll(e, s, before + [last], ev) == Executed(e, ExecutedAll(e, s, before, ev), last, ev)
  {
    assert (before + [last])[..|before|] == before;
  }

  lemma {:induction false} PlanLogs(e: Surroundings, s: State, actions: seq<Action>, ev: InputEvent, i: nat, h: Hwnd)
    requires Owns(s.targets, i, h) && DeliveriesFirst(actions) && SwapMaster !in actions && ReassertHeld !in actions
    ensures SameConfig(s, ExecutedAll(e, s, actions, ev))
    ensures Received(s.desk, ExecutedAll(e, s, actions, ev).desk, h,
                     If(GrantedIn(e, s, actions, ev, i), Inputs(e, s, h, ev)),
                     If(Posts(actions, i), Messages(e, s, h, ev)))
  {
    if actions != [] {
      var before, last := actions[..|actions| - 1], actions[|actions| - 1];
      var mid := ExecutedAll(e, s, before, ev);
      assert actions == before + [last];
      PartsDeliverOnce(e, s, before, last, ev, i);
      PlanLogs(e, s, before, ev, i, h);
      ExecutedSnoc(e, s, before, last, ev);
      ExecutedLogs(e, mid, last, ev, i, h);
      SamePayloads(e, s, mid, h, ev);
      ReceivedOnceInAll(s.desk, mid.desk, Executed(e, mid, last, ev).desk, h, Inputs(e, s, h, ev), Messages(e, s, h, ev),
                        GrantedIn(e, s, before, ev, i), FocusGranted(e, mid, last, i),
                        Posts(before, i), last == Deliver(i, WindowMessage));
    }
  }

  // ---- One event

  /** What the broadcaster sees of the outside world when it handles `ev`. */
  function Observed(e: Surroundings, st: State, ev: InputEvent): Observation {
    Observation(ev, AliveBelow(e.desktop, st.targets, st.desk.clock, MAX_TARGETS))
  }

  predicate Granted(e: Surroundings, st: State, ev: InputEvent, i: nat) {
    GrantedIn(e, Started(st, ev), Planned(e, st, ev).actions, ev, i)
  }

  predicate EligibleFor(e: Surroundings, st: State, ev: InputEvent, i: nat) {
    Eligible(ev, st.routes, Observed(e, st, ev).alive, st.master, Applied(st.keys, ev), i)
  }

  predicate PostedOne(e: Surroundings, st: State, ev: InputEvent, i: nat) {
    EligibleFor(e, st, ev, i) && StrategyFor(ev, st.routes).WindowMessage?
  }

  /** A focus delivery is only granted to an eligible instance; a posted one goes out iff the instance is eligible. */
  lemma PlannedForEligible(e: Surroundings, st: State, ev: InputEvent, i: nat)
    ensures DeliveriesFirst(Planned(e, st, ev).actions)
    ensures Granted(e, st, ev, i) ==> EligibleFor(e, st, ev, i) && StrategyFor(ev, st.routes).FocusCycle?
    ensures Posts(Planned(e, st, ev).actions, i) <==> PostedOne(e, st, ev, i)
  {
    PlanDeliversToEligible(ev, st.routes, Observed(e, st, ev).alive, st.master, Applied(st.keys, ev));
    if Granted(e, st, ev, i) {
      GrantedIsPlanned(e, Started(st, ev), Planned(e, st, ev).actions, ev, i);
    }
  }

  /** A cycle ends with keys held and window `h` in front: `h` is given those keys. */
  ghost predicate HeldKeysGoTo(e: Surroundings, st: State, ev: InputEvent, h: Hwnd) {
    && CyclesFocus(Planned(e, st, ev).actions) && Held(Applied(st.keys, ev)) != {}
    && RestoreTried(e, st, ev).desk.foreground == h
  }

  /** What handling `ev` puts into window `h`: the event if granted, then the held keys if they go there. */
  ghost function InputsHandled(e: Surroundings, st: State, ev: InputEvent, i: nat, h: Hwnd): seq<Payload> {
    If(Granted(e, st, ev, i), Inputs(e, st, h, ev)) +
    If(HeldKeysGoTo(e, st, ev, h), HeldPayloads(Applied(st.keys, ev)))
  }

  /** The plan of a cycle up to its restore. */
  function Core(ds: seq<Action>, ev: InputEvent): seq<Action> {
    ds + CursorPart(ev) + [RestoreFocus]
  }

  lemma CoreFacts(e: Surroundings, s: State, actions: seq<Action>, ds: seq<Action>, ev: InputEvent, i: nat)
    requires IsCycle(s, actions, ds, ev) && DeliveriesFirst(actions) && forall a | a in ds :: a.Deliver?
    ensures DeliveriesFirst(Core(ds, ev)) && SwapMaster !in Core(ds, ev) && ReassertHeld !in Core(ds, ev)
    ensures GrantedIn(e, s, actions, ev, i) <==> GrantedIn(e, s, Core(ds, ev), ev, i)
    ensures Posts(actions, i) <==> Posts(Core(ds, ev), i)
  {
    var core := Core(ds, ev);
    if Held(s.keys) != {} {
      assert actions == core + [ReassertHeld];
      PartsDeliverOnce(e, s, core, ReassertHeld, ev, i);
    } else {
      assert actions == core;
    }
  }

  lemma CycleLogs(e: Surroundings, s: State, actions: seq<Action>, ds: seq<Action>, ev: InputEvent, i: nat, h: Hwnd)
    requires Owns(s.targets, i, h) && DeliveriesFirst(actions)
    requires IsCycle(s, actions, ds, ev) && forall a | a in ds :: a.Deliver?
    ensures SameConfig(s, ExecutedAll(e, s, actions, ev))
    ensures
      var restored := FocusRestored(e, BeforeRestore(e, s, actions, ev));
      Received(s.desk, ExecutedAll(e, s, actions, ev).desk, h,
               If(GrantedIn(e, s, actions, ev, i), Inputs(e, s, h, ev)) +
               If(Held(s.keys) != {} && restored.desk.foreground == h, HeldPayloads(s.keys)),
               If(Posts(actions, i), Messages(e, s, h, ev)))
  {
    var restored := FocusRestored(e, BeforeRestore(e, s, actions, ev));
    CoreFacts(e, s, actions, ds, ev, i);
    PlanLogs(e, s, Core(ds, ev), ev, i, h);
    CycleEnd(e, s, actions, ds, ev);
    EndLogs(s, restored, ExecutedAll(e, s, actions, ev), h, If(GrantedIn(e, s, actions, ev, i), Inputs(e, s, h, ev)),
            If(Posts(actions, i), Messages(e, s, h, ev)));
  }

  lemma EndLogs(s: State, restored: State, end: State, h: Hwnd, ps: seq<Payload>, ms: seq<Message>)
    requires SameConfig(s, restored) && Received(s.desk, restored.desk, h, ps, ms)
    requires end == if Held(s.keys) != {} then HeldReasserted(restored) else restored
    ensures SameConfig(s, end)
    ensures Received(s.desk, end.desk, h,
                     ps + If(Held(s.keys) != {} && restored.desk.foreground == h, HeldPayloads(s.keys)), ms)
  {
    if Held(s.keys) != {} {
      ReassertedLogs(restored, h);
      ReceivedThen(s.desk, restored.desk, end.desk, h, ps, ms, If(restored.desk.foreground == h, HeldPayloads(s.keys)), []);
      assert ms + [] == ms;
    } else {
      assert ps + [] == ps;
    }
  }

  lemma HandledLogs(e: Surroundings, st: State, ev: InputEvent, i: nat, h: Hwnd)
    requires Owns(st.targets, i, h) && !IsSwapPress(ev, st.routes)
    ensures SameConfig(st.(keys := Applied(st.keys, ev)), Handled(e, st, ev))
    ensures Received(st.desk, Handled(e, st, ev).desk, h, InputsHandled(e, st, ev, i, h),
                     If(PostedOne(e, st, ev, i), Messages(e, st, h, ev)))
  {
    var s, actions := Started(st, ev), Planned(e, st, ev).actions;
    NoSwapPlanned(e, st, ev);
    PlannedForEligible(e, st, ev, i);
    PayloadsIgnoreKeys(e, st, h, ev);
    if CyclesFocus(actions) {
      var ds := PlannedCycle(e, st, ev);
      CycleLogs(e, s, actions, ds, ev, i, h);
    } else {
      QuietPlanHasNoRepairs(e, st, ev);
      PlanLogs(e, s, actions, ev, i, h);
    }
  }

  lemma QuietPlanHasNoRepairs(e: Surroundings, st: State, ev: InputEvent)
    requires !CyclesFocus(Planned(e, st, ev).actions) && SwapMaster !in Planned(e, st, ev).actions
    ensures ReassertHeld !in Planned(e, st, ev).actions
  {
    PlanRepairsWhatItBreaks(ev, st.routes, Observed(e, st, ev).alive, st.master, Applied(st.keys, ev));
  }

  lemma PayloadsIgnoreKeys(e: Surroundings, st: State, h: Hwnd, ev: InputEvent)
    ensures Payloads(e, Started(st, ev), h, ev) == Payloads(e, st, h, ev)
    ensures Inputs(e, Started(st, ev), h, ev) == Inputs(e, st, h, ev)
    ensures Messages(e, Started(st, ev), h, ev) == Messages(e, st, h, ev)
  {
  }

  // ---- Whole runs under one configuration

  ghost predicate NoSwaps(evs: seq<InputEvent>, routes: RoutesView) {
    forall ev | ev in evs :: !IsSwapPress(ev, routes)
  }

  function ObservedRun(e: Surroundings, st: State, evs: seq<InputEvent>): seq<Observation> {
    if evs == [] then []
    else
      var before := evs[..|evs| - 1];
      ObservedRun(e, st, before) + [Observed(e, HandledAll(e, st, before), evs[|evs| - 1])]
  }

  /** The events of the run that were put into the window of `i` with the focus on it, in order. */
  function GrantedStream(e: Surroundings, st: State, evs: seq<InputEvent>, i: nat): seq<InputEvent> {
    if evs == [] then []
    else
      var before := evs[..|evs| - 1];
      GrantedStream(e, st, before, i) +
      if Granted(e, HandledAll(e, st, before), evs[|evs| - 1], i) then [evs[|evs| - 1]] else []
  }

  function InputsOf(e: Surroundings, st: State, h: Hwnd, evs: seq<InputEvent>): seq<Payload> {
    if evs == [] then [] else InputsOf(e, st, h, evs[..|evs| - 1]) + Inputs(e, st, h, evs[|evs| - 1])
  }

  function MessagesOf(e: Surroundings, st: State, h: Hwnd, evs: seq<InputEvent>): seq<Message> {
    if evs == [] then [] else MessagesOf(e, st, h, evs[..|evs| - 1]) + Messages(e, st, h, evs[|evs| - 1])
  }

  function WithStrategy(evs: seq<InputEvent>, routes: RoutesView, s: Strategy): seq<InputEvent> {
    if evs == [] then []
    else
      WithStrategy(evs[..|evs| - 1], routes, s) +
      if StrategyFor(evs[|evs| - 1], routes) == s then [evs[|evs| - 1]] else []
  }

  lemma EventsOfSnoc(run: seq<Observation>, o: Observation)
    ensures EventsOf(run + [o]) == EventsOf(run) + [o.ev]
  {
    assert (run + [o])[..|run|] == run;
  }

  lemma {:induction false} ObservedEvents(e: Surroundings, st: State, evs: seq<InputEvent>)
    ensures EventsOf(ObservedRun(e, st, evs)) == evs
  {
    if evs != [] {
      var before, ev := evs[..|evs| - 1], evs[|evs| - 1];
      ObservedEvents(e, st, before);
      var run, o := ObservedRun(e, st, before), Observed(e, HandledAll(e, st, before), ev);
      EventsOfSnoc(run, o);
      assert ObservedRun(e, st, evs) == run + [o];
      assert evs == before + [o.ev];
    }
  }

  lemma {:induction false} ConfigKept(e: Surroundings, st: State, evs: seq<InputEvent>, i: nat, h: Hwnd)
    requires Owns(st.targets, i, h) && NoSwaps(evs, st.routes)
    ensures SameConfig(st.(keys := ApplyAll(st.keys, evs)), HandledAll(e, st, evs))
  {
    if evs != [] {
      var before := evs[..|evs| - 1];
      ConfigKept(e, st, before, i, h);
      HandledLogs(e, HandledAll(e, st, before), evs[|evs| - 1], i, h);
    }
  }

  /** The next event of a run is eligible by the run's own bookkeeping exactly when the broadcaster finds it so. */
  lemma EligibleNext(e: Surroundings, st: State, before: seq<InputEvent>, ev: InputEvent, i: nat)
    requires SameConfig(st.(keys := ApplyAll(st.keys, before)), HandledAll(e, st, before))
    ensures
      var now := HandledAll(e, st, before);
      EligibleStream(st.routes, st.master, st.keys, ObservedRun(e, st, before) + [Observed(e, now, ev)], i)
      == EligibleStream(st.routes, st.master, st.keys, ObservedRun(e, st, before), i) + If(EligibleFor(e, now, ev, i), [ev])
  {
    var run, o := ObservedRun(e, st, before), Observed(e, HandledAll(e, st, before), ev);
    ObservedEvents(e, st, before);
    EventsOfSnoc(run, o);
    assert (run + [o])[..|run|] == run;
    assert (before + [ev])[..|before|] == before;
  }

  /** What of the run's eligible stream for `i` goes by strategy `s`. */
  function Due(e: Surroundings, st: State, evs: seq<InputEvent>, i: nat, s: Strategy): seq<InputEvent> {
    WithStrategy(EligibleStream(st.routes, st.master, st.keys, ObservedRun(e, st, evs), i), st.routes, s)
  }

  lemma WithStrategySnoc(evs: seq<InputEvent>, c: bool, ev: InputEvent, routes: RoutesView, s: Strategy)
    ensures WithStrategy(evs + If(c, [ev]), routes, s)
            == WithStrategy(evs, routes, s) + If(c && StrategyFor(ev, routes) == s, [ev])
  {
    if c {
      assert (evs + [ev])[..|evs|] == evs;
    } else {
      assert evs + [] == evs;
    }
  }

  lemma DueNext(e: Surroundings, st: State, before: seq<InputEvent>, ev: InputEvent, i: nat, s: Strategy)
    requires SameConfig(st.(keys := ApplyAll(st.keys, before)), HandledAll(e, st, before))
    ensures
      Due(e, st, before + [ev], i, s)
      == Due(e, st, before, i, s)
         + If(EligibleFor(e, HandledAll(e, st, before), ev, i) && StrategyFor(ev, st.routes) == s, [ev])
  {
    var now := HandledAll(e, st, before);
    assert (before + [ev])[..|before|] == before;
    EligibleNext(e, st, before, ev, i);
    WithStrategySnoc(EligibleStream(st.routes, st.master, st.keys, ObservedRun(e, st, before), i),
                     EligibleFor(e, now, ev, i), ev, st.routes, s);
  }

  lemma InputsOfNext(e: Surroundings, st: State, h: Hwnd, evs: seq<InputEvent>, c: bool, ev: InputEvent)
    ensures InputsOf(e, st, h, evs + If(c, [ev])) == InputsOf(e, st, h, evs) + If(c, Inputs(e, st, h, ev))
    ensures MessagesOf(e, st, h, evs + If(c, [ev])) == MessagesOf(e, st, h, evs) + If(c, Messages(e, st, h, ev))
  {
    if c {
      assert (evs + [ev])[..|evs|] == evs;
    } else {
      assert evs + [] == evs;
    }
  }

  lemma ReceivedThen(d: Desk, d1: Desk, d2: Desk, h: Hwnd, p1: seq<Payload>, m1: seq<Message>, p2: seq<Payload>, m2: seq<Message>)
    requires Received(d, d1, h, p1, m1) && Received(d1, d2, h, p2, m2)
    ensures Received(d, d2, h, p1 + p2, m1 + m2)
  {
  }

  lemma SameWhenConfigured(e: Surroundings, st: State, now: State, before: seq<InputEvent>, h: Hwnd, ev: InputEvent)
    requires SameConfig(st.(keys := ApplyAll(st.keys, before)), now)
    ensures Inputs(e, now, h, ev) == Inputs(e, st, h, ev) && Messages(e, now, h, ev) == Messages(e, st, h, ev)
  {
  }

  /** Everything a run puts into window `h`, event by event. */
  ghost function RunInputs(e: Surroundings, st: State, evs: seq<InputEvent>, i: nat, h: Hwnd): seq<Payload> {
    if evs == [] then []
    else
      var before := evs[..|evs| - 1];
      RunInputs(e, st, before, i, h) + InputsHandled(e, HandledAll(e, st, before), evs[|evs| - 1], i, h)
  }

  /** Some cycle of the run gave held keys to window `h`. */
  ghost predicate Strays(e: Surroundings, st: State, evs: seq<InputEvent>, h: Hwnd) {
    evs != [] &&
    var before := evs[..|evs| - 1];
    Strays(e, st, before, h) || HeldKeysGoTo(e, HandledAll(e, st, before), evs[|evs| - 1], h)
  }

  lemma {:induction false} RunLogs(e: Surroundings, st: State, evs: seq<InputEvent>, i: nat, h: Hwnd)
    requires Owns(st.targets, i, h) && NoSwaps(evs, st.routes)
    ensures Received(st.desk, HandledAll(e, st, evs).desk, h, RunInputs(e, st, evs, i, h),
                     MessagesOf(e, st, h, Due(e, st, evs, i, WindowMessage)))
  {
    if evs != [] {
      var before, ev := evs[..|evs| - 1], evs[|evs| - 1];
      var now := HandledAll(e, st, before);
      assert evs == before + [ev];
      RunLogs(e, st, before, i, h);
      ConfigKept(e, st, before, i, h);
      HandledLogs(e, now, ev, i, h);
      DueNext(e, st, before, ev, i, WindowMessage);
      SameWhenConfigured(e, st, now, before, h, ev);
      InputsOfNext(e, st, h, Due(e, st, before, i, WindowMessage), PostedOne(e, now, ev, i), ev);
      ReceivedThen(st.desk, now.desk, Handled(e, now, ev).desk, h,
                   RunInputs(e, st, before, i, h), MessagesOf(e, st, h, Due(e, st, before, i, WindowMessage)),
                   InputsHandled(e, now, ev, i, h), If(PostedOne(e, now, ev, i), Messages(e, st, h, ev)));
    }
  }

  lemma ExtrasCount(xs: seq<Payload>, base: seq<Payload>, mine: seq<Payload>, extra: seq<Payload>, strayed: bool, c: bool)
    requires |xs| >= |base| && (!strayed ==> xs == base) && (strayed ==> |xs| > |base|) && extra != []
    ensures
      var all, due := xs + (mine + If(c, extra)), base + mine;
      && |all| >= |due| && (!(strayed || c) ==> all == due) && (strayed || c ==> |all| > |due|)
  {
    assert mine + [] == mine;
  }

  lemma {:induction false} StraysAreExtra(e: Surroundings, st: State, evs: seq<InputEvent>, i: nat, h: Hwnd)
    requires Owns(st.targets, i, h) && NoSwaps(evs, st.routes)
    ensures
      var got, due := RunInputs(e, st, evs, i, h), InputsOf(e, st, h, GrantedStream(e, st, evs, i));
      && |got| >= |due| && (!Strays(e, st, evs, h) ==> got == due) && (Strays(e, st, evs, h) ==> |got| > |due|)
  {
    if evs != [] {
      var before, ev := evs[..|evs| - 1], evs[|evs| - 1];
      var now := HandledAll(e, st, before);
      StraysAreExtra(e, st, before, i, h);
      ConfigKept(e, st, before, i, h);
      SameWhenConfigured(e, st, now, before, h, ev);
      InputsOfNext(e, st, h, GrantedStream(e, st, before, i), Granted(e, now, ev, i), ev);
      HeldPayloadsPress(Applied(now.keys, ev));
      var held := HeldPayloads(Applied(now.keys, ev));
      if HeldKeysGoTo(e, now, ev, h) {
        ExtrasCount(RunInputs(e, st, before, i, h), InputsOf(e, st, h, GrantedStream(e, st, before, i)),
                    If(Granted(e, now, ev, i), Inputs(e, st, h, ev)), held, Strays(e, st, before, h), true);
      } else {
        assert InputsHandled(e, now, ev, i, h) == If(Granted(e, now, ev, i), Inputs(e, st, h, ev)) + [];
      }
    }
  }

  /**
   Per-target refinement, as executed: over a run under one configuration the window of instance `i` is posted
   exactly the eligible events that go by window message; and every input that goes into it, from whatever cause,
   is one of the events granted the focus, in the order popped, each event once, exactly when no cycle of the run
   left the window in front with keys held.
   */
  lemma TargetReceives(e: Surroundings, st: State, evs: seq<InputEvent>, i: nat, h: Hwnd)
    requires Owns(st.targets, i, h) && NoSwaps(evs, st.routes)
    ensures
      var d, d' := st.desk, HandledAll(e, st, evs).desk;
      && (InjectedInto(d'.injected, h)
            == InjectedInto(d.injected, h) + InputsOf(e, st, h, GrantedStream(e, st, evs, i))
          <==> !Strays(e, st, evs, h))
      && PostedTo(d'.posted, h) == PostedTo(d.posted, h) + MessagesOf(e, st, h, Due(e, st, evs, i, WindowMessage))
  {
    RunLogs(e, st, evs, i, h);
    StraysAreExtra(e, st, evs, i, h);
    var base := InjectedInto(st.desk.injected, h);
    var got, due := RunInputs(e, st, evs, i, h), InputsOf(e, st, h, GrantedStream(e, st, evs, i));
    assert |base + got| == |base| + |got| && |base + due| == |base| + |due|;
  }

  // ---- When keys stray

  /** Held keys go to another window than the master's only after a restore that failed. */
  lemma StraysNeedFailedRestore(e: Surroundings, st: State, ev: InputEvent, i: nat, h: Hwnd)
    requires Owns(st.targets, i, h) && i != st.master
    ensures HeldKeysGoTo(e, st, ev, h) ==> !RestoreSucceeds(e, st, ev)
  {
    if CyclesFocus(Planned(e, st, ev).actions) && RestoreSucceeds(e, st, ev) {
      var before := ConfigBeforeRestore(e, st, ev);
      BringOutcome(e.desktop, before.desk, before.targets[before.master]);
    }
  }

  lemma ConfigBeforeRestore(e: Surroundings, st: State, ev: InputEvent) returns (before: State)
    requires CyclesFocus(Planned(e, st, ev).actions)
    ensures before == BeforeRestore(e, Started(st, ev), Planned(e, st, ev).actions, ev)
    ensures SameConfig(Started(st, ev), before)
  {
    var s, actions := Started(st, ev), Planned(e, st, ev).actions;
    var ds := PlannedCycle(e, st, ev);
    CycleBefore(e, s, actions, ds, ev);
    SetupThrough(e, s, ds + CursorPart(ev), ev);
    before := BeforeRestore(e, s, actions, ev);
  }

  /** ... and after every one of them, while a live master was to be restored and keys are held. */
  lemma FailedRestoreStrays(e: Surroundings, st: State, ev: InputEvent)
    requires CyclesFocus(Planned(e, st, ev).actions) && Held(Applied(st.keys, ev)) != {} && MasterAlive(e, st, ev)
    ensures st.master < |st.targets|
    ensures !RestoreSucceeds(e, st, ev) <==> exists h | h != st.targets[st.master] :: HeldKeysGoTo(e, st, ev, h)
  {
    var before := ConfigBeforeRestore(e, st, ev);
    BringOutcome(e.desktop, before.desk, before.targets[before.master]);
    assert HeldKeysGoTo(e, st, ev, RestoreTried(e, st, ev).desk.foreground);
  }

  ghost predicate AlwaysRestored(e: Surroundings, st: State, evs: seq<InputEvent>) {
    evs != [] ==>
      var before := evs[..|evs| - 1];
      var now := HandledAll(e, st, before);
      && AlwaysRestored(e, st, before)
      && (CyclesFocus(Planned(e, now, evs[|evs| - 1]).actions) ==> RestoreSucceeds(e, now, evs[|evs| - 1]))
  }

  /** If every cycle gets the master back, nothing strays: a slave's window is given its granted events and no more. */
  lemma {:induction false} RestoredRunHasNoStrays(e: Surroundings, st: State, evs: seq<InputEvent>, i: nat, h: Hwnd)
    requires Owns(st.targets, i, h) && i != st.master && NoSwaps(evs, st.routes) && AlwaysRestored(e, st, evs)
    ensures !Strays(e, st, evs, h)
    ensures InjectedInto(HandledAll(e, st, evs).desk.injected, h)
            == InjectedInto(st.desk.injected, h) + InputsOf(e, st, h, GrantedStream(e, st, evs, i))
  {
    if evs != [] {
      var before, ev := evs[..|evs| - 1], evs[|evs| - 1];
      RestoredRunHasNoStrays(e, st, before, i, h);
      ConfigKept(e, st, before, i, h);
      StraysNeedFailedRestore(e, HandledAll(e, st, before), ev, i, h);
    }
    TargetReceives(e, st, evs, i, h);
  }

  /** `xs` is `ys` with some elements left out. */
  ghost predicate Thins(xs: seq<InputEvent>, ys: seq<InputEvent>) {
    if ys == [] then xs == []
    else
      || Thins(xs, ys[..|ys| - 1])
      || (xs != [] && xs[|xs| - 1] == ys[|ys| - 1] && Thins(xs[..|xs| - 1], ys[..|ys| - 1]))
  }

  lemma ThinsNext(xs: seq<InputEvent>, ys: seq<InputEvent>, taken: bool, due: bool, ev: InputEvent)
    requires Thins(xs, ys) && (taken ==> due)
    ensures Thins(xs + If(taken, [ev]), ys + If(due, [ev]))
  {
    assert xs + [] == xs && ys + [] == ys;
    assert (ys + [ev])[..|ys|] == ys && (xs + [ev])[..|xs|] == xs;
  }

  ghost predicate FocusAlwaysGranted(e: Surroundings, st: State, evs: seq<InputEvent>, i: nat) {
    evs != [] ==>
      var before, ev := evs[..|evs| - 1], evs[|evs| - 1];
      var now := HandledAll(e, st, before);
      && FocusAlwaysGranted(e, st, before, i)
      && (EligibleFor(e, now, ev, i) && StrategyFor(ev, now.routes).FocusCycle? ==> Granted(e, now, ev, i))
  }

  /** What is granted is the eligible focus-cycled stream with refusals left out; with no refusals it is all of it. */
  lemma {:induction false} GrantedThinsDue(e: Surroundings, st: State, evs: seq<InputEvent>, i: nat, h: Hwnd)
    requires Owns(st.targets, i, h) && NoSwaps(evs, st.routes)
    ensures Thins(GrantedStream(e, st, evs, i), Due(e, st, evs, i, FocusCycle))
    ensures FocusAlwaysGranted(e, st, evs, i) ==> GrantedStream(e, st, evs, i) == Due(e, st, evs, i, FocusCycle)
  {
    if evs != [] {
      var before, ev := evs[..|evs| - 1], evs[|evs| - 1];
      var now := HandledAll(e, st, before);
      assert evs == before + [ev];
      GrantedThinsDue(e, st, before, i, h);
      ConfigKept(e, st, before, i, h);
      PlannedForEligible(e, now, ev, i);
      DueNext(e, st, before, ev, i, FocusCycle);
      ThinsNext(GrantedStream(e, st, before, i), Due(e, st, before, i, FocusCycle), Granted(e, now, ev, i),
                EligibleFor(e, now, ev, i) && StrategyFor(ev, st.routes) == FocusCycle, ev);
    }
  }

  // ---- What a delivery amounts to in the target

  /** A granted key event is seen by the target's game, with its polarity, while the target is in front. */
  lemma GrantedKeyReachesGame(e: Surroundings, s: State, i: nat, ev: InputEvent)
    requires IsKey(ev.kind) && FocusGranted(e, s, Deliver(i, FocusCycle), i)
    ensures
      var h, d, d' := s.targets[i], Bring(e.desktop, s.desk, s.targets[i]).0, Delivered(e, s, i, FocusCycle, ev).desk;
      && d'.foreground == d.foreground == h
      && (ev.vk in KeysOf(d', h) <==> ev.kind.KeyDown?)
      && forall vk | vk != ev.vk :: vk in KeysOf(d', h) <==> vk in KeysOf(d, h)
  {
    var p := KeyStroke(ev.vk, ev.scan, ev.kind.KeyDown?, ev.flags);
    var h := s.targets[i];
    BringOutcome(e.desktop, s.desk, h);
    InjectOne(Bring(e.desktop, s.desk, h).0, ForTarget(h), p);
    assert Payloads(e, s, h, ev) == [p];
  }

  lemma InjectOne(d: Desk, purpose: Purpose, p: Payload)
    ensures InjectAll(d, purpose, [p]) == Inject(d, purpose, p)
  {
    assert [p][..0] == [];
  }

  /** The pixel a delivered click is aimed at: inside the target, and the master's own pixel when mapped back. */
  ghost predicate SamePlace(master: Rect, target: Rect, ev: InputEvent, p: Point) {
    && target.Contains(p.x, p.y)
    && (master.w <= target.w && master.h <= target.h ==>
          Denormalize(master, Normalize(target, p.x, p.y)) == Point(ev.x, ev.y))
  }

  lemma MappedToSamePlace(e: Surroundings, st: State, h: Hwnd, ev: InputEvent)
    requires st.master < |st.targets| && e.desktop.clientRect(st.targets[st.master]).Contains(ev.x, ev.y)
    requires e.desktop.clientRect(h).w > 0 && e.desktop.clientRect(h).h > 0
    ensures SamePlace(e.desktop.clientRect(st.targets[st.master]), e.desktop.clientRect(h), ev, MappedPoint(e, st, h, ev))
  {
    var from, to := e.desktop.clientRect(st.targets[st.master]), e.desktop.clientRect(h);
    DenormalizeLandsInside(to, Normalize(from, ev.x, ev.y));
    if from.w <= to.w && from.h <= to.h {
      PointRoundTrip(from, to, ev.x, ev.y);
    }
  }

  /** A click inside the master is posted at that place in client coordinates. */
  lemma PostedClick(e: Surroundings, st: State, h: Hwnd, ev: InputEvent) returns (at: Point)
    requires IsMouseButton(ev.kind)
    requires st.master < |st.targets| && e.desktop.clientRect(st.targets[st.master]).Contains(ev.x, ev.y)
    requires e.desktop.clientRect(h).w > 0 && e.desktop.clientRect(h).h > 0
    ensures Messages(e, st, h, ev) == [ButtonMessage(ev.vk, ev.kind.MouseDown?, at)]
    ensures
      var r := e.desktop.clientRect(h);
      && 0 <= at.x < r.w && 0 <= at.y < r.h
      && SamePlace(e.desktop.clientRect(st.targets[st.master]), r, ev, Point(r.x + at.x, r.y + at.y))
  {
    MappedToSamePlace(e, st, h, ev);
    var r, p := e.desktop.clientRect(h), MappedPoint(e, st, h, ev);
    at := Point(p.x - r.x, p.y - r.y);
  }

  /** ... and injected there: first the cursor moves to units that decode to that place, then the button acts. */
  lemma InjectedClick(e: Surroundings, st: State, h: Hwnd, ev: InputEvent) returns (units: AbsPoint)
    requires IsMouseButton(ev.kind)
    requires st.master < |st.targets| && e.desktop.clientRect(st.targets[st.master]).Contains(ev.x, ev.y)
    requires e.desktop.clientRect(h).w > 0 && e.desktop.clientRect(h).h > 0
    requires 2 <= e.desktop.screen.w <= ABS_MAX + 1 && 2 <= e.desktop.screen.h <= ABS_MAX + 1
    requires forall x, y :: e.desktop.clientRect(h).Contains(x, y) ==> e.desktop.screen.Contains(x, y)
    ensures Payloads(e, st, h, ev) == [MoveTo(units), Button(ev.vk, ev.kind.MouseDown?)]
    ensures units.ax >= 0 && units.ay >= 0
    ensures
      var r := e.desktop.screen;
      SamePlace(e.desktop.clientRect(st.targets[st.master]), e.desktop.clientRect(h), ev,
                Point(DecodeAbsolute(units.ax, r.x, r.w), DecodeAbsolute(units.ay, r.y, r.h)))
  {
    MappedToSamePlace(e, st, h, ev);
    var r, p := e.desktop.screen, MappedPoint(e, st, h, ev);
    units := ToAbsolute(r, p.x, p.y);
    AbsoluteRecoversPixel(p.x, r.x, r.w);
    AbsoluteRecoversPixel(p.y, r.y, r.h);
  }
}
