/** The consumer: applies each popped event to its key table, plans it and executes the plan on the desktop. */
module Broadcaster {
  import opened Desktop
  import opened Dispatch
  import opened Geometry
  import opened InputEvents
  import opened KeyStates
  import opened Routing
  import SpscRing

  const NO_RECT := Rect(0, 0, 0, 0)

  /** What the swap callback publishes, the target list and the next master, and the window it brings forward. */
  datatype SwapAnswer = SwapAnswer(targets: seq<Hwnd>, master: nat, front: Hwnd)

  /**
   The environment: the desktop's, the answer of the n-th swap callback (None: no callback installed), the
   microseconds from a capture stamp to a moment of the desktop's clock, and whether the k-th SendInput or
   PostMessage call of the n-th delivery reports success.
   */
  datatype Surroundings = Surroundings(
    desktop: Outside, onSwap: nat -> Option<SwapAnswer>, elapsed: (nat, nat) -> nat,
    reports: (nat, nat) -> bool)

  datatype State = State(
    pendingRoutes: RoutesView, pendingTargets: seq<Hwnd>, pendingMaster: nat, version: nat,
    routes: RoutesView, targets: seq<Hwnd>, master: nat, seen: nat,
    keys: KeyTable, desk: Desk, swaps: nat,
    deliveries: nat, focusFailures: nat, injectFailures: nat, latencies: seq<nat>)

  // ---- One action

  /** Where the master's pointer position lands in window `h`. */
  function MappedPoint(e: Surroundings, st: State, h: Hwnd, ev: InputEvent): Point {
    var masterRect := if st.master < |st.targets| then e.desktop.clientRect(st.targets[st.master]) else NO_RECT;
    Denormalize(e.desktop.clientRect(h), Normalize(masterRect, ev.x, ev.y))
  }

  /** What SendInput is asked to inject for `ev` into window `h`. */
  function Payloads(e: Surroundings, st: State, h: Hwnd, ev: InputEvent): seq<Payload> {
    if IsKey(ev.kind) then [KeyStroke(ev.vk, ev.scan, ev.kind.KeyDown?, ev.flags)]
    else
      var p := MappedPoint(e, st, h, ev);
      [MoveTo(ToAbsolute(e.desktop.screen, p.x, p.y))] +
      (if IsMouseButton(ev.kind) then [Button(ev.vk, ev.kind.MouseDown?)]
       else if ev.kind.Wheel? then
         (if ev.y != 0 then [VerticalWheel(ev.y)] else []) + (if ev.x != 0 then [HorizontalWheel(ev.x)] else [])
       else [])
  }

  function Messages(e: Surroundings, st: State, h: Hwnd, ev: InputEvent): seq<Message> {
    if IsKey(ev.kind) then [KeyMessage(ev.vk, ev.scan, ev.kind.KeyDown?, ev.flags)]
    else
      var p, r := MappedPoint(e, st, h, ev), e.desktop.clientRect(h);
      if IsMouseButton(ev.kind) then [ButtonMessage(ev.vk, ev.kind.MouseDown?, Point(p.x - r.x, p.y - r.y))]
      else if ev.kind.Wheel? then
        (if ev.y != 0 then [VerticalWheelMessage(ev.y, p)] else []) +
        (if ev.x != 0 then [HorizontalWheelMessage(ev.x, p)] else [])
      else []
  }

  function PostAll(d: Desk, h: Hwnd, ms: seq<Message>): Desk {
    d.(posted := d.posted + seq(|ms|, i requires 0 <= i < |ms| => Post(h, ms[i])))
  }

  /** Do the first `calls` calls of the n-th delivery all report success? */
  predicate AllReported(e: Surroundings, n: nat, calls: nat) {
    forall k: nat | k < calls :: e.reports(n, k)
  }

  /** A finished delivery: its latency is recorded, it is counted, and it is an inject failure if some call was. */
  function Counted(e: Surroundings, st: State, ev: InputEvent, calls: nat): State {
    st.(deliveries := st.deliveries + 1, latencies := st.latencies + [e.elapsed(ev.ts, st.desk.clock)],
        injectFailures := st.injectFailures + if AllReported(e, st.deliveries, calls) then 0 else 1)
  }

  function Delivered(e: Surroundings, st: State, i: nat, s: Strategy, ev: InputEvent): State {
    if i >= |st.targets| then st
    else if s.WindowMessage? then
      var ms := Messages(e, st, st.targets[i], ev);
      Counted(e, st.(desk := PostAll(st.desk, st.targets[i], ms)), ev, |ms|)
    else
      var (desk, ok) := Bring(e.desktop, st.desk, st.targets[i]);
      if !ok then st.(desk := desk, focusFailures := st.focusFailures + 1)
      else
        var ps := Payloads(e, st, st.targets[i], ev);
        Counted(e, st.(desk := InjectAll(desk, ForTarget(st.targets[i]), ps)), ev, |ps|)
  }

  function FocusRestored(e: Surroundings, st: State): State {
    if st.master >= |st.targets| then st
    else
      var (desk, ok) := Bring(e.desktop, st.desk, st.targets[st.master]);
      st.(desk := desk, focusFailures := st.focusFailures + if ok then 0 else 1)
  }

  /** The key-down stroke that presses a held key again, from its record. */
  function StrokeOf(h: HeldKey): Payload {
    KeyStroke(h.vk, h.key.scan, true, h.key.flags)
  }

  function HeldPayloads(keys: KeyTable): seq<Payload> {
    var held := HeldInOrder(keys, KEYS);
    seq(|held|, i requires 0 <= i < |held| => StrokeOf(held[i]))
  }

  function HeldReasserted(st: State): State {
    st.(desk := InjectAll(st.desk, ForMaster, HeldPayloads(st.keys)))
  }

  function Refreshed(st: State): State {
    if st.version == st.seen then st
    else st.(routes := st.pendingRoutes, targets := st.pendingTargets, master := st.pendingMaster, seen := st.version)
  }

  /** The callback publishes through set_targets and then brings the new master forward. */
  function CalledBack(e: Surroundings, st: State): State {
    match e.onSwap(st.swaps)
    case None => st.(swaps := st.swaps + 1)
    case Some(a) =>
      st.(swaps := st.swaps + 1, pendingTargets := a.targets, pendingMaster := a.master, version := st.version + 1,
          desk := Bring(e.desktop, st.desk, a.front).0)
  }

  function Executed(e: Surroundings, st: State, a: Action, ev: InputEvent): State {
    match a
    case Deliver(i, s) => Delivered(e, st, i, s, ev)
    case RestoreFocus => FocusRestored(e, st)
    case RestoreCursor => st.(desk := Inject(st.desk, ForMaster, MoveTo(ToAbsolute(e.desktop.screen, ev.x, ev.y))))
    case ReassertHeld => HeldReasserted(st)
    case SwapMaster => Refreshed(CalledBack(e, st))
  }

  function ExecutedAll(e: Surroundings, st: State, actions: seq<Action>, ev: InputEvent): State {
    if actions == [] then st
    else Executed(e, ExecutedAll(e, st, actions[..|actions| - 1], ev), actions[|actions| - 1], ev)
  }

  // ---- One event

  function AliveBelow(o: Outside, targets: seq<Hwnd>, clock: nat, n: nat): TargetMask
    requires n <= MAX_TARGETS
  {
    set i: nat | i < n && i < |targets| && targets[i] != NO_WINDOW && o.isWindow(clock, targets[i])
  }

  function Planned(e: Surroundings, st: State, ev: InputEvent): Plan {
    PlanOf(ev, st.routes, AliveBelow(e.desktop, st.targets, st.desk.clock, MAX_TARGETS), st.master, Applied(st.keys, ev))
  }

  /** The state in which the plan starts: the event applied, liveness looked up (time passes). */
  function Started(st: State, ev: InputEvent): State {
    st.(keys := Applied(st.keys, ev), desk := st.desk.(clock := st.desk.clock + 1))
  }

  function Handled(e: Surroundings, st: State, ev: InputEvent): State {
    if st.targets == [] then st.(keys := Applied(st.keys, ev))
    else ExecutedAll(e, Started(st, ev), Planned(e, st, ev).actions, ev)
  }

  function HandledAll(e: Surroundings, st: State, evs: seq<InputEvent>): State {
    if evs == [] then st else Handled(e, HandledAll(e, st, evs[..|evs| - 1]), evs[|evs| - 1])
  }

  // ---- The thread's object

  class Broadcaster {
    const env: Surroundings
    var pendingRoutes: RoutesView
    var pendingTargets: seq<Hwnd>
    var pendingMaster: nat
    var configVersion: nat
    var routes: RoutesView
    var targets: seq<Hwnd>
    var master: nat
    var seenVersion: nat
    const masterKeys: KeyState
    var desk: Desk
    var swaps: nat
    var deliveries: nat
    var focusFailures: nat
    var injectFailures: nat
    var latencies: seq<nat>  // what was handed to the latency histogram

    ghost predicate Valid()
      reads this, masterKeys, masterKeys.keys
    {
      masterKeys.Valid()
    }

    ghost function View(): State
      requires Valid()
      reads this, masterKeys, masterKeys.keys
    {
      State(pendingRoutes, pendingTargets, pendingMaster, configVersion, routes, targets, master, seenVersion,
            masterKeys.Table(), desk, swaps, deliveries, focusFailures, injectFailures, latencies)
    }

    constructor (e: Surroundings, d: Desk)
      ensures Valid() && fresh(masterKeys) && fresh(masterKeys.keys) && env == e
      ensures
        var r := RoutesView(map[], NO_TARGETS, 0, FocusCycle, 0);
        View() == State(r, [], 0, 1, r, [], 0, 0, EmptyTable(), d, 0, 0, 0, 0, [])
    {
      env := e;
      var k := new KeyState();
      masterKeys := k;
      pendingRoutes := RoutesView(map[], NO_TARGETS, 0, FocusCycle, 0);
      routes := RoutesView(map[], NO_TARGETS, 0, FocusCycle, 0);
      pendingTargets, targets, pendingMaster, master := [], [], 0, 0;
      configVersion, seenVersion := 1, 0;
      desk := d;
      swaps, deliveries, focusFailures, injectFailures, latencies := 0, 0, 0, 0, [];
    }

    method SetRoutes(r: RoutesView)
      requires Valid()
      modifies this`pendingRoutes, this`configVersion
      ensures Valid() && View() == old(View()).(pendingRoutes := r, version := old(configVersion) + 1)
    {
      pendingRoutes := r;
      configVersion := configVersion + 1;
    }

    method SetTargets(ts: seq<Hwnd>, m: nat)
      requires Valid()
      modifies this`pendingTargets, this`pendingMaster, this`configVersion
      ensures Valid()
      ensures View() == old(View()).(pendingTargets := ts, pendingMaster := m, version := old(configVersion) + 1)
    {
      pendingTargets := ts;
      pendingMaster := m;
      configVersion := configVersion + 1;
    }

    method RefreshConfig()
      requires Valid()
      modifies this`routes, this`targets, this`master, this`seenVersion
      ensures Valid() && View() == Refreshed(old(View()))
      ensures configVersion == old(seenVersion) ==> View() == old(View())
      ensures configVersion != old(seenVersion) ==>
                routes == pendingRoutes && targets == pendingTargets && master == pendingMaster && seenVersion == configVersion
    {
      var v := configVersion;
      if v == seenVersion {
        return;
      }
      routes := pendingRoutes;
      targets := pendingTargets;
      master := pendingMaster;
      seenVersion := v;
    }

    method BringToForeground(h: Hwnd) returns (ok: bool)
      requires Valid()
      modifies this`desk
      ensures Valid() && View() == old(View()).(desk := Bring(env.desktop, old(desk), h).0)
      ensures ok == Bring(env.desktop, old(desk), h).1
      ensures ok <==> h != NO_WINDOW && env.desktop.isWindow(old(desk).clock, h) && desk.foreground == h
    {
      BringOutcome(env.desktop, desk, h);
      var r := Bring(env.desktop, desk, h);
      desk := r.0;
      return r.1;
    }

    method ReassertHeld()
      requires Valid()
      modifies this`desk
      ensures Valid() && View() == HeldReasserted(old(View()))
    {
      var held := masterKeys.ForEachDown();
      ghost var all := HeldPayloads(masterKeys.Table());
      for i := 0 to |held|
        invariant Valid() && View() == old(View()).(desk := InjectAll(old(desk), ForMaster, all[..i]))
      {
        desk := Inject(desk, ForMaster, StrokeOf(held[i]));
        assert all[..i + 1][..i] == all[..i];
      }
      assert all[..|held|] == all;
    }

    /** Injects in order; every call is made, and `ok` says whether all of them report success. */
    method SendAll(purpose: Purpose, ps: seq<Payload>) returns (ok: bool)
      requires Valid()
      modifies this`desk
      ensures Valid() && View() == old(View()).(desk := InjectAll(old(desk), purpose, ps))
      ensures ok == AllReported(env, deliveries, |ps|)
    {
      ok := true;
      for i := 0 to |ps|
        invariant Valid() && View() == old(View()).(desk := InjectAll(old(desk), purpose, ps[..i]))
        invariant ok == AllReported(env, deliveries, i)
      {
        desk := Inject(desk, purpose, ps[i]);
        ok := ok && env.reports(deliveries, i);
        assert ps[..i + 1][..i] == ps[..i];
      }
      assert ps[..|ps|] == ps;
    }

    method PostTo(h: Hwnd, from: Rect, ev: InputEvent) returns (ok: bool)
      requires Valid() && from == (if master < |targets| then env.desktop.clientRect(targets[master]) else NO_RECT)
      modifies this`desk
      ensures Valid() && View() == old(View()).(desk := PostAll(old(desk), h, Messages(env, old(View()), h, ev)))
      ensures ok == AllReported(env, deliveries, |Messages(env, old(View()), h, ev)|)
    {
      var ms: seq<Message> := [];
      if IsKey(ev.kind) {
        ms := [KeyMessage(ev.vk, ev.scan, ev.kind.KeyDown?, ev.flags)];
      } else {
        var rect := env.desktop.clientRect(h);
        var p := Denormalize(rect, Normalize(from, ev.x, ev.y));
        if IsMouseButton(ev.kind) {
          ms := [ButtonMessage(ev.vk, ev.kind.MouseDown?, Point(p.x - rect.x, p.y - rect.y))];
        } else if ev.kind.Wheel? {
          ms := (if ev.y != 0 then [VerticalWheelMessage(ev.y, p)] else []) +
            (if ev.x != 0 then [HorizontalWheelMessage(ev.x, p)] else []);
        }
      }
      desk := PostAll(desk, h, ms);
      ok := AllReported(env, deliveries, |ms|);
    }

    method SendTo(h: Hwnd, from: Rect, ev: InputEvent) returns (ok: bool)
      requires Valid() && from == (if master < |targets| then env.desktop.clientRect(targets[master]) else NO_RECT)
      modifies this`desk
      ensures Valid()
      ensures View() == old(View()).(desk := InjectAll(old(desk), ForTarget(h), Payloads(env, old(View()), h, ev)))
      ensures ok == AllReported(env, deliveries, |Payloads(env, old(View()), h, ev)|)
    {
      var ps: seq<Payload>;
      if IsKey(ev.kind) {
        ps := [KeyStroke(ev.vk, ev.scan, ev.kind.KeyDown?, ev.flags)];
      } else {
        var p := Denormalize(env.desktop.clientRect(h), Normalize(from, ev.x, ev.y));
        ps := [MoveTo(ToAbsolute(env.desktop.screen, p.x, p.y))];
        if IsMouseButton(ev.kind) {
          ps := ps + [Button(ev.vk, ev.kind.MouseDown?)];
        } else if ev.kind.Wheel? {
          ps := ps + ((if ev.y != 0 then [VerticalWheel(ev.y)] else []) + (if ev.x != 0 then [HorizontalWheel(ev.x)] else []));
        } else {
          ps := ps + [];
        }
      }
      ok := SendAll(ForTarget(h), ps);
    }

    method CountDelivery(ev: InputEvent, ok: bool, ghost calls: nat)
      requires Valid() && ok == AllReported(env, deliveries, calls)
      modifies this`deliveries, this`latencies, this`injectFailures
      ensures Valid() && View() == Counted(env, old(View()), ev, calls)
    {
      latencies := latencies + [env.elapsed(ev.ts, desk.clock)];
      deliveries := deliveries + 1;
      if !ok {
        injectFailures := injectFailures + 1;
      }
    }

    method DeliverTo(i: nat, s: Strategy, ev: InputEvent)
      requires Valid()
      modifies this`desk, this`deliveries, this`focusFailures, this`injectFailures, this`latencies
      ensures Valid() && View() == Delivered(env, old(View()), i, s, ev)
    {
      if i >= |targets| {
        return;
      }
      var h, ok := targets[i], true;
      ghost var calls: nat;
      var from := if master < |targets| then env.desktop.clientRect(targets[master]) else NO_RECT;
      if s.WindowMessage? {
        calls := |Messages(env, View(), h, ev)|;
        ok := PostTo(h, from, ev);
      } else {
        ok := BringToForeground(h);
        if !ok {
          focusFailures := focusFailures + 1;
          return;
        }
        calls := |Payloads(env, View(), h, ev)|;
        ok := SendTo(h, from, ev);
      }
      CountDelivery(ev, ok, calls);
    }

    /** The swap callback republishes the targets from this thread and brings up its choice. */
    method CallSwap()
      requires Valid()
      modifies this
      ensures Valid() && View() == Refreshed(CalledBack(env, old(View())))
    {
      var answer := env.onSwap(swaps);
      swaps := swaps + 1;
      if answer.Some? {
        SetTargets(answer.value.targets, answer.value.master);
        var _ := BringToForeground(answer.value.front);
      }
      RefreshConfig();
    }

    method ExecuteAction(a: Action, ev: InputEvent)
      requires Valid()
      modifies this
      ensures Valid() && View() == Executed(env, old(View()), a, ev)
    {
      match a {
        case Deliver(i, s) => DeliverTo(i, s, ev);
        case RestoreFocus =>
          if master < |targets| {
            var ok := BringToForeground(targets[master]);
            if !ok {
              focusFailures := focusFailures + 1;
            }
          }
        case RestoreCursor => desk := Inject(desk, ForMaster, MoveTo(ToAbsolute(env.desktop.screen, ev.x, ev.y)));
        case ReassertHeld => ReassertHeld();
        case SwapMaster => CallSwap();
      }
    }

    method Execute(actions: seq<Action>, ev: InputEvent)
      requires Valid()
      modifies this
      ensures Valid() && View() == ExecutedAll(env, old(View()), actions, ev)
    {
      for i := 0 to |actions|
        invariant Valid() && View() == ExecutedAll(env, old(View()), actions[..i], ev)
      {
        ExecuteAction(actions[i], ev);
        assert actions[..i + 1][..i] == actions[..i];
      }
      assert actions[..|actions|] == actions;
    }

    method ObserveAlive() returns (alive: TargetMask)
      ensures alive == AliveBelow(env.desktop, targets, desk.clock, MAX_TARGETS)
      ensures forall i: nat :: i in alive <==>
                i < 32 && i < |targets| && targets[i] != 0 && env.desktop.isWindow(desk.clock, targets[i])
    {
      alive := NO_TARGETS;
      for i := 0 to MAX_TARGETS
        invariant alive == AliveBelow(env.desktop, targets, desk.clock, i)
      {
        if i < |targets| && targets[i] != NO_WINDOW && env.desktop.isWindow(desk.clock, targets[i]) {
          alive := alive + {i};
        }
      }
    }

    method PlanEvent(ev: InputEvent) returns (actions: seq<Action>)
      requires Valid()
      modifies this`desk, masterKeys, masterKeys.keys
      ensures Valid() && View() == Started(old(View()), ev)
      ensures actions == Planned(env, old(View()), ev).actions
    {
      var _ := masterKeys.Apply(ev);
      var alive := ObserveAlive();
      desk := desk.(clock := desk.clock + 1);
      var p := MakePlan(ev, routes, alive, master, masterKeys);
      return p.actions;
    }

    method Handle(ev: InputEvent)
      requires Valid()
      modifies this, masterKeys, masterKeys.keys
      ensures Valid() && View() == Handled(env, old(View()), ev)
    {
      if targets == [] {
        var _ := masterKeys.Apply(ev);
        return;
      }
      var actions := PlanEvent(ev);
      Execute(actions, ev);
    }

    /** The drain loop's step: pop one event and handle it. */
    method TakeNext(ring: SpscRing.SpscRing<InputEvent>) returns (took: bool)
      requires Valid() && ring.Valid()
      modifies this, masterKeys, masterKeys.keys, ring`tail, ring`ring
      ensures Valid() && ring.Valid()
      ensures took <==> old(ring.Contents()) != []
      ensures took ==> old(ring.Contents())[1..] == ring.Contents()
      ensures took ==> View() == Handled(env, old(View()), old(ring.Contents())[0])
      ensures !took ==> ring.Contents() == [] && View() == old(View())
    {
      var next := ring.Pop();
      took := next.Some?;
      if took {
        Handle(next.value);
      }
    }

    /** One round of the worker: take over the configuration, then handle the ring's events in order until it is empty. */
    method Drain(ring: SpscRing.SpscRing<InputEvent>)
      requires Valid() && ring.Valid()
      modifies this, masterKeys, masterKeys.keys, ring`tail, ring`ring
      ensures Valid() && ring.Valid() && ring.Contents() == []
      ensures View() == HandledAll(env, Refreshed(old(View())), old(ring.Contents()))
    {
      RefreshConfig();
      DrainRing(ring);
    }

    method DrainRing(ring: SpscRing.SpscRing<InputEvent>)
      requires Valid() && ring.Valid()
      modifies this, masterKeys, masterKeys.keys, ring`tail, ring`ring
      ensures Valid() && ring.Valid() && ring.Contents() == []
      ensures View() == HandledAll(env, old(View()), old(ring.Contents()))
    {
      ghost var events, start, i := ring.Contents(), View(), 0;
      var took := true;
      while took
        invariant Valid() && ring.Valid() && 0 <= i <= |events|
        invariant ring.Contents() == events[i..] && View() == HandledAll(env, start, events[..i])
        invariant !took ==> i == |events|
        decreases |events| - i, took
      {
        took := TakeNext(ring);
        if took {
          HandledNext(env, start, events, i);
          i := i + 1;
        }
      }
      assert events[..i] == events;
    }
  }

  lemma HandledNext(e: Surroundings, st: State, evs: seq<InputEvent>, i: nat)
    requires i < |evs|
    ensures HandledAll(e, st, evs[..i + 1]) == Handled(e, HandledAll(e, st, evs[..i]), evs[i])
  {
    assert evs[..i + 1][..i] == evs[..i];
  }
}
