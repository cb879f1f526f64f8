/** The dispatch policy: one captured event becomes a list of deliveries and repairs. */
module Dispatch {
  import opened InputEvents
  import opened KeyStates
  import opened Routing

  datatype Action =
    | Deliver(target: nat, strategy: Strategy)
    | RestoreFocus
    | RestoreCursor
    | ReassertHeld
    | SwapMaster

  datatype Plan = Plan(actions: seq<Action>, swallowed: bool)

  predicate IsSwapKey(ev: InputEvent, routes: RoutesView) {
    IsKey(ev.kind) && routes.swapHotkeyVk != 0 && ev.vk == routes.swapHotkeyVk
  }

  predicate IsSwapPress(ev: InputEvent, routes: RoutesView) {
    IsSwapKey(ev, routes) && ev.kind.KeyDown?
  }

  predicate IsPointer(ev: InputEvent) {
    IsMouseButton(ev.kind) || ev.kind.Wheel?
  }

  // ---- The policy, stated per target

  /** The instances an event is meant for, before looking at who is alive and who is master. */
  function Audience(ev: InputEvent, routes: RoutesView, keys: KeyTable): TargetMask {
    if IsKey(ev.kind) then
      if IsSwapKey(ev, routes) || ev.vk !in routes.bindings then NO_TARGETS else routes.bindings[ev.vk].targets
    else if IsPointer(ev) && (routes.mouseModifierVk == 0 || IsDown(keys, routes.mouseModifierVk)) then
      routes.mouseTargets
    else NO_TARGETS
  }

  predicate Eligible(ev: InputEvent, routes: RoutesView, alive: TargetMask, master: nat, keys: KeyTable, i: nat) {
    i in Audience(ev, routes, keys) && i in alive && i != master
  }

  function Selected(ev: InputEvent, routes: RoutesView, alive: TargetMask, master: nat, keys: KeyTable): TargetMask {
    Audience(ev, routes, keys) * alive - {master}
  }

  lemma SelectedIsEligible(ev: InputEvent, routes: RoutesView, alive: TargetMask, master: nat, keys: KeyTable)
    ensures forall i :: i in Selected(ev, routes, alive, master, keys) <==> Eligible(ev, routes, alive, master, keys, i)
  {
  }

  function StrategyFor(ev: InputEvent, routes: RoutesView): Strategy {
    if IsPointer(ev) then routes.mouseStrategy
    else if ev.vk in routes.bindings then routes.bindings[ev.vk].strategy
    else FocusCycle
  }

  // ---- What the planner builds

  function Deliveries(mask: TargetMask, s: Strategy, n: nat): seq<Action> {
    if n == 0 then [] else Deliveries(mask, s, n - 1) + if n - 1 in mask then [Deliver(n - 1, s)] else []
  }

  function Repairs(pointer: bool, held: bool): seq<Action> {
    (if pointer then [RestoreCursor] else []) + [RestoreFocus] + (if held then [ReassertHeld] else [])
  }

  /** Deliveries in ascending order, then cursor, focus and held keys, in that order, iff focus was cycled. */
  function PlanOf(ev: InputEvent, routes: RoutesView, alive: TargetMask, master: nat, keys: KeyTable): Plan {
    if IsSwapKey(ev, routes) then
      Plan(if ev.kind.KeyDown? then [SwapMaster] else [], true)
    else
      var mask := Selected(ev, routes, alive, master, keys);
      var deliveries := Deliveries(mask, StrategyFor(ev, routes), MAX_TARGETS);
      Plan(deliveries + if mask != {} && StrategyFor(ev, routes).FocusCycle? then Repairs(IsPointer(ev), Held(keys) != {}) else [],
           IsKey(ev.kind) && ev.vk in routes.bindings && routes.bindings[ev.vk].swallow)
  }

  lemma {:induction false} DeliveriesAreMask(mask: TargetMask, s: Strategy, n: nat)
    ensures forall a | a in Deliveries(mask, s, n) :: a.Deliver? && a.strategy == s && a.target < n
    ensures forall i: nat :: Deliver(i, s) in Deliveries(mask, s, n) <==> i in mask && i < n
    ensures forall j, k | 0 <= j < k < |Deliveries(mask, s, n)| ::
              Deliveries(mask, s, n)[j].target < Deliveries(mask, s, n)[k].target
  {
    if n > 0 {
      DeliveriesAreMask(mask, s, n - 1);
      var before := Deliveries(mask, s, n - 1);
      assert forall j | 0 <= j < |before| :: before[j] in before;
    }
  }

  method AddDeliveries(actions: seq<Action>, targets: TargetMask, alive: TargetMask, master: nat, s: Strategy)
    returns (extended: seq<Action>, any: bool)
    ensures extended == actions + Deliveries(targets * alive - {master}, s, MAX_TARGETS)
    ensures any <==> targets * alive - {master} != {}
  {
    var mask := targets * alive - {master};
    extended, any := actions, false;
    for i := 0 to MAX_TARGETS
      invariant extended == actions + Deliveries(mask, s, i)
      invariant any <==> exists j :: j in mask && j < i
    {
      if i in mask {
        extended := extended + [Deliver(i, s)];
        any := true;
      }
    }
  }

  lemma PushedRepairs(ds: seq<Action>, held: bool)
    ensures [] + ds == ds && ds + [] == ds
    ensures ds + Repairs(false, held) == if held then ds + [RestoreFocus] + [ReassertHeld] else ds + [RestoreFocus]
    ensures ds + Repairs(true, held) ==
            if held then ds + [RestoreCursor] + [RestoreFocus] + [ReassertHeld] else ds + [RestoreCursor] + [RestoreFocus]
  {
  }

  /** `keys` already reflects `ev`. */
  method MakePlan(ev: InputEvent, routes: RoutesView, alive: TargetMask, master: nat, keys: KeyState) returns (p: Plan)
    requires keys.Valid()
    ensures p == PlanOf(ev, routes, alive, master, keys.Table())
  {
    if IsKey(ev.kind) {
      p := PlanKey(ev, routes, alive, master, keys);
    } else if IsMouseButton(ev.kind) || ev.kind.Wheel? {
      p := PlanPointer(ev, routes, alive, master, keys);
    } else {
      NobodyListens(ev, routes, alive, master, keys.Table());
      p := Plan([], false);
    }
  }

  method PlanKey(ev: InputEvent, routes: RoutesView, alive: TargetMask, master: nat, keys: KeyState) returns (p: Plan)
    requires keys.Valid() && IsKey(ev.kind)
    ensures p == PlanOf(ev, routes, alive, master, keys.Table())
  {
    if routes.swapHotkeyVk != 0 && ev.vk == routes.swapHotkeyVk {
      return Plan(if ev.kind.KeyDown? then [SwapMaster] else [], true);
    }
    var found := routes.Find(ev.vk);
    if found.None? {
      NobodyListens(ev, routes, alive, master, keys.Table());
      return Plan([], false);
    }
    var b := found.value;
    var actions, delivered := AddDeliveries([], b.targets, alive, master, b.strategy);
    PushedRepairs(Deliveries(b.targets * alive - {master}, b.strategy, MAX_TARGETS), keys.held > 0);
    if delivered && b.strategy.FocusCycle? {
      actions := actions + [RestoreFocus];
      if keys.held > 0 {
        actions := actions + [ReassertHeld];
      }
    }
    return Plan(actions, b.swallow);
  }

  method PlanPointer(ev: InputEvent, routes: RoutesView, alive: TargetMask, master: nat, keys: KeyState) returns (p: Plan)
    requires keys.Valid() && IsPointer(ev)
    ensures p == PlanOf(ev, routes, alive, master, keys.Table())
  {
    if routes.mouseTargets == NO_TARGETS
       || (routes.mouseModifierVk != 0 && !IsDown(keys.Table(), routes.mouseModifierVk)) {
      NobodyListens(ev, routes, alive, master, keys.Table());
      return Plan([], false);
    }
    var actions, delivered := AddDeliveries([], routes.mouseTargets, alive, master, routes.mouseStrategy);
    PushedRepairs(Deliveries(routes.mouseTargets * alive - {master}, routes.mouseStrategy, MAX_TARGETS), keys.held > 0);
    if delivered && routes.mouseStrategy.FocusCycle? {
      actions := actions + [RestoreCursor];
      actions := actions + [RestoreFocus];
      if keys.held > 0 {
        actions := actions + [ReassertHeld];
      }
    }
    return Plan(actions, false);
  }

  lemma {:induction false} NothingForNobody(s: Strategy, n: nat)
    ensures Deliveries({}, s, n) == []
  {
    if n > 0 {
      NothingForNobody(s, n - 1);
    }
  }

  lemma NobodyListens(ev: InputEvent, routes: RoutesView, alive: TargetMask, master: nat, keys: KeyTable)
    requires Audience(ev, routes, keys) == {} && !IsSwapKey(ev, routes)
    ensures PlanOf(ev, routes, alive, master, keys).actions == []
  {
    NothingForNobody(StrategyFor(ev, routes), MAX_TARGETS);
    assert {} * alive - {master} == {};
  }

  // ---- What a plan says

  predicate DeliveriesFirst(actions: seq<Action>) {
    forall j, k | 0 <= j < k < |actions| && actions[k].Deliver? ::
      actions[j].Deliver? && actions[j].target < actions[k].target
  }

  lemma AppendRepairs(ds: seq<Action>, rs: seq<Action>)
    requires DeliveriesFirst(ds) && (forall a | a in ds :: a.Deliver?) && (forall a | a in rs :: !a.Deliver?)
    ensures DeliveriesFirst(ds + rs)
    ensures forall a :: a in ds + rs <==> a in ds || a in rs
  {
    forall j, k | 0 <= j < k < |ds + rs| && (ds + rs)[k].Deliver?
      ensures (ds + rs)[j].Deliver? && (ds + rs)[j].target < (ds + rs)[k].target
    {
      assert k < |ds|;
    }
  }

  lemma PlanParts(ev: InputEvent, routes: RoutesView, alive: TargetMask, master: nat, keys: KeyTable)
    returns (ds: seq<Action>, rs: seq<Action>)
    requires !IsSwapKey(ev, routes)
    ensures PlanOf(ev, routes, alive, master, keys).actions == ds + rs
    ensures DeliveriesFirst(ds) && (forall a | a in ds :: a.Deliver?) && (forall a | a in rs :: !a.Deliver?)
    ensures forall i: nat, s :: Deliver(i, s) in ds <==>
              i in Selected(ev, routes, alive, master, keys) && s == StrategyFor(ev, routes)
    ensures rs == if ds != [] && StrategyFor(ev, routes).FocusCycle? then Repairs(IsPointer(ev), Held(keys) != {}) else []
  {
    var s := StrategyFor(ev, routes);
    var mask := Selected(ev, routes, alive, master, keys);
    DeliveriesAreMask(mask, s, MAX_TARGETS);
    SomebodyOrNothing(mask, s);
    ds := Deliveries(mask, s, MAX_TARGETS);
    rs := if ds != [] && s.FocusCycle? then Repairs(IsPointer(ev), Held(keys) != {}) else [];
  }

  lemma SomebodyOrNothing(mask: TargetMask, s: Strategy)
    ensures Deliveries(mask, s, MAX_TARGETS) == [] <==> mask == {}
  {
    if i :| i in mask {
      DeliveriesAreMask(mask, s, MAX_TARGETS);
      assert Deliver(i, s) in Deliveries(mask, s, MAX_TARGETS);
    } else {
      NothingForNobody(s, MAX_TARGETS);
    }
  }

  /** A plan delivers to exactly the eligible instances, each once, in ascending order, before any repair. */
  lemma PlanDeliversToEligible(ev: InputEvent, routes: RoutesView, alive: TargetMask, master: nat, keys: KeyTable)
    ensures DeliveriesFirst(PlanOf(ev, routes, alive, master, keys).actions)
    ensures forall i: nat, s :: Deliver(i, s) in PlanOf(ev, routes, alive, master, keys).actions <==>
              Eligible(ev, routes, alive, master, keys, i) && s == StrategyFor(ev, routes)
  {
    if !IsSwapKey(ev, routes) {
      var ds, rs := PlanParts(ev, routes, alive, master, keys);
      AppendRepairs(ds, rs);
      SelectedIsEligible(ev, routes, alive, master, keys);
    }
  }

  ghost predicate CyclesFocus(actions: seq<Action>) {
    exists i: nat :: Deliver(i, FocusCycle) in actions
  }

  predicate EndsWith(actions: seq<Action>, tail: seq<Action>) {
    |tail| <= |actions| && actions[|actions| - |tail|..] == tail
  }

  lemma RepairsFollowCycling(ds: seq<Action>, rs: seq<Action>, s: Strategy, pointer: bool, held: bool)
    requires forall a | a in ds :: a.Deliver? && a.strategy == s
    requires rs == if ds != [] && s.FocusCycle? then Repairs(pointer, held) else []
    ensures RestoreFocus in ds + rs <==> CyclesFocus(ds + rs)
    ensures CyclesFocus(ds + rs) ==> EndsWith(ds + rs, Repairs(pointer, held))
    ensures !CyclesFocus(ds + rs) ==> forall a | a in ds + rs :: a.Deliver?
  {
    if ds != [] && s.FocusCycle? {
      assert ds[0] in ds + rs && ds[0] == Deliver(ds[0].target, FocusCycle);
      assert RestoreFocus in rs;
      assert (ds + rs)[|ds|..] == rs;
    } else {
      assert ds + rs == ds;
      assert forall i: nat | Deliver(i, FocusCycle) in ds :: false;
    }
  }

  /** Focus is restored exactly when it was cycled, last but for the held keys; pointer plans restore the cursor first. */
  lemma PlanRepairsWhatItBreaks(ev: InputEvent, routes: RoutesView, alive: TargetMask, master: nat, keys: KeyTable)
    ensures
      var actions := PlanOf(ev, routes, alive, master, keys).actions;
      && (RestoreFocus in actions <==> CyclesFocus(actions))
      && (CyclesFocus(actions) ==> EndsWith(actions, Repairs(IsPointer(ev), Held(keys) != {})))
      && (!CyclesFocus(actions) ==> actions == [SwapMaster] || forall a | a in actions :: a.Deliver?)
  {
    if !IsSwapKey(ev, routes) {
      var ds, rs := PlanParts(ev, routes, alive, master, keys);
      forall a | a in ds ensures a.strategy == StrategyFor(ev, routes) {
        assert Deliver(a.target, a.strategy) in ds;
      }
      RepairsFollowCycling(ds, rs, StrategyFor(ev, routes), IsPointer(ev), Held(keys) != {});
    }
  }

  /** A plan that cycles focus, taken apart: deliveries to live targets, then the repairs. */
  lemma CyclePlan(ev: InputEvent, routes: RoutesView, alive: TargetMask, master: nat, keys: KeyTable, actions: seq<Action>)
    returns (ds: seq<Action>)
    requires actions == PlanOf(ev, routes, alive, master, keys).actions && CyclesFocus(actions)
    ensures actions == ds + (if IsPointer(ev) then [RestoreCursor] else []) + [RestoreFocus]
                       + (if Held(keys) != {} then [ReassertHeld] else [])
    ensures forall a | a in ds :: a.Deliver? && a.target in alive
  {
    var rs;
    ds, rs := PlanParts(ev, routes, alive, master, keys);
    CycleIsDelivered(actions, ds, rs);
    RepairsInOrder(ds, IsPointer(ev), Held(keys) != {});
    forall a | a in ds ensures a.target in alive {
      assert Deliver(a.target, a.strategy) in ds;
    }
  }

  lemma CycleIsDelivered(actions: seq<Action>, ds: seq<Action>, rs: seq<Action>)
    requires actions == ds + rs && CyclesFocus(actions) && forall a | a in rs :: !a.Deliver?
    ensures exists i: nat :: Deliver(i, FocusCycle) in ds
  {
    var i: nat :| Deliver(i, FocusCycle) in actions;
    assert Deliver(i, FocusCycle) in ds;
  }

  lemma RepairsInOrder(ds: seq<Action>, pointer: bool, held: bool)
    ensures ds + Repairs(pointer, held)
            == ds + (if pointer then [RestoreCursor] else []) + [RestoreFocus] + (if held then [ReassertHeld] else [])
  {
  }

  // ---- The policy, event by event

  lemma SelectedDeliveries(ev: InputEvent, routes: RoutesView, alive: TargetMask, master: nat, keys: KeyTable)
    requires !IsSwapKey(ev, routes)
    ensures SwapMaster !in PlanOf(ev, routes, alive, master, keys).actions
    ensures forall i: nat, s :: Deliver(i, s) in PlanOf(ev, routes, alive, master, keys).actions <==>
              i in Selected(ev, routes, alive, master, keys) && s == StrategyFor(ev, routes)
    ensures Selected(ev, routes, alive, master, keys) == {} ==> PlanOf(ev, routes, alive, master, keys).actions == []
  {
    var ds, rs := PlanParts(ev, routes, alive, master, keys);
    AppendRepairs(ds, rs);
    SomebodyOrNothing(Selected(ev, routes, alive, master, keys), StrategyFor(ev, routes));
  }

  /** A key: the swap key only swaps, an unbound key does nothing, a bound one goes where and how its binding says. */
  lemma KeyPolicy(ev: InputEvent, routes: RoutesView, alive: TargetMask, master: nat, keys: KeyTable)
    requires ev.kind == KeyDown || ev.kind == KeyUp
    ensures
      var p := PlanOf(ev, routes, alive, master, keys);
      if routes.swapHotkeyVk != 0 && ev.vk == routes.swapHotkeyVk then
        p.swallowed && p.actions == if ev.kind == KeyDown then [SwapMaster] else []
      else if ev.vk !in routes.bindings then !p.swallowed && p.actions == []
      else
        var b := routes.bindings[ev.vk];
        && p.swallowed == b.swallow && SwapMaster !in p.actions
        && (forall i: nat, s :: Deliver(i, s) in p.actions <==>
              i in b.targets && i in alive && i != master && s == b.strategy)
        && ((forall i | i in b.targets && i in alive :: i == master) ==> p.actions == [])
  {
    if !IsSwapKey(ev, routes) {
      SelectedDeliveries(ev, routes, alive, master, keys);
    }
  }

  /** A button or the wheel: nothing while a modifier is asked for and up, otherwise to the mouse targets. */
  lemma PointerPolicy(ev: InputEvent, routes: RoutesView, alive: TargetMask, master: nat, keys: KeyTable)
    requires ev.kind == MouseDown || ev.kind == MouseUp || ev.kind == Wheel
    ensures
      var p, m := PlanOf(ev, routes, alive, master, keys), routes.mouseModifierVk;
      && !p.swallowed && SwapMaster !in p.actions
      && if m != 0 && (m >= 256 || !keys[m].down) then p.actions == []
         else
           && (forall i: nat, s :: Deliver(i, s) in p.actions <==>
                 i in routes.mouseTargets && i in alive && i != master && s == routes.mouseStrategy)
           && ((forall i | i in routes.mouseTargets && i in alive :: i == master) ==> p.actions == [])
  {
    SelectedDeliveries(ev, routes, alive, master, keys);
  }

  /** Anything else is never broadcast. */
  lemma OtherPolicy(ev: InputEvent, routes: RoutesView, alive: TargetMask, master: nat, keys: KeyTable)
    requires ev.kind == MouseMove || ev.kind == NoEvent
    ensures PlanOf(ev, routes, alive, master, keys) == Plan([], false)
  {
    SelectedDeliveries(ev, routes, alive, master, keys);
  }

  // ---- Whole runs under one configuration

  /** One popped event, with the liveness the broadcaster observed when it handled it. */
  datatype Observation = Observation(ev: InputEvent, alive: TargetMask)

  function EventsOf(run: seq<Observation>): seq<InputEvent> {
    if run == [] then [] else EventsOf(run[..|run| - 1]) + [run[|run| - 1].ev]
  }

  function CopiesFor(actions: seq<Action>, i: nat, ev: InputEvent): seq<InputEvent> {
    if actions == [] then []
    else
      CopiesFor(actions[..|actions| - 1], i, ev) +
      if actions[|actions| - 1].Deliver? && actions[|actions| - 1].target == i then [ev] else []
  }

  /** Everything the plans of a run send to instance `i`, in order. */
  function SentTo(routes: RoutesView, master: nat, start: KeyTable, run: seq<Observation>, i: nat): seq<InputEvent> {
    if run == [] then []
    else
      var o := run[|run| - 1];
      SentTo(routes, master, start, run[..|run| - 1], i) +
      CopiesFor(PlanOf(o.ev, routes, o.alive, master, ApplyAll(start, EventsOf(run))).actions, i, o.ev)
  }

  /** The popped stream, filtered by eligibility at the time. */
  function EligibleStream(routes: RoutesView, master: nat, start: KeyTable, run: seq<Observation>, i: nat): seq<InputEvent> {
    if run == [] then []
    else
      var o := run[|run| - 1];
      EligibleStream(routes, master, start, run[..|run| - 1], i) +
      if Eligible(o.ev, routes, o.alive, master, ApplyAll(start, EventsOf(run)), i) then [o.ev] else []
  }

  lemma {:induction false} CopiesCount(actions: seq<Action>, i: nat, ev: InputEvent)
    requires DeliveriesFirst(actions)
    ensures CopiesFor(actions, i, ev) == if exists s :: Deliver(i, s) in actions then [ev] else []
  {
    if actions != [] {
      var before, last := actions[..|actions| - 1], actions[|actions| - 1];
      CopiesCount(before, i, ev);
      assert forall a :: a in actions <==> a in before || a == last;
      if last.Deliver? && last.target == i {
        assert Deliver(i, last.strategy) in actions;
        assert forall s :: Deliver(i, s) !in before;
      }
    }
  }

  /** Per-target refinement: what reaches instance `i` is the eligible part of the popped stream, each event once. */
  lemma {:induction false} SentIsEligibleStream(routes: RoutesView, master: nat, start: KeyTable, run: seq<Observation>, i: nat)
    ensures SentTo(routes, master, start, run, i) == EligibleStream(routes, master, start, run, i)
  {
    if run != [] {
      var o := run[|run| - 1];
      var keys := ApplyAll(start, EventsOf(run));
      SentIsEligibleStream(routes, master, start, run[..|run| - 1], i);
      PlanDeliversToEligible(o.ev, routes, o.alive, master, keys);
      var actions := PlanOf(o.ev, routes, o.alive, master, keys).actions;
      CopiesCount(actions, i, o.ev);
      assert Eligible(o.ev, routes, o.alive, master, keys, i) <==> Deliver(i, StrategyFor(o.ev, routes)) in actions;
    }
  }
}
