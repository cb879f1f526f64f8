/** What one delivery does to the desktop and to the counts, call by call. */
module Deliveries {
  import opened Broadcaster
  import opened Desktop
  import opened Dispatch
  import opened Geometry
  import opened InputEvents
  import opened KeyStates
  import opened Routing
  import opened TargetStreams

  /** The client area of window `h`, when it has any pixel. */
  predicate HasClient(e: Surroundings, h: Hwnd) {
    e.desktop.clientRect(h).w > 0 && e.desktop.clientRect(h).h > 0
  }

  /** Is the event's position inside the master's client area? */
  predicate FromInside(e: Surroundings, st: State, ev: InputEvent) {
    st.master < |st.targets| && e.desktop.clientRect(st.targets[st.master]).Contains(ev.x, ev.y)
  }

  /**
   `p` is a place for the event in window `h`: inside it, and the master's own one when the event is inside the
   master; with no master, a corner.
   */
  ghost predicate PlacedIn(e: Surroundings, st: State, h: Hwnd, ev: InputEvent, p: Point) {
    HasClient(e, h) ==>
      && e.desktop.clientRect(h).Contains(p.x, p.y)
      && (FromInside(e, st, ev) ==> SamePlace(e.desktop.clientRect(st.targets[st.master]), e.desktop.clientRect(h), ev, p))
      && (st.master >= |st.targets| ==>
            var r := e.desktop.clientRect(h);
            p == Point(if ev.x <= 0 then r.x else r.x + r.w - 1, if ev.y <= 0 then r.y else r.y + r.h - 1))
  }

  lemma MappedIsPlaced(e: Surroundings, st: State, h: Hwnd, ev: InputEvent)
    ensures PlacedIn(e, st, h, ev, MappedPoint(e, st, h, ev))
  {
    if HasClient(e, h) {
      var from := if st.master < |st.targets| then e.desktop.clientRect(st.targets[st.master]) else NO_RECT;
      DenormalizeLandsInside(e.desktop.clientRect(h), Normalize(from, ev.x, ev.y));
      if FromInside(e, st, ev) {
        MappedToSamePlace(e, st, h, ev);
      }
      OutsideGoesToTheEnds(0, 0, e.desktop.clientRect(h).x, e.desktop.clientRect(h).w, ev.x);
      OutsideGoesToTheEnds(0, 0, e.desktop.clientRect(h).y, e.desktop.clientRect(h).h, ev.y);
    }
  }

  // ---- By window message

  lemma PostedAre(d: Desk, h: Hwnd, ms: seq<Message>)
    ensures |ms| == 0 ==> PostAll(d, h, ms) == d
    ensures |ms| == 1 ==> PostAll(d, h, ms) == d.(posted := d.posted + [Post(h, ms[0])])
    ensures |ms| == 2 ==> PostAll(d, h, ms) == d.(posted := d.posted + [Post(h, ms[0]), Post(h, ms[1])])
  {
    var posts := seq(|ms|, i requires 0 <= i < |ms| => Post(h, ms[i]));
    if |ms| == 0 {
      assert d.posted + posts == d.posted;
    } else if |ms| == 1 {
      assert posts == [Post(h, ms[0])];
    } else if |ms| == 2 {
      assert posts == [Post(h, ms[0]), Post(h, ms[1])];
    }
  }

  /** A key is posted as itself: code, scan code, polarity and flags. */
  lemma KeyIsPosted(e: Surroundings, st: State, i: nat, ev: InputEvent)
    requires i < |st.targets| && (ev.kind == KeyDown || ev.kind == KeyUp)
    ensures Delivered(e, st, i, WindowMessage, ev).desk
            == st.desk.(posted := st.desk.posted + [Post(st.targets[i], KeyMessage(ev.vk, ev.scan, ev.kind == KeyDown, ev.flags))])
  {
    PostedAre(st.desk, st.targets[i], Messages(e, st, st.targets[i], ev));
  }

  /** A button is posted with its polarity, at its place in client coordinates. */
  lemma ClickIsPosted(e: Surroundings, st: State, i: nat, ev: InputEvent) returns (p: Point)
    requires i < |st.targets| && (ev.kind == MouseDown || ev.kind == MouseUp)
    ensures PlacedIn(e, st, st.targets[i], ev, p)
    ensures
      var h := st.targets[i];
      var r := e.desktop.clientRect(h);
      Delivered(e, st, i, WindowMessage, ev).desk
      == st.desk.(posted := st.desk.posted +
                            [Post(h, ButtonMessage(ev.vk, ev.kind == MouseDown, Point(p.x - r.x, p.y - r.y)))])
  {
    p := MappedPoint(e, st, st.targets[i], ev);
    MappedIsPlaced(e, st, st.targets[i], ev);
    PostedAre(st.desk, st.targets[i], Messages(e, st, st.targets[i], ev));
  }

  /** A wheel event is posted as its vertical and then its horizontal turn, each iff there is one. */
  lemma WheelIsPosted(e: Surroundings, st: State, i: nat, ev: InputEvent) returns (p: Point)
    requires i < |st.targets| && ev.kind == Wheel
    ensures PlacedIn(e, st, st.targets[i], ev, p)
    ensures
      var h := st.targets[i];
      Delivered(e, st, i, WindowMessage, ev).desk
      == st.desk.(posted := st.desk.posted +
                            ((if ev.y != 0 then [Post(h, VerticalWheelMessage(ev.y, p))] else []) +
                             (if ev.x != 0 then [Post(h, HorizontalWheelMessage(ev.x, p))] else [])))
  {
    p := MappedPoint(e, st, st.targets[i], ev);
    MappedIsPlaced(e, st, st.targets[i], ev);
    PostedAre(st.desk, st.targets[i], Messages(e, st, st.targets[i], ev));
    assert st.desk.posted + [] == st.desk.posted;
  }

  // ---- By focus and injection

  function Into(h: Hwnd, p: Payload): Injection {
    Injection(h, ForTarget(h), p)
  }

  lemma InjectedAre(d: Desk, h: Hwnd, ps: seq<Payload>)
    requires d.foreground == h
    ensures InjectAll(d, ForTarget(h), ps).injected == d.injected + seq(|ps|, i requires 0 <= i < |ps| => Into(h, ps[i]))
  {
    InjectAllLogs(d, ForTarget(h), ps);
    assert seq(|ps|, i requires 0 <= i < |ps| => Into(h, ps[i]))
        == seq(|ps|, i requires 0 <= i < |ps| => Injection(d.foreground, ForTarget(h), ps[i]));
  }

  /** What is injected into a granted target, as a sequence. */
  lemma GrantedInjections(e: Surroundings, st: State, i: nat, ev: InputEvent)
    requires FocusGranted(e, st, Deliver(i, FocusCycle), i)
    ensures
      var h, ps := st.targets[i], Payloads(e, st, st.targets[i], ev);
      Delivered(e, st, i, FocusCycle, ev).desk.injected
      == st.desk.injected + seq(|ps|, k requires 0 <= k < |ps| => Into(h, ps[k]))
  {
    BringOutcome(e.desktop, st.desk, st.targets[i]);
    InjectedAre(Bring(e.desktop, st.desk, st.targets[i]).0, st.targets[i], Payloads(e, st, st.targets[i], ev));
  }

  /** A granted key is injected as itself: code, scan code, polarity and flags. */
  lemma KeyIsInjected(e: Surroundings, st: State, i: nat, ev: InputEvent)
    requires FocusGranted(e, st, Deliver(i, FocusCycle), i) && (ev.kind == KeyDown || ev.kind == KeyUp)
    ensures Delivered(e, st, i, FocusCycle, ev).desk.injected
            == st.desk.injected + [Into(st.targets[i], KeyStroke(ev.vk, ev.scan, ev.kind == KeyDown, ev.flags))]
  {
    GrantedInjections(e, st, i, ev);
    var ps := Payloads(e, st, st.targets[i], ev);
    assert seq(|ps|, k requires 0 <= k < |ps| => Into(st.targets[i], ps[k]))
        == [Into(st.targets[i], KeyStroke(ev.vk, ev.scan, ev.kind == KeyDown, ev.flags))];
  }

  /** A granted button: the cursor goes to the place, in the screen's units, and then the button acts. */
  lemma ClickIsInjected(e: Surroundings, st: State, i: nat, ev: InputEvent) returns (p: Point)
    requires FocusGranted(e, st, Deliver(i, FocusCycle), i) && (ev.kind == MouseDown || ev.kind == MouseUp)
    ensures PlacedIn(e, st, st.targets[i], ev, p)
    ensures
      var h := st.targets[i];
      Delivered(e, st, i, FocusCycle, ev).desk.injected
      == st.desk.injected + [Into(h, MoveTo(ToAbsolute(e.desktop.screen, p.x, p.y))), Into(h, Button(ev.vk, ev.kind == MouseDown))]
  {
    var h := st.targets[i];
    p := MappedPoint(e, st, h, ev);
    MappedIsPlaced(e, st, h, ev);
    GrantedInjections(e, st, i, ev);
    var ps := Payloads(e, st, h, ev);
    assert seq(|ps|, k requires 0 <= k < |ps| => Into(h, ps[k]))
        == [Into(h, MoveTo(ToAbsolute(e.desktop.screen, p.x, p.y))), Into(h, Button(ev.vk, ev.kind == MouseDown))];
  }

  /** A granted wheel event: the cursor moves, then the vertical and the horizontal turn, each iff there is one. */
  lemma WheelIsInjected(e: Surroundings, st: State, i: nat, ev: InputEvent) returns (p: Point)
    requires FocusGranted(e, st, Deliver(i, FocusCycle), i) && ev.kind == Wheel
    ensures PlacedIn(e, st, st.targets[i], ev, p)
    ensures
      var h := st.targets[i];
      Delivered(e, st, i, FocusCycle, ev).desk.injected
      == st.desk.injected + ([Into(h, MoveTo(ToAbsolute(e.desktop.screen, p.x, p.y)))] +
                             (if ev.y != 0 then [Into(h, VerticalWheel(ev.y))] else []) +
                             (if ev.x != 0 then [Into(h, HorizontalWheel(ev.x))] else []))
  {
    var h := st.targets[i];
    p := MappedPoint(e, st, h, ev);
    MappedIsPlaced(e, st, h, ev);
    GrantedInjections(e, st, i, ev);
    var ps := Payloads(e, st, h, ev);
    assert seq(|ps|, k requires 0 <= k < |ps| => Into(h, ps[k]))
        == [Into(h, MoveTo(ToAbsolute(e.desktop.screen, p.x, p.y)))] +
           (if ev.y != 0 then [Into(h, VerticalWheel(ev.y))] else []) +
           (if ev.x != 0 then [Into(h, HorizontalWheel(ev.x))] else []);
  }

  // ---- By re-assertion

  /** The stroke that presses a held key again as it was pressed. */
  predicate PressesAgain(st: State, inj: Injection) {
    && inj.window == st.desk.foreground && inj.payload.KeyStroke?
    && var vk := inj.payload.vk;
       vk < 256 && st.keys[vk].down && inj.payload == KeyStroke(vk, st.keys[vk].scan, true, st.keys[vk].flags)
  }

  /** Re-asserting injects one stroke per held key, with its own scan code and flags, in ascending order, and no more. */
  lemma ReassertionInjects(st: State) returns (block: seq<Injection>)
    ensures HeldReasserted(st).desk.injected == st.desk.injected + block
    ensures forall k | 0 <= k < |block| :: PressesAgain(st, block[k])
    ensures forall j, k | 0 <= j < k < |block| ::
              PressesAgain(st, block[j]) && PressesAgain(st, block[k]) ==> block[j].payload.vk < block[k].payload.vk
    ensures forall vk: nat | vk < 256 && st.keys[vk].down ::
              exists k :: 0 <= k < |block| && PressesAgain(st, block[k]) && block[k].payload.vk == vk
  {
    var held, ps := HeldInOrder(st.keys, KEYS), HeldPayloads(st.keys);
    HeldInOrderIsHeld(st.keys, KEYS);
    InjectAllLogs(st.desk, ForMaster, ps);
    block := seq(|ps|, i requires 0 <= i < |ps| => Injection(st.desk.foreground, ForMaster, ps[i]));
    forall k | 0 <= k < |block| ensures PressesAgain(st, block[k]) && block[k].payload.vk == held[k].vk {
      assert held[k] in held;
    }
    forall vk: nat | vk < 256 && st.keys[vk].down
      ensures exists k :: 0 <= k < |block| && PressesAgain(st, block[k]) && block[k].payload.vk == vk
    {
      assert HeldKey(vk, st.keys[vk]) in held;
      var k :| 0 <= k < |held| && held[k] == HeldKey(vk, st.keys[vk]);
      assert PressesAgain(st, block[k]);
    }
  }

  // ---- The counts

  /** The SendInput and PostMessage calls that took the desktop from `d` to `d'`. */
  function CallsBetween(d: Desk, d': Desk): int {
    |d'.posted| - |d.posted| + |d'.injected| - |d.injected|
  }

  /**
   A target out of range is nothing. A refused switch only counts as a focus failure. Any other delivery counts once,
   is timed from the event's own stamp to its end, and is an inject failure exactly when one of its calls reports
   failure.
   */
  lemma DeliveryCounts(e: Surroundings, st: State, i: nat, s: Strategy, ev: InputEvent)
    ensures
      var st' := Delivered(e, st, i, s, ev);
      if i >= |st.targets| then st' == st
      else if s == FocusCycle && !Bring(e.desktop, st.desk, st.targets[i]).1 then
        && st'.focusFailures == st.focusFailures + 1 && st'.deliveries == st.deliveries
        && st'.latencies == st.latencies && st'.injectFailures == st.injectFailures
      else
        && st'.focusFailures == st.focusFailures && st'.deliveries == st.deliveries + 1
        && st'.latencies == st.latencies + [e.elapsed(ev.ts, st'.desk.clock)]
        && st'.injectFailures
           == st.injectFailures
              + if exists k: nat | k < CallsBetween(st.desk, st'.desk) :: !e.reports(st.deliveries, k) then 1 else 0
  {
    if i >= |st.targets| {
      return;
    }
    var h := st.targets[i];
    if s == WindowMessage {
      assert |PostAll(st.desk, h, Messages(e, st, h, ev)).posted| == |st.desk.posted| + |Messages(e, st, h, ev)|;
    } else if Bring(e.desktop, st.desk, h).1 {
      BringOutcome(e.desktop, st.desk, h);
      InjectAllLogs(Bring(e.desktop, st.desk, h).0, ForTarget(h), Payloads(e, st, h, ev));
    }
  }

  /** A restore without a master is nothing; any other only counts a focus failure when the master is not brought back. */
  lemma RestoreCounts(e: Surroundings, st: State)
    ensures
      var st' := FocusRestored(e, st);
      if st.master >= |st.targets| then st' == st
      else
        var h := st.targets[st.master];
        st' == st.(desk := Bring(e.desktop, st.desk, h).0, focusFailures := st'.focusFailures)
        && st'.focusFailures
           == st.focusFailures
              + if h != 0 && e.desktop.isWindow(st.desk.clock, h) && st'.desk.foreground == h then 0 else 1
  {
    if st.master < |st.targets| {
      BringOutcome(e.desktop, st.desk, st.targets[st.master]);
    }
  }

  // ---- Who is delivered to, and what is known of the keys

  /** A delivery is only planned for another window than the master's that existed when the event was looked at. */
  lemma PlannedWindowExists(e: Surroundings, st: State, ev: InputEvent, i: nat, s: Strategy)
    requires Deliver(i, s) in Planned(e, st, ev).actions
    ensures i < 32 && i < |st.targets| && i != st.master
    ensures st.targets[i] != 0 && e.desktop.isWindow(st.desk.clock, st.targets[i])
  {
    PlanDeliversToEligible(ev, st.routes, AliveBelow(e.desktop, st.targets, st.desk.clock, MAX_TARGETS), st.master,
                           Applied(st.keys, ev));
  }

  lemma {:induction false} ExecutionKeepsKeys(e: Surroundings, st: State, actions: seq<Action>, ev: InputEvent)
    ensures ExecutedAll(e, st, actions, ev).keys == st.keys
  {
    if actions != [] {
      ExecutionKeepsKeys(e, st, actions[..|actions| - 1], ev);
    }
  }

  /** Over any run, with or without targets and swaps, the key table is that of all the events handled. */
  lemma {:induction false} KeysFollowEvents(e: Surroundings, st: State, evs: seq<InputEvent>)
    ensures HandledAll(e, st, evs).keys == ApplyAll(st.keys, evs)
  {
    if evs != [] {
      var before, ev := HandledAll(e, st, evs[..|evs| - 1]), evs[|evs| - 1];
      KeysFollowEvents(e, st, evs[..|evs| - 1]);
      ExecutionKeepsKeys(e, Started(before, ev), Planned(e, before, ev).actions, ev);
    }
  }
}
