/**
 The desktop the broadcaster acts on: one foreground window and one set of pressed game keys per window, cleared
 when the window loses the foreground. Whether a focus switch succeeds, where it ends up and which windows are
 alive at any moment is decided by an arbitrary `Outside`.
 */
module Desktop {
  import opened Geometry

  type Hwnd = nat

  const NO_WINDOW: Hwnd := 0

  datatype Payload =
    | KeyStroke(vk: nat, scan: nat, down: bool, flags: nat)
    | MoveTo(at: AbsPoint)
    | Button(vk: nat, down: bool)
    | VerticalWheel(delta: int)
    | HorizontalWheel(delta: int)

  /** Why something was injected: for a slave's window, or to repair the master's view. */
  datatype Purpose = ForTarget(window: Hwnd) | ForMaster

  datatype Injection = Injection(window: Hwnd, purpose: Purpose, payload: Payload)

  datatype Message =
    | KeyMessage(vk: nat, scan: nat, down: bool, flags: nat)
    | ButtonMessage(vk: nat, down: bool, at: Point)
    | VerticalWheelMessage(delta: int, at: Point)
    | HorizontalWheelMessage(delta: int, at: Point)

  datatype Post = Post(window: Hwnd, message: Message)

  datatype Desk = Desk(
    foreground: Hwnd, keys: map<Hwnd, set<nat>>, cursor: AbsPoint, clock: nat,
    injected: seq<Injection>, posted: seq<Post>)

  /** The environment: `isWindow(n, h)` at time n, and where the two switch attempts at time n leave the foreground. */
  datatype Outside = Outside(
    isWindow: (nat, Hwnd) -> bool, landsFirst: nat -> Hwnd, landsLast: nat -> Hwnd,
    clientRect: Hwnd -> Rect, screen: Rect)

  function KeysOf(d: Desk, h: Hwnd): set<nat> {
    if h in d.keys then d.keys[h] else {}
  }

  /** Only the foreground window can hold keys. */
  ghost predicate BackgroundSilent(d: Desk) {
    forall h: Hwnd | h != d.foreground :: KeysOf(d, h) == {}
  }

  function SwitchTo(d: Desk, h: Hwnd): Desk {
    if h == d.foreground then d else d.(foreground := h, keys := d.keys[d.foreground := {}])
  }

  /** bring_to_foreground: true iff the wanted window is in front afterwards (and still is a window). */
  function Bring(o: Outside, d: Desk, target: Hwnd): (Desk, bool) {
    var now := d.(clock := d.clock + 1);
    if target == NO_WINDOW || !o.isWindow(d.clock, target) then (now, false)
    else if d.foreground == target then (now, true)
    else
      var first := SwitchTo(now, o.landsFirst(d.clock));
      if first.foreground == target then (first, true)
      else
        var last := SwitchTo(first, o.landsLast(d.clock));
        (last, last.foreground == target)
  }

  function Inject(d: Desk, purpose: Purpose, p: Payload): Desk {
    var logged := d.(injected := d.injected + [Injection(d.foreground, purpose, p)]);
    match p
    case KeyStroke(vk, _, down, _) =>
      logged.(keys := d.keys[d.foreground := if down then KeysOf(d, d.foreground) + {vk} else KeysOf(d, d.foreground) - {vk}])
    case MoveTo(at) => logged.(cursor := at)
    case _ => logged
  }

  function InjectAll(d: Desk, purpose: Purpose, ps: seq<Payload>): Desk {
    if ps == [] then d else Inject(InjectAll(d, purpose, ps[..|ps| - 1]), purpose, ps[|ps| - 1])
  }

  /** A physical key reaches the foreground window. */
  function Press(d: Desk, vk: nat, down: bool): Desk {
    d.(keys := d.keys[d.foreground := if down then KeysOf(d, d.foreground) + {vk} else KeysOf(d, d.foreground) - {vk}])
  }

  // ---- Focus

  lemma SwitchFacts(d: Desk, h: Hwnd)
    ensures BackgroundSilent(d) ==> BackgroundSilent(SwitchTo(d, h))
    ensures forall w :: KeysOf(SwitchTo(d, h), w) == if w == d.foreground && h != w then {} else KeysOf(d, w)
  {
    var d' := SwitchTo(d, h);
    forall w: Hwnd ensures KeysOf(d', w) == if w == d.foreground && h != w then {} else KeysOf(d, w) {
    }
  }

  /** The foreground never moves: there is nothing to bring, it is there already, or both attempts leave it alone. */
  predicate FrontKept(o: Outside, d: Desk, target: Hwnd) {
    || target == NO_WINDOW || !o.isWindow(d.clock, target)
    || d.foreground == target
    || (o.landsFirst(d.clock) == d.foreground && o.landsLast(d.clock) == d.foreground)
  }

  /** Success is the wanted window existing and being in front; a switch touches neither the logs nor the cursor. */
  lemma BringOutcome(o: Outside, d: Desk, target: Hwnd)
    ensures
      var (d', ok) := Bring(o, d, target);
      && (ok <==> target != NO_WINDOW && o.isWindow(d.clock, target) && d'.foreground == target)
      && d'.injected == d.injected && d'.posted == d.posted && d'.cursor == d.cursor
      && (FrontKept(o, d, target) ==> d'.foreground == d.foreground)
  {
  }

  /** ... and the only keys it takes are those of the window in front, exactly when the foreground moved at all. */
  lemma BringFacts(o: Outside, d: Desk, target: Hwnd)
    requires BackgroundSilent(d)
    ensures
      var (d', ok) := Bring(o, d, target);
      && BackgroundSilent(d')
      && (ok <==> target != NO_WINDOW && o.isWindow(d.clock, target) && d'.foreground == target)
      && (forall h | h != d.foreground :: KeysOf(d', h) == KeysOf(d, h) == {})
      && KeysOf(d', d.foreground) == (if FrontKept(o, d, target) then KeysOf(d, d.foreground) else {})
      && d'.injected == d.injected && d'.posted == d.posted && d'.cursor == d.cursor
  {
    BringOutcome(o, d, target);
    var now := d.(clock := d.clock + 1);
    assert forall w :: KeysOf(now, w) == KeysOf(d, w);
    assert BackgroundSilent(now);
    SwitchFacts(now, o.landsFirst(d.clock));
    SwitchFacts(SwitchTo(now, o.landsFirst(d.clock)), o.landsLast(d.clock));
  }

  // ---- Injection

  lemma {:induction false} InjectAllLogs(d: Desk, purpose: Purpose, ps: seq<Payload>)
    ensures InjectAll(d, purpose, ps).foreground == d.foreground
    ensures InjectAll(d, purpose, ps).clock == d.clock && InjectAll(d, purpose, ps).posted == d.posted
    ensures InjectAll(d, purpose, ps).injected
            == d.injected + seq(|ps|, i requires 0 <= i < |ps| => Injection(d.foreground, purpose, ps[i]))
    ensures BackgroundSilent(d) ==> BackgroundSilent(InjectAll(d, purpose, ps))
  {
    if ps != [] {
      InjectAllLogs(d, purpose, ps[..|ps| - 1]);
      InjectIsForeground(InjectAll(d, purpose, ps[..|ps| - 1]), purpose, ps[|ps| - 1]);
    }
  }

  lemma InjectIsForeground(d: Desk, purpose: Purpose, p: Payload)
    ensures forall h | h != d.foreground :: KeysOf(Inject(d, purpose, p), h) == KeysOf(d, h)
  {
  }

  /** The key sets after injecting: presses add, releases remove, everything else leaves them alone. */
  lemma {:induction false} InjectAllKeysWithin(d: Desk, purpose: Purpose, ps: seq<Payload>, limit: set<nat>)
    requires forall p | p in ps :: p.KeyStroke? && p.down ==> p.vk in limit
    ensures KeysOf(InjectAll(d, purpose, ps), d.foreground) <= KeysOf(d, d.foreground) + limit
    ensures forall h | h != d.foreground :: KeysOf(InjectAll(d, purpose, ps), h) == KeysOf(d, h)
  {
    if ps != [] {
      InjectAllLogs(d, purpose, ps[..|ps| - 1]);
      InjectAllKeysWithin(d, purpose, ps[..|ps| - 1], limit);
      assert ps[|ps| - 1] in ps;
    }
  }

  function Presses(ps: seq<Payload>): set<nat> {
    set i | 0 <= i < |ps| && ps[i].KeyStroke? :: ps[i].vk
  }

  lemma {:induction false} InjectPresses(d: Desk, purpose: Purpose, ps: seq<Payload>)
    requires forall p | p in ps :: p.KeyStroke? && p.down
    ensures KeysOf(InjectAll(d, purpose, ps), d.foreground) == KeysOf(d, d.foreground) + Presses(ps)
    ensures forall h | h != d.foreground :: KeysOf(InjectAll(d, purpose, ps), h) == KeysOf(d, h)
  {
    if ps != [] {
      var before, last := ps[..|ps| - 1], ps[|ps| - 1];
      InjectAllLogs(d, purpose, before);
      InjectPresses(d, purpose, before);
      assert last in ps;
      assert Presses(ps) == Presses(before) + {last.vk};
    }
  }
}
