/** The low-level hook callbacks: feedback guard, auto-repeat filter, publication to the ring. */
module Capture {
  import opened InputEvents
  import opened KeyStates
  import SpscRing

  const INJECT_MAGIC := 0x4D4D0001
  const XBUTTON1 := 1

  const VK_LBUTTON := 1
  const VK_RBUTTON := 2
  const VK_MBUTTON := 4
  const VK_XBUTTON1 := 5
  const VK_XBUTTON2 := 6

  datatype MouseMessage =
    | LButtonDown | LButtonUp | RButtonDown | RButtonUp | MButtonDown | MButtonUp | XButtonDown | XButtonUp
    | MouseWheel | MouseHWheel | Move | Other

  /** What the OS hands to a hook; `ts` is the clock reading the hook takes. `hi` is the signed high word of mouseData. */
  datatype HookInput =
    | KeyInput(down: bool, vkCode: nat, scanCode: nat, extended: bool, altDown: bool, injected: bool, extraInfo: nat, ts: nat)
    | MouseInput(message: MouseMessage, x: int, y: int, hi: int, injected: bool, extraInfo: nat, ts: nat)

  datatype Settings = Settings(acceptForeign: bool, captureMoves: bool)

  predicate Ignored(cfg: Settings, raw: HookInput) {
    raw.extraInfo == INJECT_MAGIC || (raw.injected && !cfg.acceptForeign)
  }

  function VkOf(raw: HookInput): (vk: nat)
    requires raw.KeyInput?
    ensures vk < KEYS
  {
    raw.vkCode % 256
  }

  function KeyEvent(raw: HookInput): InputEvent
    requires raw.KeyInput?
  {
    InputEvent(raw.ts, if raw.down then KeyDown else KeyUp, VkOf(raw), raw.scanCode % 0x1_0000,
               (if raw.extended then EXTENDED_KEY else 0) + (if raw.altDown then SYS_KEY else 0), 0, 0)
  }

  function MouseEvent(cfg: Settings, raw: HookInput): Option<InputEvent>
    requires raw.MouseInput?
  {
    var xvk := if raw.hi == XBUTTON1 then VK_XBUTTON1 else VK_XBUTTON2;
    var at := (kind, vk: nat) => Some(InputEvent(raw.ts, kind, vk, 0, 0, raw.x, raw.y));
    match raw.message
    case LButtonDown => at(MouseDown, VK_LBUTTON)
    case LButtonUp => at(MouseUp, VK_LBUTTON)
    case RButtonDown => at(MouseDown, VK_RBUTTON)
    case RButtonUp => at(MouseUp, VK_RBUTTON)
    case MButtonDown => at(MouseDown, VK_MBUTTON)
    case MButtonUp => at(MouseUp, VK_MBUTTON)
    case XButtonDown => at(MouseDown, xvk)
    case XButtonUp => at(MouseUp, xvk)
    case MouseWheel => Some(InputEvent(raw.ts, Wheel, 0, 0, 0, 0, raw.hi))
    case MouseHWheel => Some(InputEvent(raw.ts, Wheel, 0, 0, 0, raw.hi, 0))
    case Move => if cfg.captureMoves then at(MouseMove, 0) else None
    case Other => None
  }

  // ---- What becomes of an input, field by field

  /** Our own output, by its stamp, and foreign software's while it is not accepted. */
  predicate Filtered(cfg: Settings, raw: HookInput) {
    raw.extraInfo == 0x4D4D_0001 || (raw.injected && !cfg.acceptForeign)
  }

  /** `ev` is the record of a key input: polarity, code, scan code, and the two flags as bits 0 and 3. */
  predicate KeyRecord(raw: HookInput, ev: InputEvent) {
    && raw.KeyInput?
    && ev.ts == raw.ts && ev.x == 0 && ev.y == 0
    && (ev.kind == KeyDown || ev.kind == KeyUp) && (ev.kind == KeyDown <==> raw.down)
    && ev.vk == raw.vkCode % 256 && ev.scan == raw.scanCode % 65536
    && ev.flags in {0, 1, 8, 9} && (ev.flags in {1, 9} <==> raw.extended) && (ev.flags in {8, 9} <==> raw.altDown)
  }

  /** The Win32 code and the polarity of a button message. */
  function ButtonOf(raw: HookInput): Option<(nat, bool)>
    requires raw.MouseInput?
  {
    match raw.message
    case LButtonDown => Some((1, true))
    case LButtonUp => Some((1, false))
    case RButtonDown => Some((2, true))
    case RButtonUp => Some((2, false))
    case MButtonDown => Some((4, true))
    case MButtonUp => Some((4, false))
    case XButtonDown => Some((if raw.hi == 1 then 5 else 6, true))
    case XButtonUp => Some((if raw.hi == 1 then 5 else 6, false))
    case _ => None
  }

  /** `ev` is the record of a mouse input: button and place, or the wheel's delta on its own axis, or the place alone. */
  predicate MouseRecord(raw: HookInput, ev: InputEvent) {
    && raw.MouseInput? && ev.ts == raw.ts && ev.scan == 0 && ev.flags == 0
    && match raw.message
       case MouseWheel => ev.kind == Wheel && ev.vk == 0 && ev.x == 0 && ev.y == raw.hi
       case MouseHWheel => ev.kind == Wheel && ev.vk == 0 && ev.x == raw.hi && ev.y == 0
       case Move => ev.kind == MouseMove && ev.vk == 0 && ev.x == raw.x && ev.y == raw.y
       case _ =>
         && (ev.kind == MouseDown || ev.kind == MouseUp)
         && ButtonOf(raw) == Some((ev.vk, ev.kind == MouseDown)) && ev.x == raw.x && ev.y == raw.y
  }

  /** The event, if any, that one hook callback offers to the ring when the hook's key table is `t`. */
  function Offered(cfg: Settings, t: KeyTable, raw: HookInput): Option<InputEvent> {
    if Ignored(cfg, raw) then None
    else match raw
      case KeyInput(_, _, _, _, _, _, _, _) => if Changes(t, KeyEvent(raw)) then Some(KeyEvent(raw)) else None
      case MouseInput(_, _, _, _, _, _, _) => MouseEvent(cfg, raw)
  }

  function TableAfter(cfg: Settings, t: KeyTable, raw: HookInput): KeyTable {
    match Offered(cfg, t, raw)
    case Some(ev) => Applied(t, ev)
    case None => t
  }

  /** A key is offered iff it is not filtered and differs from the table, as its record, which the table then holds. */
  lemma KeyOffered(cfg: Settings, t: KeyTable, raw: HookInput)
    requires raw.KeyInput?
    ensures Ignored(cfg, raw) <==> Filtered(cfg, raw)
    ensures
      var vk, offered, t' := raw.vkCode % 256, Offered(cfg, t, raw), TableAfter(cfg, t, raw);
      if Filtered(cfg, raw) || raw.down == t[vk].down then offered == None && t' == t
      else
        && offered.Some? && KeyRecord(raw, offered.value)
        && t' == t[vk := if raw.down then Key(true, offered.value.scan, offered.value.flags) else t[vk].(down := false)]
  {
  }

  /** A mouse input is offered iff it is not filtered, known, and, for moves, wanted; always as its record. */
  lemma MouseOffered(cfg: Settings, t: KeyTable, raw: HookInput)
    requires raw.MouseInput?
    ensures Ignored(cfg, raw) <==> Filtered(cfg, raw)
    ensures TableAfter(cfg, t, raw) == t
    ensures
      var offered := Offered(cfg, t, raw);
      if Filtered(cfg, raw) || raw.message == Other || (raw.message == Move && !cfg.captureMoves) then offered == None
      else offered.Some? && MouseRecord(raw, offered.value)
  {
  }

  // ---- Whole runs of the hook thread

  function HookTable(cfg: Settings, raws: seq<HookInput>): KeyTable {
    if raws == [] then EmptyTable() else TableAfter(cfg, HookTable(cfg, raws[..|raws| - 1]), raws[|raws| - 1])
  }

  function HookStream(cfg: Settings, raws: seq<HookInput>): seq<InputEvent> {
    if raws == [] then []
    else
      var before := raws[..|raws| - 1];
      match Offered(cfg, HookTable(cfg, before), raws[|raws| - 1])
      case Some(ev) => HookStream(cfg, before) + [ev]
      case None => HookStream(cfg, before)
  }

  function External(cfg: Settings, raws: seq<HookInput>): seq<HookInput> {
    if raws == [] then []
    else
      External(cfg, raws[..|raws| - 1]) + if Ignored(cfg, raws[|raws| - 1]) then [] else [raws[|raws| - 1]]
  }

  /** However our own output is interleaved with real input, the offered stream and the key table are as without it. */
  lemma {:induction false} FeedbackNonInterference(cfg: Settings, raws: seq<HookInput>)
    ensures HookStream(cfg, raws) == HookStream(cfg, External(cfg, raws))
    ensures HookTable(cfg, raws) == HookTable(cfg, External(cfg, raws))
    ensures forall raw | raw in External(cfg, raws) :: raw.extraInfo != INJECT_MAGIC
  {
    if raws != [] {
      var before, last := raws[..|raws| - 1], raws[|raws| - 1];
      FeedbackNonInterference(cfg, before);
      if Ignored(cfg, last) {
        assert External(cfg, raws) == External(cfg, before);
      } else {
        var ext := External(cfg, raws);
        assert ext == External(cfg, before) + [last];
        assert ext[..|ext| - 1] == External(cfg, before);
      }
    }
  }

  /** The offered stream is its own explanation: filtering it again drops nothing, and it rebuilds the hook's table. */
  lemma {:induction false} StreamRebuildsTable(cfg: Settings, raws: seq<HookInput>)
    ensures Effective(HookStream(cfg, raws))
    ensures ApplyAll(EmptyTable(), HookStream(cfg, raws)) == HookTable(cfg, raws)
  {
    if raws != [] {
      var before := raws[..|raws| - 1];
      StreamRebuildsTable(cfg, before);
      OfferExtends(cfg, HookStream(cfg, before), raws[|raws| - 1]);
    }
  }

  /** One more callback keeps an effective stream effective. */
  lemma OfferExtends(cfg: Settings, stream: seq<InputEvent>, raw: HookInput)
    requires Effective(stream)
    ensures
      var t := ApplyAll(EmptyTable(), stream);
      match Offered(cfg, t, raw)
      case Some(ev) =>
        Effective(stream + [ev]) && ApplyAll(EmptyTable(), stream + [ev]) == TableAfter(cfg, t, raw)
      case None => TableAfter(cfg, t, raw) == t
  {
    match Offered(cfg, ApplyAll(EmptyTable(), stream), raw)
    case Some(ev) => assert (stream + [ev])[..|stream|] == stream;
    case None =>
  }

  // ---- The callbacks

  class Capture {
    const ring: SpscRing.SpscRing<InputEvent>
    const keys: KeyState
    const swallow: array<bool>
    var settings: Settings
    var captured: nat
    var dropped: nat
    var injectedSeen: nat
    var signals: nat  // SetEvent calls on the wake event

    ghost predicate Valid()
      reads this, ring, ring.buf, keys, keys.keys, swallow
    {
      ring.Valid() && keys.Valid() && swallow.Length == KEYS
    }

    constructor (r: SpscRing.SpscRing<InputEvent>)
      requires r.Valid()
      ensures Valid() && ring == r && fresh(keys) && fresh(keys.keys) && fresh(swallow)
      ensures keys.Table() == EmptyTable() && settings == Settings(false, false)
      ensures captured == dropped == injectedSeen == signals == 0
      ensures forall vk | 0 <= vk < KEYS :: !swallow[vk]
    {
      ring := r;
      var k := new KeyState();
      keys := k;
      swallow := new bool[KEYS](_ => false);
      settings := Settings(false, false);
      captured, dropped, injectedSeen, signals := 0, 0, 0, 0;
    }

    method SetSwallow(vk: nat, on: bool)
      requires Valid()
      modifies swallow
      ensures Valid()
      ensures swallow[..] == (if vk < KEYS then old(swallow[..])[vk := on] else old(swallow[..]))
    {
      if vk < swallow.Length {
        swallow[vk] := on;
      }
    }

    /** Every offered event is either in the ring or counted as dropped, and the consumer is woken in both cases. */
    method Publish(ev: InputEvent)
      requires Valid()
      modifies this`captured, this`dropped, this`signals, ring, ring.buf
      ensures Valid() && Took(Some(ev))
    {
      var ok := ring.Push(ev);
      if ok {
        captured := captured + 1;
      } else {
        dropped := dropped + 1;
      }
      signals := signals + 1;
    }

    /** The result tells the OS to hide the key from the foreground window; our own output is never hidden. */
    method OnKey(raw: HookInput) returns (blocked: bool)
      requires Valid() && raw.KeyInput?
      modifies this`captured, this`dropped, this`injectedSeen, this`signals, keys, keys.keys, ring, ring.buf
      ensures Valid()
      ensures blocked <==> !Filtered(settings, raw) && old(swallow[raw.vkCode % 256])
      ensures keys.Table() == TableAfter(settings, old(keys.Table()), raw)
      ensures Took(Offered(settings, old(keys.Table()), raw))
      ensures if Filtered(settings, raw) || raw.down == old(keys.Table())[raw.vkCode % 256].down then
                Took(None) && keys.Table() == old(keys.Table())
              else exists ev :: KeyRecord(raw, ev) && Took(Some(ev))
      ensures injectedSeen == old(injectedSeen) + (if Filtered(settings, raw) then 1 else 0)
    {
      KeyOffered(settings, keys.Table(), raw);
      if raw.extraInfo == INJECT_MAGIC || (raw.injected && !settings.acceptForeign) {
        injectedSeen := injectedSeen + 1;
        return false;
      }
      var ev := KeyEvent(raw);
      blocked := swallow[ev.vk];
      var changed := keys.Apply(ev);
      if !changed {
        return blocked;
      }
      Publish(ev);
    }

    method OnMouse(raw: HookInput) returns (blocked: bool)
      requires Valid() && raw.MouseInput?
      modifies this`captured, this`dropped, this`injectedSeen, this`signals, ring, ring.buf
      ensures Valid() && !blocked
      ensures keys.Table() == TableAfter(settings, old(keys.Table()), raw)
      ensures Took(Offered(settings, old(keys.Table()), raw))
      ensures if Filtered(settings, raw) || raw.message == Other || (raw.message == Move && !settings.captureMoves) then
                Took(None)
              else exists ev :: MouseRecord(raw, ev) && Took(Some(ev))
      ensures injectedSeen == old(injectedSeen) + (if Filtered(settings, raw) then 1 else 0)
    {
      MouseOffered(settings, keys.Table(), raw);
      if raw.extraInfo == INJECT_MAGIC || (raw.injected && !settings.acceptForeign) {
        injectedSeen := injectedSeen + 1;
        return false;
      }
      match MouseEvent(settings, raw) {
        case Some(ev) => Publish(ev);
        case None =>
      }
      return false;
    }

    /** What a callback did with the event it offered. */
    twostate predicate Took(offered: Option<InputEvent>)
      requires old(Valid()) && Valid()
      reads this, ring, ring.buf, keys, keys.keys, swallow
    {
      match offered
      case None =>
        && ring.Contents() == old(ring.Contents())
        && captured == old(captured) && dropped == old(dropped) && signals == old(signals)
      case Some(ev) =>
        && signals == old(signals) + 1
        && if old(|ring.Contents()|) < ring.shape.capacity then
             ring.Contents() == old(ring.Contents()) + [ev] && captured == old(captured) + 1 && dropped == old(dropped)
           else
             ring.Contents() == old(ring.Contents()) && captured == old(captured) && dropped == old(dropped) + 1
    }
  }
}
