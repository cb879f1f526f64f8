/**
 Hook thread and broadcaster thread as one step system. They share the ring, whose accesses keep their own
 atomic steps (see RingProtocol), and an auto-reset wake event. A wait that consumes a signal synchronises with
 the SetEvent calls before it, so the consumer then sees at least the head of the last of them; a wait may also
 time out. `raws`, `offers` and `handled` are histories: hook callbacks, ring outcomes, events handled.
 */
module Pipeline {
  import opened Capture
  import opened InputEvents
  import opened KeyStates
  import opened RingProtocol

  datatype Offer = Offer(ev: InputEvent, accepted: bool)

  datatype Hook = HookIdle | Pushing(ev: InputEvent) | OwesSignal

  datatype Worker = Waiting | Draining | Handling(ev: InputEvent)

  datatype System = System(
    ring: Ring<InputEvent>,
    hook: Hook, captureKeys: KeyTable,
    worker: Worker, masterKeys: KeyTable,
    signalled: bool, signalView: nat,
    raws: seq<HookInput>, offers: seq<Offer>, handled: seq<InputEvent>)

  datatype World = World(shape: Shape, cfg: Settings)

  ghost predicate Init(s: System) {
    s == System(RingProtocol.Empty(), HookIdle, EmptyTable(), Waiting, EmptyTable(), false, 0, [], [], [])
  }

  // ---- Hook thread

  ghost predicate HookCallback(w: World, s: System, s': System, raw: HookInput) {
    && s.hook.HookIdle?
    && match Offered(w.cfg, s.captureKeys, raw)
       case None => s' == s.(raws := s.raws + [raw])
       case Some(ev) =>
         && BeginPush(s.ring, s'.ring, ev)
         && s' == s.(ring := s'.ring, hook := Pushing(ev), raws := s.raws + [raw],
                     captureKeys := TableAfter(w.cfg, s.captureKeys, raw))
  }

  ghost predicate PushInside(w: World, s: System, s': System)
    requires w.shape.Ok()
  {
    && s.hook.Pushing?
    && ((exists at :: LoadTail(w.shape, s.ring, s'.ring, at)) || WriteSlot(w.shape, s.ring, s'.ring))
    && s' == s.(ring := s'.ring)
  }

  ghost predicate PushReturns(w: World, s: System, s': System, accepted: bool)
    requires w.shape.Ok()
  {
    && s.hook.Pushing?
    && (if accepted then PublishHead(w.shape, s.ring, s'.ring) else RejectFull(w.shape, s.ring, s'.ring))
    && s' == s.(ring := s'.ring, hook := OwesSignal, offers := s.offers + [Offer(s.hook.ev, accepted)])
  }

  ghost predicate SignalWake(s: System, s': System) {
    s.hook.OwesSignal? && s' == s.(hook := HookIdle, signalled := true, signalView := |s.ring.accepted|)
  }

  ghost predicate HookStep(w: World, s: System, s': System)
    requires w.shape.Ok()
  {
    || (exists raw :: HookCallback(w, s, s', raw))
    || PushInside(w, s, s') || PushReturns(w, s, s', true) || PushReturns(w, s, s', false) || SignalWake(s, s')
  }

  // ---- Broadcaster thread

  ghost predicate WaitReturns(s: System, s': System) {
    && s.worker.Waiting?
    && if s.signalled then
         var view := if s.signalView <= s.ring.seenHead then s.ring.seenHead else s.signalView;
         s' == s.(worker := Draining, signalled := false, ring := s.ring.(seenHead := view))
       else s' == s.(worker := Draining)  // timeout
  }

  ghost predicate PopInside(w: World, s: System, s': System)
    requires w.shape.Ok()
  {
    && s.worker.Draining?
    && (BeginPop(s.ring, s'.ring) || (exists at :: LoadHead(w.shape, s.ring, s'.ring, at))
        || (exists v :: CopySlot(w.shape, s.ring, s'.ring, v)))
    && s' == s.(ring := s'.ring)
  }

  ghost predicate PopFindsNothing(s: System, s': System) {
    s.worker.Draining? && FindEmpty(s.ring, s'.ring) && s' == s.(ring := s'.ring, worker := Waiting)
  }

  ghost predicate PopReturns(w: World, s: System, s': System)
    requires w.shape.Ok()
  {
    && s.worker.Draining? && s.ring.consumer.Copied?
    && PublishTail(w.shape, s.ring, s'.ring)
    && s' == s.(ring := s'.ring, worker := Handling(s.ring.consumer.value))
  }

  ghost predicate HandleEvent(s: System, s': System) {
    && s.worker.Handling?
    && s' == s.(worker := Draining, masterKeys := Applied(s.masterKeys, s.worker.ev), handled := s.handled + [s.worker.ev])
  }

  ghost predicate Next(w: World, s: System, s': System)
    requires w.shape.Ok()
  {
    || HookStep(w, s, s')
    || WaitReturns(s, s') || PopInside(w, s, s') || PopFindsNothing(s, s') || PopReturns(w, s, s') || HandleEvent(s, s')
  }

  ghost predicate Run(w: World, run: seq<System>)
    requires w.shape.Ok()
  {
    run != [] && Init(run[0]) && forall i | 0 < i < |run| :: Next(w, run[i - 1], run[i])
  }

  // ---- Histories

  function OfferedEvents(offers: seq<Offer>): seq<InputEvent> {
    if offers == [] then [] else OfferedEvents(offers[..|offers| - 1]) + [offers[|offers| - 1].ev]
  }

  function AcceptedEvents(offers: seq<Offer>): seq<InputEvent> {
    if offers == [] then []
    else
      var last := offers[|offers| - 1];
      AcceptedEvents(offers[..|offers| - 1]) + if last.accepted then [last.ev] else []
  }

  function InHook(s: System): seq<InputEvent> {
    if s.hook.Pushing? then [s.hook.ev] else []
  }

  function InWorker(s: System): seq<InputEvent> {
    if s.worker.Handling? then [s.worker.ev] else []
  }

  /** Events on their way from the hook's table to the broadcaster's. */
  function Pending(s: System): seq<InputEvent>
    requires |s.ring.popped| <= |s.ring.accepted|
  {
    InWorker(s) + InFlight(s.ring) + InHook(s)
  }

  // ---- Invariant

  ghost predicate RingInv(w: World, s: System)
    requires w.shape.Ok()
  {
    && RingProtocol.Inv(w.shape, s.ring)
    && (s.hook.Pushing? <==> !s.ring.producer.Idle?)
    && (s.hook.Pushing? ==> s.ring.producer.value == s.hook.ev)
    && (!s.worker.Draining? ==> s.ring.consumer.Resting?)
  }

  ghost predicate WakeInv(s: System) {
    && s.signalView <= |s.ring.accepted|
    && (!s.hook.OwesSignal? ==> s.signalView == |s.ring.accepted|)
    && (!s.signalled ==> s.signalView <= s.ring.seenHead)
    && (s.worker.Waiting? ==> s.ring.seenHead == |s.ring.popped|)
  }

  ghost predicate HistoryInv(w: World, s: System) {
    && s.captureKeys == HookTable(w.cfg, s.raws)
    && OfferedEvents(s.offers) + InHook(s) == HookStream(w.cfg, s.raws)
    && s.ring.accepted == AcceptedEvents(s.offers)
    && s.ring.dropped == |s.offers| - |s.ring.accepted|
    && s.ring.popped == s.handled + InWorker(s)
    && s.masterKeys == ApplyAll(EmptyTable(), s.handled)
  }

  ghost predicate Inv(w: World, s: System)
    requires w.shape.Ok()
  {
    RingInv(w, s) && WakeInv(s) && HistoryInv(w, s)
  }

  lemma InitInv(w: World, s: System)
    requires w.shape.Ok() && Init(s)
    ensures Inv(w, s)
  {
    RingProtocol.InitInv<InputEvent>(w.shape);
  }

  lemma HookKeepsRingInv(w: World, s: System, s': System)
    requires w.shape.Ok() && RingInv(w, s) && HookStep(w, s, s')
    ensures RingInv(w, s')
  {
    if s'.ring != s.ring {
      assert ProducerStep(w.shape, s.ring, s'.ring);
      ProducerKeepsInv(w.shape, s.ring, s'.ring);
    }
  }

  lemma WorkerKeepsRingInv(w: World, s: System, s': System)
    requires w.shape.Ok() && RingInv(w, s)
    requires PopInside(w, s, s') || PopFindsNothing(s, s') || PopReturns(w, s, s') || HandleEvent(s, s')
    ensures RingInv(w, s')
  {
    if s'.ring != s.ring {
      assert ConsumerStep(w.shape, s.ring, s'.ring);
      ConsumerKeepsInv(w.shape, s.ring, s'.ring);
    }
  }

  lemma WaitKeepsRingInv(w: World, s: System, s': System)
    requires w.shape.Ok() && RingInv(w, s) && WakeInv(s)
    ensures WaitReturns(s, s') ==> RingInv(w, s')
  {
  }

  /** The read positions, without the rest of the ring's invariant. */
  ghost predicate Bounded(r: Ring<InputEvent>) {
    |r.popped| <= r.seenHead <= |r.accepted|
  }

  lemma HookKeepsWakeInv(w: World, s: System, s': System)
    requires w.shape.Ok() && WakeInv(s) && HookStep(w, s, s')
    ensures WakeInv(s')
  {
  }

  lemma WorkerKeepsWakeInv(w: World, s: System, s': System)
    requires w.shape.Ok() && WakeInv(s) && Bounded(s.ring)
    requires WaitReturns(s, s') || PopInside(w, s, s') || PopReturns(w, s, s') || HandleEvent(s, s')
    ensures WakeInv(s')
  {
  }

  lemma ParkingKeepsWakeInv(w: World, s: System, s': System)
    requires w.shape.Ok() && RingInv(w, s) && WakeInv(s) && PopFindsNothing(s, s')
    ensures WakeInv(s')
  {
    DistanceIsExact(w.shape, s.ring.seenHead, |s.ring.popped|);
  }

  lemma HookHistoryKept(w: World, s: System, s': System, raw: HookInput)
    requires w.shape.Ok() && HistoryInv(w, s) && HookCallback(w, s, s', raw)
    ensures HistoryInv(w, s')
  {
    assert (s.raws + [raw])[..|s.raws|] == s.raws;
    assert OfferedEvents(s.offers) + [] == OfferedEvents(s.offers);
  }

  lemma PushHistoryKept(w: World, s: System, s': System, accepted: bool)
    requires w.shape.Ok() && HistoryInv(w, s) && s.hook.Pushing?
    requires !s.ring.producer.Idle? && s.ring.producer.value == s.hook.ev
    requires (accepted ==> s.ring.producer.Written?) && PushReturns(w, s, s', accepted)
    ensures HistoryInv(w, s')
  {
    var o := Offer(s.hook.ev, accepted);
    assert (s.offers + [o])[..|s.offers|] == s.offers;
    assert OfferedEvents(s'.offers) + [] == OfferedEvents(s.offers) + [s.hook.ev];
  }

  lemma WorkerKeepsHistory(w: World, s: System, s': System)
    requires w.shape.Ok() && HistoryInv(w, s)
    requires PopInside(w, s, s') || PopReturns(w, s, s') || HandleEvent(s, s')
    ensures HistoryInv(w, s')
  {
    if HandleEvent(s, s') {
      assert (s.handled + [s.worker.ev])[..|s.handled|] == s.handled;
      assert s'.handled + [] == s.handled + [s.worker.ev];
    }
  }

  lemma HookKeepsHistory(w: World, s: System, s': System)
    requires w.shape.Ok() && HistoryInv(w, s) && HookStep(w, s, s')
    requires s.hook.Pushing? ==> !s.ring.producer.Idle? && s.ring.producer.value == s.hook.ev
    ensures HistoryInv(w, s')
  {
    if raw :| HookCallback(w, s, s', raw) {
      HookHistoryKept(w, s, s', raw);
    } else if PushReturns(w, s, s', true) {
      PushHistoryKept(w, s, s', true);
    } else if PushReturns(w, s, s', false) {
      PushHistoryKept(w, s, s', false);
    }
  }

  lemma NextKeepsInv(w: World, s: System, s': System)
    requires w.shape.Ok() && Inv(w, s) && Next(w, s, s')
    ensures Inv(w, s')
  {
    if HookStep(w, s, s') {
      HookKeepsRingInv(w, s, s');
      HookKeepsWakeInv(w, s, s');
      HookKeepsHistory(w, s, s');
    } else if PopFindsNothing(s, s') {
      WorkerKeepsRingInv(w, s, s');
      ParkingKeepsWakeInv(w, s, s');
    } else {
      WorkerKeepsWakeInv(w, s, s');
      if WaitReturns(s, s') {
        WaitKeepsRingInv(w, s, s');
      } else {
        WorkerKeepsRingInv(w, s, s');
        WorkerKeepsHistory(w, s, s');
      }
    }
  }

  lemma {:induction false} RunKeepsInv(w: World, run: seq<System>, i: nat)
    requires w.shape.Ok() && Run(w, run) && i < |run|
    ensures Inv(w, run[i])
  {
    if i == 0 {
      InitInv(w, run[0]);
    } else {
      RunKeepsInv(w, run, i - 1);
      NextKeepsInv(w, run[i - 1], run[i]);
    }
  }

  // ---- No lost wakeup

  /** A consumer parked at the wait over a non-empty ring is about to be woken: by a set event or by one still owed. */
  lemma NoLostWakeup(w: World, run: seq<System>, i: nat)
    requires w.shape.Ok() && Run(w, run) && i < |run|
    requires run[i].worker.Waiting? && |run[i].ring.popped| != |run[i].ring.accepted|
    ensures run[i].signalled || run[i].hook.OwesSignal?
  {
    RunKeepsInv(w, run, i);
  }

  // ---- The two key tables

  lemma {:induction false} NoDropsAcceptAll(offers: seq<Offer>)
    ensures |AcceptedEvents(offers)| <= |offers| == |OfferedEvents(offers)|
    ensures |AcceptedEvents(offers)| == |offers| ==> AcceptedEvents(offers) == OfferedEvents(offers)
  {
    if offers != [] {
      NoDropsAcceptAll(offers[..|offers| - 1]);
    }
  }

  lemma Reassemble(handled: seq<InputEvent>, inWorker: seq<InputEvent>, popped: seq<InputEvent>,
                   accepted: seq<InputEvent>, inHook: seq<InputEvent>)
    requires popped == handled + inWorker && popped <= accepted
    ensures handled + (inWorker + accepted[|popped|..] + inHook) == accepted + inHook
    ensures handled + (inWorker + accepted[|popped|..]) == accepted
  {
    assert accepted == popped + accepted[|popped|..];
  }

  /** Until the first drop, what is pending is exactly what separates the broadcaster's table from the hook's. */
  lemma ReplicasAgree(w: World, run: seq<System>, i: nat)
    requires w.shape.Ok() && Run(w, run) && i < |run| && run[i].ring.dropped == 0
    ensures |run[i].ring.popped| <= |run[i].ring.accepted|
    ensures ApplyAll(run[i].masterKeys, Pending(run[i])) == run[i].captureKeys
  {
    HistoriesHold(w, run, i);
    var s := run[i];
    NoDropsAcceptAll(s.offers);
    Reassemble(s.handled, InWorker(s), s.ring.popped, s.ring.accepted, InHook(s));
    ApplyAllConcat(EmptyTable(), s.handled, Pending(s));
    StreamRebuildsTable(w.cfg, s.raws);
  }

  lemma HistoriesHold(w: World, run: seq<System>, i: nat)
    requires w.shape.Ok() && Run(w, run) && i < |run|
    ensures HistoryInv(w, run[i])
    ensures |run[i].ring.popped| <= |run[i].ring.accepted| && run[i].ring.popped == run[i].ring.accepted[..|run[i].ring.popped|]
  {
    RunKeepsInv(w, run, i);
  }

  /** Each key goes down, up, down, up, ... in what is offered, and in what is published until the first drop. */
  lemma PublishedStreamAlternates(w: World, run: seq<System>, i: nat, vk: nat)
    requires w.shape.Ok() && Run(w, run) && i < |run| && vk < KEYS
    ensures Alternates(Transitions(HookStream(w.cfg, run[i].raws), vk))
    ensures run[i].ring.dropped == 0 ==> Alternates(Transitions(run[i].ring.accepted, vk))
  {
    HistoriesHold(w, run, i);
    var s := run[i];
    StreamRebuildsTable(w.cfg, s.raws);
    EffectiveAlternates(HookStream(w.cfg, s.raws), vk);
    TransitionsConcat(OfferedEvents(s.offers), InHook(s), vk);
    AlternatesPrefix(Transitions(OfferedEvents(s.offers), vk), Transitions(InHook(s), vk));
    NoDropsAcceptAll(s.offers);
  }

  /** Table and offers are those of the input that the hook does not ignore. */
  lemma OffersAreExternal(w: World, run: seq<System>, i: nat)
    requires w.shape.Ok() && Run(w, run) && i < |run|
    ensures
      var external := External(w.cfg, run[i].raws);
      && run[i].captureKeys == HookTable(w.cfg, external)
      && OfferedEvents(run[i].offers) + InHook(run[i]) == HookStream(w.cfg, external)
  {
    HistoriesHold(w, run, i);
    FeedbackNonInterference(w.cfg, run[i].raws);
  }

  // ---- After drops

  /** How many transitions of `vk` in a row, ending with the latest one, the full ring refused. */
  function TrailingDrops(offers: seq<Offer>, vk: nat): nat {
    if offers == [] then 0
    else
      var o, before := offers[|offers| - 1], offers[..|offers| - 1];
      if !Concerns(o.ev, vk) then TrailingDrops(before, vk)
      else if o.accepted then 0
      else TrailingDrops(before, vk) + 1
  }

  predicate EndsPressed(ts: seq<InputEvent>) {
    ts != [] && ts[|ts| - 1].kind.KeyDown?
  }

  lemma OneMoreOffer(before: seq<Offer>, o: Offer, vk: nat)
    ensures Transitions(OfferedEvents(before + [o]), vk)
            == Transitions(OfferedEvents(before), vk) + Transitions([o.ev], vk)
    ensures Transitions([o.ev], vk) == if Concerns(o.ev, vk) then [o.ev] else []
    ensures Transitions(AcceptedEvents(before + [o]), vk)
            == Transitions(AcceptedEvents(before), vk) + if o.accepted && Concerns(o.ev, vk) then [o.ev] else []
    ensures
      TrailingDrops(before + [o], vk)
      == if !Concerns(o.ev, vk) then TrailingDrops(before, vk) else if o.accepted then 0 else TrailingDrops(before, vk) + 1
  {
    assert (before + [o])[..|before|] == before;
    TransitionsOfOne(o.ev, vk);
    TransitionsConcat(OfferedEvents(before), [o.ev], vk);
    TransitionsConcat(AcceptedEvents(before), if o.accepted then [o.ev] else [], vk);
  }

  /** The last transition kept is a press exactly when the transitions before the refused ones are odd in number. */
  predicate PolarityFits(all: seq<InputEvent>, kept: seq<InputEvent>, drops: nat) {
    drops <= |all| && (EndsPressed(kept) <==> (|all| - drops) % 2 == 1)
  }

  lemma {:induction false} AcceptedPolarity(offers: seq<Offer>, vk: nat)
    requires Alternates(Transitions(OfferedEvents(offers), vk))
    ensures PolarityFits(Transitions(OfferedEvents(offers), vk), Transitions(AcceptedEvents(offers), vk),
                         TrailingDrops(offers, vk))
  {
    if offers != [] {
      var before, o := offers[..|offers| - 1], offers[|offers| - 1];
      assert offers == before + [o];
      OneMoreOffer(before, o, vk);
      BeforeAlternates(before, o, vk);
      AcceptedPolarity(before, vk);
      PolarityStep(Transitions(OfferedEvents(before), vk), Transitions(AcceptedEvents(before), vk),
                   TrailingDrops(before, vk), o, Concerns(o.ev, vk));
    }
  }

  lemma BeforeAlternates(before: seq<Offer>, o: Offer, vk: nat)
    requires Alternates(Transitions(OfferedEvents(before + [o]), vk))
    ensures Alternates(Transitions(OfferedEvents(before), vk))
  {
    OneMoreOffer(before, o, vk);
    AlternatesPrefix(Transitions(OfferedEvents(before), vk), Transitions([o.ev], vk));
  }

  predicate Concerns(ev: InputEvent, vk: nat) {
    IsKey(ev.kind) && ev.vk == vk
  }

  lemma TransitionsOfOne(ev: InputEvent, vk: nat)
    ensures Transitions([ev], vk) == if Concerns(ev, vk) then [ev] else []
    ensures Transitions([], vk) == []
  {
    assert [ev][..0] == [];
  }

  lemma AlternatesPrefix(a: seq<InputEvent>, b: seq<InputEvent>)
    requires Alternates(a + b)
    ensures Alternates(a)
  {
    assert forall j | 0 <= j < |a| :: a[j] == (a + b)[j];
  }

  /** One more transition: accepted, it is the last one kept; refused, it flips only the hook's side. */
  lemma PolarityStep(all: seq<InputEvent>, kept: seq<InputEvent>, drops: nat, o: Offer, concerned: bool)
    requires Alternates(all + if concerned then [o.ev] else []) && PolarityFits(all, kept, drops)
    ensures PolarityFits(all + (if concerned then [o.ev] else []),
                         kept + (if o.accepted && concerned then [o.ev] else []),
                         if !concerned then drops else if o.accepted then 0 else drops + 1)
  {
    assert all + [] == all && kept + [] == kept;
    assert (all + [o.ev])[|all|] == o.ev;
  }

  /** The broadcaster's view of a key is the polarity of the last transition it handled, drops or not. */
  lemma MasterTracksHandled(w: World, run: seq<System>, i: nat, vk: nat)
    requires w.shape.Ok() && Run(w, run) && i < |run| && vk < KEYS
    ensures IsDown(run[i].masterKeys, vk) <==> EndsPressed(Transitions(run[i].handled, vk))
  {
    HistoriesHold(w, run, i);
    DownIsLastPolarity(run[i].handled, vk);
  }

  /**
   With no transition of `vk` on its way, the two tables agree on the key exactly when the ring has just refused
   an even number of its transitions in a row: one lost transition desynchronises, the next accepted one repairs.
   */
  lemma DropParity(w: World, run: seq<System>, i: nat, vk: nat)
    requires w.shape.Ok() && Run(w, run) && i < |run| && vk < KEYS
    requires |run[i].ring.popped| <= |run[i].ring.accepted| && Transitions(Pending(run[i]), vk) == []
    ensures (IsDown(run[i].masterKeys, vk) <==> IsDown(run[i].captureKeys, vk))
            <==> TrailingDrops(run[i].offers, vk) % 2 == 0
  {
    PublishedStreamAlternates(w, run, i, vk);
    MasterTracksHandled(w, run, i, vk);
    HistoriesHold(w, run, i);
    DropParityAt(w, run[i], vk);
  }

  lemma DropParityAt(w: World, s: System, vk: nat)
    requires HistoryInv(w, s) && vk < KEYS
    requires |s.ring.popped| <= |s.ring.accepted| && s.ring.popped == s.ring.accepted[..|s.ring.popped|]
    requires Transitions(Pending(s), vk) == []
    requires Alternates(Transitions(HookStream(w.cfg, s.raws), vk))
    ensures (EndsPressed(Transitions(s.handled, vk)) <==> IsDown(s.captureKeys, vk))
            <==> TrailingDrops(s.offers, vk) % 2 == 0
  {
    StreamRebuildsTable(w.cfg, s.raws);
    EffectiveAlternates(HookStream(w.cfg, s.raws), vk);
    Reassemble(s.handled, InWorker(s), s.ring.popped, s.ring.accepted, InHook(s));
    DropParityOf(HookStream(w.cfg, s.raws), s.offers, InHook(s), s.handled, InWorker(s) + InFlight(s.ring), vk);
  }

  lemma SilentTail(base: seq<InputEvent>, mid: seq<InputEvent>, end: seq<InputEvent>, vk: nat)
    requires Transitions(mid + end, vk) == []
    ensures Transitions(end, vk) == [] && Transitions(base + mid, vk) == Transitions(base, vk)
  {
    TransitionsConcat(mid, end, vk);
    TransitionsConcat(base, mid, vk);
  }

  lemma DropParityOf(stream: seq<InputEvent>, offers: seq<Offer>, inHook: seq<InputEvent>, handled: seq<InputEvent>,
                     undelivered: seq<InputEvent>, vk: nat)
    requires stream == OfferedEvents(offers) + inHook && handled + undelivered == AcceptedEvents(offers)
    requires Transitions(undelivered + inHook, vk) == [] && Alternates(Transitions(stream, vk))
    ensures (EndsPressed(Transitions(handled, vk)) <==> |Transitions(stream, vk)| % 2 == 1)
            <==> TrailingDrops(offers, vk) % 2 == 0
  {
    assert Transitions(AcceptedEvents(offers), vk) == Transitions(handled, vk) by {
      SilentTail(handled, undelivered, inHook, vk);
    }
    assert Transitions(stream, vk) == Transitions(OfferedEvents(offers), vk) by {
      SilentTail(OfferedEvents(offers), undelivered, inHook, vk);
      TransitionsConcat(OfferedEvents(offers), inHook, vk);
    }
    AcceptedPolarity(offers, vk);
    ParityOfDifference(|Transitions(stream, vk)|, TrailingDrops(offers, vk));
  }

  lemma ParityOfDifference(n: nat, d: nat)
    requires d <= n
    ensures ((n - d) % 2 == 1 <==> n % 2 == 1) <==> d % 2 == 0
  {
  }

  /** In particular: once the latest transition of `vk` was accepted and has been handled, the tables agree again. */
  lemma AcceptedTransitionResynchronises(w: World, run: seq<System>, i: nat, vk: nat, k: nat)
    requires w.shape.Ok() && Run(w, run) && i < |run| && vk < KEYS
    requires |run[i].ring.popped| <= |run[i].ring.accepted| && Transitions(Pending(run[i]), vk) == []
    requires k < |run[i].offers| && run[i].offers[k].accepted && Transitions([run[i].offers[k].ev], vk) != []
    requires forall j | k < j < |run[i].offers| :: Transitions([run[i].offers[j].ev], vk) == []
    ensures IsDown(run[i].masterKeys, vk) <==> IsDown(run[i].captureKeys, vk)
  {
    LatestAccepted(run[i].offers, vk, k);
    DropParity(w, run, i, vk);
  }

  lemma {:induction false} LatestAccepted(offers: seq<Offer>, vk: nat, k: nat)
    requires k < |offers| && offers[k].accepted && Transitions([offers[k].ev], vk) != []
    requires forall j | k < j < |offers| :: Transitions([offers[j].ev], vk) == []
    ensures TrailingDrops(offers, vk) == 0
  {
    var last := |offers| - 1;
    assert [offers[last].ev][..0] == [];
    if k < last {
      LatestAccepted(offers[..last], vk, k);
    }
  }
}
