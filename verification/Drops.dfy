/** A run in which a full ring refuses a key press: the two key tables then differ, with nothing on its way. */
module Drops {
  import opened Arithmetic
  import opened Capture
  import opened InputEvents
  import opened KeyStates
  import opened Pipeline
  import RingProtocol

  const VK_A := 65
  const CLICK := MouseInput(LButtonDown, 0, 0, 0, false, 0, 0)
  const CLICKED := InputEvent(0, MouseDown, VK_LBUTTON, 0, 0, 0, 0)
  const PRESS := KeyInput(true, VK_A, 30, false, false, false, 0, 0)
  const PRESSED := InputEvent(0, KeyDown, VK_A, 30, 0, 0, 0)

  ghost predicate RunTo(w: World, run: seq<System>, s: System)
    requires w.shape.Ok()
  {
    Run(w, run) && run[|run| - 1] == s
  }

  lemma Extend(w: World, run: seq<System>, s: System, s': System) returns (run': seq<System>)
    requires w.shape.Ok() && RunTo(w, run, s) && Next(w, s, s')
    ensures RunTo(w, run', s')
  {
    run' := run + [s'];
  }

  /** The hook has published n clicks, the broadcaster has not woken up. */
  ghost predicate Filled(w: World, s: System, n: nat)
    requires w.shape.Ok()
  {
    && s.hook.HookIdle? && s.worker.Waiting? && s.captureKeys == s.masterKeys == EmptyTable()
    && s.ring.producer.Idle? && s.ring.popped == [] && s.ring.seenTail == 0
    && s.ring.head == n % w.shape.modulus && |s.ring.accepted| == n <= w.shape.capacity
    && Transitions(s.ring.accepted, VK_A) == [] && TrailingDrops(s.offers, VK_A) == 0
  }

  /** A callback begins a push, which loads the tail. */
  lemma BeginAndLoad(w: World, run: seq<System>, s: System, raw: HookInput, ev: InputEvent)
    returns (run': seq<System>, s': System)
    requires w.shape.Ok() && RunTo(w, run, s) && s.hook.HookIdle? && s.ring.producer.Idle?
    requires s.ring.popped == [] && s.ring.seenTail == 0 && Offered(w.cfg, s.captureKeys, raw) == Some(ev)
    ensures RunTo(w, run', s')
    ensures s' == s.(raws := s.raws + [raw], captureKeys := Applied(s.captureKeys, ev), hook := Pushing(ev),
                     ring := s.ring.(producer := RingProtocol.TailLoaded(ev, s.ring.head, 0)))
  {
    var s1 := s.(raws := s.raws + [raw], captureKeys := Applied(s.captureKeys, ev), hook := Pushing(ev),
                 ring := s.ring.(producer := RingProtocol.HeadLoaded(ev, s.ring.head)));
    assert HookCallback(w, s, s1, raw);
    run' := Extend(w, run, s, s1);
    s' := s1.(ring := s1.ring.(producer := RingProtocol.TailLoaded(ev, s.ring.head, 0)));
    assert RingProtocol.LoadTail(w.shape, s1.ring, s'.ring, 0);
    assert PushInside(w, s1, s');
    run' := Extend(w, run', s1, s');
  }

  /** With room in the ring the push writes, publishes and signals. */
  lemma FinishPush(w: World, run: seq<System>, s: System, ev: InputEvent) returns (run': seq<System>, s': System)
    requires w.shape.Ok() && RunTo(w, run, s) && s.hook == Pushing(ev)
    requires s.ring.producer.TailLoaded? && s.ring.producer.value == ev
    requires RingProtocol.Distance(w.shape, s.ring.producer.head, s.ring.producer.tail) != w.shape.capacity
    ensures RunTo(w, run', s')
    ensures
      s' == s.(hook := HookIdle, signalled := true, signalView := |s.ring.accepted| + 1,
               offers := s.offers + [Offer(ev, true)],
               ring := s.ring.(head := (s.ring.producer.head + 1) % w.shape.modulus, writes := s'.ring.writes,
                               accepted := s.ring.accepted + [ev], producer := RingProtocol.Idle))
  {
    var h := s.ring.producer.head;
    var s1 := s.(ring := s.ring.(writes := s.ring.writes + [RingProtocol.Write(h % w.shape.capacity, ev)],
                                 producer := RingProtocol.Written(ev, h)));
    assert RingProtocol.WriteSlot(w.shape, s.ring, s1.ring);
    assert PushInside(w, s, s1);
    run' := Extend(w, run, s, s1);
    var s2 := s1.(hook := OwesSignal, offers := s.offers + [Offer(ev, true)],
                  ring := s1.ring.(head := (h + 1) % w.shape.modulus, accepted := s.ring.accepted + [ev],
                                   producer := RingProtocol.Idle));
    assert RingProtocol.PublishHead(w.shape, s1.ring, s2.ring);
    assert PushReturns(w, s1, s2, true);
    run' := Extend(w, run', s1, s2);
    s' := s2.(hook := HookIdle, signalled := true, signalView := |s2.ring.accepted|);
    assert SignalWake(s2, s');
    run' := Extend(w, run', s2, s');
  }

  lemma ClickLeavesKeyAlone(accepted: seq<InputEvent>, offers: seq<Offer>)
    ensures Transitions(accepted + [CLICKED], VK_A) == Transitions(accepted, VK_A)
    ensures TrailingDrops(offers + [Offer(CLICKED, true)], VK_A) == TrailingDrops(offers, VK_A)
  {
    assert (accepted + [CLICKED])[..|accepted|] == accepted;
    assert (offers + [Offer(CLICKED, true)])[..|offers|] == offers;
  }

  lemma {:induction false} Fill(w: World, n: nat) returns (run: seq<System>, s: System)
    requires w.shape.Ok() && n <= w.shape.capacity
    ensures RunTo(w, run, s) && Filled(w, s, n)
  {
    if n == 0 {
      s := System(RingProtocol.Empty(), HookIdle, EmptyTable(), Waiting, EmptyTable(), false, 0, [], [], []);
      run := [s];
    } else {
      run, s := Fill(w, n - 1);
      var accepted, offers := s.ring.accepted, s.offers;
      run, s := BeginAndLoad(w, run, s, CLICK, CLICKED);
      RingProtocol.DistanceIsExact(w.shape, n - 1, 0);
      run, s := FinishPush(w, run, s, CLICKED);
      ClickLeavesKeyAlone(accepted, offers);
      RemainderSucc(n - 1, w.shape.modulus);
    }
  }

  /** In every shape of ring and with any settings: fill the ring with clicks, then press a key. */
  lemma DropsCanDesynchronise(w: World) returns (run: seq<System>, s: System)
    requires w.shape.Ok()
    ensures RunTo(w, run, s)
    ensures |s.ring.popped| <= |s.ring.accepted| && Transitions(Pending(s), VK_A) == []
    ensures TrailingDrops(s.offers, VK_A) == 1 && s.ring.dropped > 0
    ensures IsDown(s.captureKeys, VK_A) && !IsDown(s.masterKeys, VK_A)
  {
    run, s := Fill(w, w.shape.capacity);
    var full := s;
    run, s := BeginAndLoad(w, run, s, PRESS, PRESSED);
    RingProtocol.DistanceIsExact(w.shape, w.shape.capacity, 0);
    var s' := s.(hook := OwesSignal, offers := s.offers + [Offer(PRESSED, false)],
                 ring := s.ring.(dropped := s.ring.dropped + 1, producer := RingProtocol.Idle));
    assert RingProtocol.RejectFull(w.shape, s.ring, s'.ring);
    assert PushReturns(w, s, s', false);
    run := Extend(w, run, s, s');
    s := s';
    assert s.offers[..|s.offers| - 1] == full.offers;
    assert Pending(s) == full.ring.accepted;
  }
}
