/** From the keyboard to a slave's window: hook, ring and broadcaster put together. */
module EndToEnd {
  import opened Broadcaster
  import opened Capture
  import opened ClosedLoop
  import opened Desktop
  import opened InputEvents
  import opened KeyStates
  import opened Pipeline
  import opened Routing
  import opened TargetStreams

  lemma HandledIsPrefix(handled: seq<InputEvent>, pending: seq<InputEvent>, stream: seq<InputEvent>)
    requires handled + pending == stream
    ensures handled <= stream
  {
  }

  /**
   In any run without drops, whatever of the program's own output comes back to the hooks, the events handled are
   a prefix of the stream of the external input; the broadcaster that executes them holds the keys the pipeline says;
   and what goes into the window of slave `k` is the granted part of that prefix and nothing else iff no cycle
   gave that window held keys, while what is posted to it is the eligible window-message part.
   */
  lemma SlaveGetsExternalInput(w: World, run: seq<System>, i: nat, external: seq<HookInput>, echo: seq<HookInput>,
                               log: seq<Injection>, e: Surroundings, st: State, k: nat, h: Hwnd)
    requires w.shape.Ok() && Pipeline.Run(w, run) && i < |run| && run[i].ring.dropped == 0
    requires Interleaves(run[i].raws, external, echo) && EchoOf(echo, log)
    requires st.keys == EmptyTable() && Owns(st.targets, k, h) && NoSwaps(run[i].handled, st.routes)
    ensures run[i].handled <= HookStream(w.cfg, external)
    ensures HandledAll(e, st, run[i].handled).keys == run[i].masterKeys
    ensures
      var evs, d := run[i].handled, HandledAll(e, st, run[i].handled).desk;
      && Thins(GrantedStream(e, st, evs, k), Due(e, st, evs, k, FocusCycle))
      && (InjectedInto(d.injected, h)
            == InjectedInto(st.desk.injected, h) + InputsOf(e, st, h, GrantedStream(e, st, evs, k))
          <==> !Strays(e, st, evs, h))
      && PostedTo(d.posted, h) == PostedTo(st.desk.posted, h) + MessagesOf(e, st, h, Due(e, st, evs, k, WindowMessage))
  {
    ClosedLoopAddsNothing(w, run, i, external, echo, log);
    HistoriesHold(w, run, i);
    HandledIsPrefix(run[i].handled, Pending(run[i]), HookStream(w.cfg, external));
    ConfigKept(e, st, run[i].handled, k, h);
    TargetReceives(e, st, run[i].handled, k, h);
    GrantedThinsDue(e, st, run[i].handled, k, h);
  }
}
