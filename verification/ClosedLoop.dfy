/** The loop closed: what the broadcaster injects comes back to the hooks, interleaved with external input. */
module ClosedLoop {
  import opened Capture
  import opened Desktop
  import opened InputEvents
  import opened Pipeline

  /** A hook input that the injection of `p` may come back as: of its kind, and stamped like every input the program sends. */
  predicate Echoes(raw: HookInput, p: Payload) {
    && raw.extraInfo == INJECT_MAGIC
    && match p
       case KeyStroke(_, scan, down, flags) =>
         raw.KeyInput? && raw.down == down && (scan != 0 ==> raw.scanCode == scan) && raw.extended == (flags % 2 == EXTENDED_KEY)
       case MoveTo(_) => raw.MouseInput? && raw.message.Move?
       case Button(vk, down) => raw.MouseInput? && ButtonOf(raw) == Some((vk, down))
       case VerticalWheel(delta) => raw.MouseInput? && raw.message.MouseWheel? && raw.hi == delta
       case HorizontalWheel(delta) => raw.MouseInput? && raw.message.MouseHWheel? && raw.hi == delta
  }

  /** `echo` is the injections of `log`, in order, as the hooks see them. */
  ghost predicate EchoOf(echo: seq<HookInput>, log: seq<Injection>) {
    |echo| == |log| && forall k | 0 <= k < |echo| :: Echoes(echo[k], log[k].payload)
  }

  /** `all` is an interleaving of `a` and `b`. */
  ghost predicate Interleaves(all: seq<HookInput>, a: seq<HookInput>, b: seq<HookInput>) {
    if all == [] then a == [] && b == []
    else
      var before, last := all[..|all| - 1], all[|all| - 1];
      || (a != [] && a[|a| - 1] == last && Interleaves(before, a[..|a| - 1], b))
      || (b != [] && b[|b| - 1] == last && Interleaves(before, a, b[..|b| - 1]))
  }

  lemma {:induction false} EchoIsIgnored(cfg: Settings, all: seq<HookInput>, external: seq<HookInput>, echo: seq<HookInput>)
    requires Interleaves(all, external, echo) && forall k | 0 <= k < |echo| :: echo[k].extraInfo == INJECT_MAGIC
    ensures External(cfg, all) == External(cfg, external)
  {
    if all != [] {
      var before, last := all[..|all| - 1], all[|all| - 1];
      if external != [] && external[|external| - 1] == last && Interleaves(before, external[..|external| - 1], echo) {
        EchoIsIgnored(cfg, before, external[..|external| - 1], echo);
      } else {
        EchoIsIgnored(cfg, before, external, echo[..|echo| - 1]);
      }
    }
  }

  /** However the echo of what was injected is interleaved with the external input, the hook makes of it what it makes of the latter. */
  lemma EchoChangesNothing(cfg: Settings, all: seq<HookInput>, external: seq<HookInput>, echo: seq<HookInput>,
                           log: seq<Injection>)
    requires Interleaves(all, external, echo) && EchoOf(echo, log)
    ensures HookTable(cfg, all) == HookTable(cfg, external) && HookStream(cfg, all) == HookStream(cfg, external)
  {
    assert forall k | 0 <= k < |echo| :: Echoes(echo[k], log[k].payload);
    EchoIsIgnored(cfg, all, external, echo);
    FeedbackNonInterference(cfg, all);
    FeedbackNonInterference(cfg, external);
  }

  /**
   In any run of hook and broadcaster whose hook callbacks are external input interleaved with the echo of any
   injections, key table and offers are those of the external input alone; and until the first drop the events
   handled, followed by those on their way, are exactly the stream the external input gives rise to.
   */
  lemma ClosedLoopAddsNothing(w: World, run: seq<System>, i: nat, external: seq<HookInput>, echo: seq<HookInput>,
                              log: seq<Injection>)
    requires w.shape.Ok() && Run(w, run) && i < |run|
    requires Interleaves(run[i].raws, external, echo) && EchoOf(echo, log)
    ensures run[i].captureKeys == HookTable(w.cfg, external)
    ensures OfferedEvents(run[i].offers) + InHook(run[i]) == HookStream(w.cfg, external)
    ensures |run[i].ring.popped| <= |run[i].ring.accepted|
    ensures run[i].ring.dropped == 0 ==> run[i].handled + Pending(run[i]) == HookStream(w.cfg, external)
  {
    HistoriesHold(w, run, i);
    EchoChangesNothing(w.cfg, run[i].raws, external, echo, log);
    var s := run[i];
    NoDropsAcceptAll(s.offers);
    Reassemble(s.handled, InWorker(s), s.ring.popped, s.ring.accepted, InHook(s));
  }
}
