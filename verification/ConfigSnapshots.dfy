/**
 Publication of the configuration: setters write the pending fields one by one under the lock and then bump the
 version; the broadcaster loads the version without the lock, at any value its thread may still see, and copies
 the fields one by one under the lock. `calls` is the history of completed setter calls: version v is the
 configuration after the first v - 1 of them.
 */
module ConfigSnapshots {

  datatype Config<R, T> = Config(routes: R, targets: T, master: nat)

  datatype Call<R, T> = SetRoutes(routes: R) | SetTargets(targets: T, master: nat)

  datatype Stage = Entered | TargetsWritten | AllWritten | Bumped

  datatype Lock<R, T> =
    | Free
    | Setting(call: Call<R, T>, stage: Stage, byWorker: bool)
    | Reading

  datatype Copied = NoField | RoutesCopied | TargetsCopied | AllCopied

  /** Where the broadcaster's thread is; it only looks at its local copies while Using. */
  datatype Worker = Using | Refreshing | Stale(loaded: nat) | Copying(loaded: nat, copied: Copied) | Swapping

  datatype State<R, T> = State(
    pending: Config<R, T>, version: nat, lock: Lock<R, T>, calls: seq<Call<R, T>>,
    local: Config<R, T>, seen: nat, worker: Worker,
    viewed: nat,    // the newest version the broadcaster's thread is bound to see
    localAt: nat,   // the version whose configuration `local` holds
    swapAt: nat,    // the version its latest swap callback published, 0 before the first
    swaps: seq<Call<R, T>>)  // what the swap callbacks were told to publish, in order

  function Update<R, T>(c: Config<R, T>, call: Call<R, T>): Config<R, T> {
    match call
    case SetRoutes(r) => c.(routes := r)
    case SetTargets(t, m) => c.(targets := t, master := m)
  }

  function After<R, T>(c: Config<R, T>, calls: seq<Call<R, T>>): Config<R, T> {
    if calls == [] then c else Update(After(c, calls[..|calls| - 1]), calls[|calls| - 1])
  }

  /** The configuration of version `v`. */
  function AtVersion<R, T>(c: Config<R, T>, calls: seq<Call<R, T>>, v: nat): Config<R, T>
    requires 1 <= v <= |calls| + 1
  {
    After(c, calls[..v - 1])
  }

  ghost predicate Init<R, T>(c: Config<R, T>, s: State<R, T>) {
    s == State(c, 1, Free, [], c, 0, Refreshing, 1, 1, 0, [])
  }

  // ---- Setters

  ghost predicate EnterSetter<R(!new), T(!new)>(s: State<R, T>, s': State<R, T>, call: Call<R, T>) {
    s.lock.Free? && s' == s.(lock := Setting(call, Entered, false))
  }

  /** The swap callback publishes from the broadcaster's own thread. */
  ghost predicate EnterSwap<R(!new), T(!new)>(s: State<R, T>, s': State<R, T>, targets: T, master: nat) {
    && s.worker.Using? && s.lock.Free?
    && s' == s.(lock := Setting(SetTargets(targets, master), Entered, true), worker := Swapping,
                swaps := s.swaps + [SetTargets(targets, master)])
  }

  ghost predicate WriteField<R(!new), T(!new)>(s: State<R, T>, s': State<R, T>) {
    && s.lock.Setting?
    && match (s.lock.call, s.lock.stage)
       case (SetRoutes(r), Entered) =>
         s' == s.(pending := s.pending.(routes := r), lock := s.lock.(stage := AllWritten))
       case (SetTargets(t, _), Entered) =>
         s' == s.(pending := s.pending.(targets := t), lock := s.lock.(stage := TargetsWritten))
       case (SetTargets(_, m), TargetsWritten) =>
         s' == s.(pending := s.pending.(master := m), lock := s.lock.(stage := AllWritten))
       case _ => false
  }

  ghost predicate BumpVersion<R(!new), T(!new)>(s: State<R, T>, s': State<R, T>) {
    && s.lock.Setting? && s.lock.stage.AllWritten?
    && s' == s.(version := s.version + 1, calls := s.calls + [s.lock.call], lock := s.lock.(stage := Bumped))
  }

  ghost predicate LeaveSetter<R(!new), T(!new)>(s: State<R, T>, s': State<R, T>) {
    && s.lock.Setting? && s.lock.stage.Bumped?
    && if s.lock.byWorker then
         s' == s.(lock := Free, worker := Refreshing, viewed := s.version, swapAt := s.version)
       else s' == s.(lock := Free)
  }

  // ---- The broadcaster's refresh

  ghost predicate StartRefresh<R(!new), T(!new)>(s: State<R, T>, s': State<R, T>) {
    s.worker.Using? && s' == s.(worker := Refreshing)
  }

  ghost predicate LoadVersion<R(!new), T(!new)>(s: State<R, T>, s': State<R, T>, v: nat) {
    && s.worker.Refreshing? && s.viewed <= v <= s.version
    && s' == s.(viewed := v, worker := if v == s.seen then Using else Stale(v))
  }

  ghost predicate EnterCopy<R(!new), T(!new)>(s: State<R, T>, s': State<R, T>) {
    && s.worker.Stale? && s.lock.Free?
    && s' == s.(lock := Reading, worker := Copying(s.worker.loaded, NoField), viewed := s.version)
  }

  ghost predicate CopyField<R(!new), T(!new)>(s: State<R, T>, s': State<R, T>) {
    && s.worker.Copying?
    && match s.worker.copied
       case NoField =>
         s' == s.(local := s.local.(routes := s.pending.routes), worker := s.worker.(copied := RoutesCopied))
       case RoutesCopied =>
         s' == s.(local := s.local.(targets := s.pending.targets), worker := s.worker.(copied := TargetsCopied))
       case TargetsCopied =>
         s' == s.(local := s.local.(master := s.pending.master), worker := s.worker.(copied := AllCopied))
       case AllCopied => false
  }

  ghost predicate LeaveCopy<R(!new), T(!new)>(s: State<R, T>, s': State<R, T>) {
    && s.worker.Copying? && s.worker.copied.AllCopied?
    && s' == s.(lock := Free, worker := Using, seen := s.worker.loaded, localAt := s.version)
  }

  ghost predicate SetterStep<R(!new), T(!new)>(s: State<R, T>, s': State<R, T>) {
    || (exists call :: EnterSetter(s, s', call))
    || (exists t, m :: EnterSwap(s, s', t, m))
    || WriteField(s, s') || BumpVersion(s, s') || LeaveSetter(s, s')
  }

  ghost predicate RefreshStep<R(!new), T(!new)>(s: State<R, T>, s': State<R, T>) {
    || StartRefresh(s, s')
    || (exists v :: LoadVersion(s, s', v))
    || EnterCopy(s, s') || CopyField(s, s') || LeaveCopy(s, s')
  }

  ghost predicate Next<R(!new), T(!new)>(s: State<R, T>, s': State<R, T>) {
    SetterStep(s, s') || RefreshStep(s, s')
  }

  ghost predicate Run<R(!new), T(!new)>(c: Config<R, T>, run: seq<State<R, T>>) {
    run != [] && Init(c, run[0]) && forall i | 0 < i < |run| :: Next(run[i - 1], run[i])
  }

  // ---- Invariant

  /** What the pending fields hold, given how far the lock holder has come. */
  ghost predicate PendingInv<R, T>(c: Config<R, T>, s: State<R, T>) {
    var latest := After(c, s.calls);
    match s.lock
    case Free => s.pending == latest
    case Reading => s.pending == latest
    case Setting(call, Entered, _) => s.pending == latest
    case Setting(call, TargetsWritten, _) => call.SetTargets? && s.pending == latest.(targets := call.targets)
    case Setting(call, AllWritten, _) => s.pending == Update(latest, call)
    case Setting(call, Bumped, _) => s.pending == latest && s.calls != [] && s.calls[|s.calls| - 1] == call
  }

  ghost predicate LocalInv<R, T>(c: Config<R, T>, s: State<R, T>) {
    match s.worker
    case Copying(_, copied) =>
      && (copied != NoField ==> s.local.routes == s.pending.routes)
      && (copied == TargetsCopied || copied == AllCopied ==> s.local.targets == s.pending.targets)
      && (copied == AllCopied ==> s.local == s.pending)
    case _ => s.local == AtVersion'(c, s.calls, s.localAt)
  }

  function AtVersion'<R, T>(c: Config<R, T>, calls: seq<Call<R, T>>, v: nat): Config<R, T> {
    if 1 <= v <= |calls| + 1 then AtVersion(c, calls, v) else c
  }

  ghost predicate VersionInv<R, T>(s: State<R, T>) {
    && s.version == |s.calls| + 1
    && s.seen <= s.localAt <= s.version && 1 <= s.localAt
    && s.seen <= s.viewed <= s.version && 1 <= s.viewed
    && s.swapAt <= s.viewed
    && (s.worker.Copying? <==> s.lock.Reading?)
    && (s.worker.Swapping? <==> s.lock.Setting? && s.lock.byWorker)
    && (s.worker.Stale? || s.worker.Copying? ==> s.seen <= s.worker.loaded <= s.viewed && s.worker.loaded >= 1)
    && (s.worker.Using? || s.worker.Swapping? ==> s.swapAt <= s.localAt && 1 <= s.seen)
  }

  /** The version of the latest swap is the one that published what its callback was told. */
  ghost predicate SwapInv<R, T>(s: State<R, T>) {
    && (forall k | 0 <= k < |s.swaps| :: s.swaps[k].SetTargets?)
    && (s.worker.Swapping? ==> s.swaps != [] && s.lock.Setting? && s.lock.call == s.swaps[|s.swaps| - 1])
    && (!s.worker.Swapping? ==>
          if s.swaps == [] then s.swapAt == 0
          else 2 <= s.swapAt <= |s.calls| + 1 && s.calls[s.swapAt - 2] == s.swaps[|s.swaps| - 1])
  }

  ghost predicate Inv<R, T>(c: Config<R, T>, s: State<R, T>) {
    VersionInv(s) && PendingInv(c, s) && LocalInv(c, s) && SwapInv(s)
  }

  lemma NextKeepsVersionInv<R(!new), T(!new)>(s: State<R, T>, s': State<R, T>)
    requires VersionInv(s) && Next(s, s')
    ensures VersionInv(s')
    ensures s.seen <= s'.seen && s.localAt <= s'.localAt && s.calls <= s'.calls
  {
    if SetterStep(s, s') {
      SetterKeepsVersionInv(s, s');
    } else {
      RefreshKeepsVersionInv(s, s');
    }
  }

  lemma SetterKeepsVersionInv<R(!new), T(!new)>(s: State<R, T>, s': State<R, T>)
    requires VersionInv(s) && SetterStep(s, s')
    ensures VersionInv(s')
    ensures s.seen <= s'.seen && s.localAt <= s'.localAt && s.calls <= s'.calls
  {
  }

  lemma RefreshKeepsVersionInv<R(!new), T(!new)>(s: State<R, T>, s': State<R, T>)
    requires VersionInv(s) && RefreshStep(s, s')
    ensures VersionInv(s')
    ensures s.seen <= s'.seen && s.localAt <= s'.localAt && s.calls <= s'.calls
  {
  }

  lemma NextKeepsPendingInv<R(!new), T(!new)>(c: Config<R, T>, s: State<R, T>, s': State<R, T>)
    requires VersionInv(s) && PendingInv(c, s) && Next(s, s')
    ensures PendingInv(c, s')
  {
    if BumpVersion(s, s') {
      assert s'.calls[..|s.calls|] == s.calls;
    }
  }

  lemma NextKeepsLocalInv<R(!new), T(!new)>(c: Config<R, T>, s: State<R, T>, s': State<R, T>)
    requires VersionInv(s) && PendingInv(c, s) && LocalInv(c, s) && Next(s, s')
    ensures LocalInv(c, s')
  {
    if BumpVersion(s, s') {
      assert s'.calls[..s.localAt - 1] == s.calls[..s.localAt - 1];
    } else if LeaveCopy(s, s') {
      assert s.calls[..s.version - 1] == s.calls;
    }
  }

  lemma NextKeepsSwapInv<R(!new), T(!new)>(c: Config<R, T>, s: State<R, T>, s': State<R, T>)
    requires VersionInv(s) && PendingInv(c, s) && SwapInv(s) && Next(s, s')
    ensures SwapInv(s')
  {
    if SetterStep(s, s') {
      SetterKeepsSwapInv(c, s, s');
    }
  }

  lemma SetterKeepsSwapInv<R(!new), T(!new)>(c: Config<R, T>, s: State<R, T>, s': State<R, T>)
    requires VersionInv(s) && PendingInv(c, s) && SwapInv(s) && SetterStep(s, s')
    ensures SwapInv(s')
  {
  }

  lemma {:induction false} RunKeepsInv<R(!new), T(!new)>(c: Config<R, T>, run: seq<State<R, T>>, i: nat)
    requires Run(c, run) && i < |run|
    ensures Inv(c, run[i])
  {
    if i > 0 {
      RunKeepsInv(c, run, i - 1);
      NextKeepsVersionInv(run[i - 1], run[i]);
      NextKeepsPendingInv(c, run[i - 1], run[i]);
      NextKeepsLocalInv(c, run[i - 1], run[i]);
      NextKeepsSwapInv(c, run[i - 1], run[i]);
    }
  }

  // ---- What the broadcaster works with

  /** Never a mixture: the copies in use are one published version, between the recorded and the current one. */
  lemma SnapshotIsWhole<R(!new), T(!new)>(c: Config<R, T>, run: seq<State<R, T>>, i: nat)
    requires Run(c, run) && i < |run| && run[i].worker.Using?
    ensures
      var s := run[i];
      && 1 <= s.seen <= s.localAt <= s.version == |s.calls| + 1
      && s.local == AtVersion(c, s.calls, s.localAt)
      && (s.seen == s.version ==> s.local == After(c, s.calls))
  {
    RunKeepsInv(c, run, i);
    var s := run[i];
    assert s.calls[..|s.calls|] == s.calls;
  }

  lemma {:induction false} SnapshotsNeverGoBack<R(!new), T(!new)>(c: Config<R, T>, run: seq<State<R, T>>, i: nat, j: nat)
    requires Run(c, run) && i <= j < |run|
    ensures run[i].seen <= run[j].seen && run[i].localAt <= run[j].localAt && run[i].calls <= run[j].calls
    decreases j
  {
    if i < j {
      SnapshotsNeverGoBack(c, run, i, j - 1);
      OneStepForward(c, run, j);
    }
  }

  lemma OneStepForward<R(!new), T(!new)>(c: Config<R, T>, run: seq<State<R, T>>, j: nat)
    requires Run(c, run) && 0 < j < |run|
    ensures run[j - 1].seen <= run[j].seen && run[j - 1].localAt <= run[j].localAt && run[j - 1].calls <= run[j].calls
  {
    RunKeepsInv(c, run, j - 1);
    NextKeepsVersionInv(run[j - 1], run[j]);
  }

  /**
   After a handled swap the broadcaster uses the targets and the master that the latest callback was told to
   publish, unless targets were set again since.
   */
  lemma SwapTakesEffect<R(!new), T(!new)>(c: Config<R, T>, run: seq<State<R, T>>, i: nat)
    requires Run(c, run) && i < |run| && run[i].worker.Using? && run[i].swaps != []
    requires forall k | run[i].swapAt <= k + 1 && 0 <= k < |run[i].calls| :: run[i].calls[k].SetRoutes?
    ensures
      var told := run[i].swaps[|run[i].swaps| - 1];
      told.SetTargets? && run[i].local.targets == told.targets && run[i].local.master == told.master
  {
    RunKeepsInv(c, run, i);
    var s := run[i];
    LatestTargets(c, s.calls[..s.localAt - 1], s.swapAt - 2);
  }

  lemma {:induction false} LatestTargets<R, T>(c: Config<R, T>, calls: seq<Call<R, T>>, k: nat)
    requires k < |calls| && calls[k].SetTargets? && forall j | k < j < |calls| :: calls[j].SetRoutes?
    ensures After(c, calls).targets == calls[k].targets && After(c, calls).master == calls[k].master
  {
    if k < |calls| - 1 {
      LatestTargets(c, calls[..|calls| - 1], k);
    }
  }

  /** A configuration holds the routes of the latest SetRoutes call, or the initial ones. */
  lemma {:induction false} LatestRoutes<R, T>(c: Config<R, T>, calls: seq<Call<R, T>>)
    ensures (forall j | 0 <= j < |calls| :: calls[j].SetTargets?) ==> After(c, calls).routes == c.routes
    ensures forall k | 0 <= k < |calls| && calls[k].SetRoutes? && (forall j | k < j < |calls| :: calls[j].SetTargets?) ::
              After(c, calls).routes == calls[k].routes
  {
    if calls != [] {
      LatestRoutes(c, calls[..|calls| - 1]);
    }
  }
}
