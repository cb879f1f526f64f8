/** Instances, their liveness, and the rotation of the master by the swap hotkey. */
module Session {
  import opened Arithmetic
  import opened Assignments
  import Broadcaster
  import Desktop
  import opened Rotation
  import opened Routing
  import opened Sequences

  function Around(n: nat, m: nat, d: nat): (x: nat)
    requires 0 < n
    ensures x < n
  {
    (m + d) % n
  }

  predicate LiveAt(exited: seq<bool>, m: nat, d: nat)
    requires exited != []
  {
    !exited[Around(|exited|, m, d)]
  }

  /** The first live instance after `m`, going round from offset `i`; `m` itself when nobody is left. */
  function Probe(exited: seq<bool>, m: nat, i: nat): nat
    requires m < |exited| && 1 <= i <= |exited| + 1
    decreases |exited| + 1 - i
  {
    if i > |exited| then m
    else if LiveAt(exited, m, i) then Around(|exited|, m, i)
    else Probe(exited, m, i + 1)
  }

  function NextMaster(exited: seq<bool>, m: nat): nat
    requires m < |exited|
  {
    Probe(exited, m, 1)
  }

  /** One press of the swap key. */
  function Pressed(slots: seq<nat>, exited: seq<bool>): seq<nat>
    requires |slots| == |exited| && MasterOf(slots) < |exited|
  {
    WithMaster(slots, NextMaster(exited, MasterOf(slots)))
  }

  /** The windows the broadcaster may still deliver to. */
  function LiveWindows(windows: seq<Desktop.Hwnd>, exited: seq<bool>): (ts: seq<Desktop.Hwnd>)
    requires |windows| == |exited|
    ensures |ts| == |windows|
  {
    seq(|windows|, i requires 0 <= i < |windows| => if exited[i] then Desktop.NO_WINDOW else windows[i])
  }

  /** What the swap callback publishes when it leaves the slots like this, and the window it brings forward, dead or alive. */
  function AnswerOf(slots: seq<nat>, exited: seq<bool>, windows: seq<Desktop.Hwnd>): Broadcaster.SwapAnswer
    requires |windows| == |exited|
  {
    Broadcaster.SwapAnswer(LiveWindows(windows, exited), MasterOf(slots),
                           if MasterOf(slots) < |windows| then windows[MasterOf(slots)] else Desktop.NO_WINDOW)
  }

  class Session {
    const windows: seq<Desktop.Hwnd>
    const assignment: Assignment
    var exited: seq<bool>

    ghost predicate Valid()
      reads this, assignment
    {
      && Permutation(assignment.slotOf)
      && 1 <= |exited| == |assignment.slotOf| == |windows| <= MAX_TARGETS
    }

    constructor (ws: seq<Desktop.Hwnd>, firstMaster: nat)
      requires 1 <= |ws| <= MAX_TARGETS
      ensures Valid() && fresh(assignment) && windows == ws && exited == seq(|ws|, _ => false)
      ensures MasterOf(assignment.slotOf) == if firstMaster < |ws| then firstMaster else 0
    {
      windows := ws;
      var a := new Assignment(|ws|);
      InstanceAtInverts(a.slotOf);
      assert a.slotOf[0] == 0;
      SetMasterEffect(a.slotOf, firstMaster);
      a.SetMaster(firstMaster);
      assignment := a;
      exited := seq(|ws|, _ => false);
    }

    /** In every session state the master is a legal mask bit and every window has a layout slot of its own. */
    lemma MasterIsMaskBit()
      requires Valid()
      ensures MasterOf(assignment.slotOf) < |exited| <= MAX_TARGETS
      ensures forall i | 0 <= i < |exited| :: assignment.slotOf[i] < |exited|
      ensures Distinct(assignment.slotOf)
    {
      InstanceAtInverts(assignment.slotOf);
    }

    method Targets() returns (ts: seq<Desktop.Hwnd>)
      requires Valid()
      ensures ts == LiveWindows(windows, exited)
      ensures |ts| == |windows|
      ensures forall i | 0 <= i < |ts| :: (exited[i] ==> ts[i] == 0) && (!exited[i] ==> ts[i] == windows[i])
    {
      ts := [];
      for i := 0 to |windows|
        invariant ts == LiveWindows(windows, exited)[..i]
      {
        ts := ts + [if exited[i] then Desktop.NO_WINDOW else windows[i]];
      }
    }

    /** The swap callback: its choice, the reassignment, and what it publishes. */
    method OnSwap() returns (answer: Broadcaster.SwapAnswer)
      requires Valid()
      modifies assignment
      ensures Valid() && answer == AnswerOf(assignment.slotOf, exited, windows)
      ensures MasterOf(old(assignment.slotOf)) < |exited|
      ensures assignment.slotOf == Pressed(old(assignment.slotOf), exited)
      ensures answer.master == NextMaster(exited, MasterOf(old(assignment.slotOf))) < |exited|
      ensures answer.front == windows[answer.master] && |answer.targets| == |windows|
      ensures forall i | 0 <= i < |windows| :: answer.targets[i] == if exited[i] then 0 else windows[i]
    {
      var next := Rotate();
      var ts := Targets();
      answer := Broadcaster.SwapAnswer(ts, next, windows[next]);
    }

    method Rotate() returns (next: nat)
      requires Valid()
      modifies assignment
      ensures Valid() && next < |exited|
      ensures MasterOf(old(assignment.slotOf)) < |exited|
      ensures assignment.slotOf == Pressed(old(assignment.slotOf), exited)
      ensures MasterOf(assignment.slotOf) == next == NextMaster(exited, MasterOf(old(assignment.slotOf)))
    {
      MasterIsMaskBit();
      var n := |exited|;
      var m := assignment.Find(0);
      next := m;
      var i := 1;
      while i <= n
        invariant Valid() && assignment.slotOf == old(assignment.slotOf) && 1 <= i <= n + 1 && next == m
        invariant NextMaster(exited, m) == Probe(exited, m, i)
      {
        var master := assignment.Find(0);
        var c := (master + i) % n;
        if !exited[c] {
          next := c;
          break;
        }
        i := i + 1;
      }
      SetMasterEffect(assignment.slotOf, next);
      assignment.SetMaster(next);
    }

    /** The watchdog's bookkeeping. */
    method MarkExited(gone: seq<bool>) returns (changed: bool)
      requires Valid() && |gone| == |exited|
      modifies this`exited
      ensures Valid() && |exited| == |old(exited)|
      ensures forall i | 0 <= i < |exited| :: exited[i] <==> old(exited)[i] || gone[i]
      ensures changed <==> exited != old(exited)
    {
      changed := false;
      for i := 0 to |exited|
        invariant |exited| == |old(exited)|
        invariant forall j | 0 <= j < i :: exited[j] <==> old(exited)[j] || gone[j]
        invariant forall j | i <= j < |exited| :: exited[j] == old(exited)[j]
        invariant changed <==> exists j :: 0 <= j < i && exited[j] != old(exited)[j]
      {
        if !exited[i] && gone[i] {
          exited := exited[i := true];
          changed := true;
        }
      }
    }
  }

  lemma {:induction false} ProbeInRange(exited: seq<bool>, m: nat, i: nat)
    requires m < |exited| && 1 <= i <= |exited| + 1
    ensures Probe(exited, m, i) < |exited|
    decreases |exited| + 1 - i
  {
    if i <= |exited| && !LiveAt(exited, m, i) {
      ProbeInRange(exited, m, i + 1);
    }
  }

  // ---- The live instances in rotation order

  /** Offsets below k from `m` at which a live instance sits. */
  function LiveOffsets(exited: seq<bool>, m: nat, k: nat): seq<nat>
    requires m < |exited| && k <= |exited|
  {
    if k == 0 then []
    else LiveOffsets(exited, m, k - 1) + if LiveAt(exited, m, k - 1) then [k - 1] else []
  }

  ghost predicate Increasing(o: seq<nat>) {
    forall i, j | 0 <= i < j < |o| :: o[i] < o[j]
  }

  lemma {:induction false} LiveOffsetsFacts(exited: seq<bool>, m: nat, k: nat)
    requires m < |exited| && k <= |exited|
    ensures Increasing(LiveOffsets(exited, m, k))
    ensures forall d | d in LiveOffsets(exited, m, k) :: d < k && LiveAt(exited, m, d)
    ensures forall d: nat | d < k && LiveAt(exited, m, d) :: d in LiveOffsets(exited, m, k)
  {
    if k > 0 {
      LiveOffsetsFacts(exited, m, k - 1);
      var before := LiveOffsets(exited, m, k - 1);
      assert forall j | 0 <= j < |before| :: before[j] in before;
    }
  }

  /** The live instances, starting with `m`, in the order the rotation visits them. */
  function Ring(exited: seq<bool>, m: nat): seq<nat>
    requires m < |exited|
  {
    var o := LiveOffsets(exited, m, |exited|);
    seq(|o|, j requires 0 <= j < |o| => Around(|exited|, m, o[j]))
  }

  lemma OffsetInjective(n: nat, m: nat, c: nat, d: nat)
    requires c < n && d < n && Around(n, m, c) == Around(n, m, d)
    ensures c == d
  {
    SameRemainder(n, m + c, m + d);
  }

  /** The offset at which instance x is met, going round from m. */
  lemma OffsetOf(n: nat, m: nat, x: nat) returns (d: nat)
    requires m < n && x < n
    ensures d < n && Around(n, m, d) == x
  {
    d := if x >= m then x - m else x + n - m;
    DivMod(m + d, n, if x >= m then 0 else 1, x);
  }

  lemma RingDistinct(exited: seq<bool>, m: nat)
    requires m < |exited|
    ensures Distinct(Ring(exited, m))
    ensures forall j | 0 <= j < |Ring(exited, m)| :: Ring(exited, m)[j] < |exited| && !exited[Ring(exited, m)[j]]
  {
    var n, o, a := |exited|, LiveOffsets(exited, m, |exited|), Ring(exited, m);
    LiveOffsetsFacts(exited, m, n);
    assert forall j | 0 <= j < |o| :: o[j] in o;
    forall i, j | 0 <= i < j < |a| ensures a[i] != a[j] {
      if a[i] == a[j] {
        OffsetInjective(n, m, o[i], o[j]);
      }
    }
    forall j | 0 <= j < |a| ensures a[j] < n && !exited[a[j]] {
      assert LiveAt(exited, m, o[j]);
    }
  }

  lemma RingHolds(exited: seq<bool>, m: nat, x: nat)
    requires m < |exited| && x < |exited| && !exited[x]
    ensures x in Ring(exited, m)
  {
    var o := LiveOffsets(exited, m, |exited|);
    LiveOffsetsFacts(exited, m, |exited|);
    var d := OffsetOf(|exited|, m, x);
    assert LiveAt(exited, m, d);
    var j :| 0 <= j < |o| && o[j] == d;
    assert Ring(exited, m)[j] == x;
  }

  lemma RingStart(exited: seq<bool>, m: nat)
    requires m < |exited| && !exited[m]
    ensures |Ring(exited, m)| >= 1 && LiveOffsets(exited, m, |exited|)[0] == 0 && Ring(exited, m)[0] == m
  {
    var o := LiveOffsets(exited, m, |exited|);
    LiveOffsetsFacts(exited, m, |exited|);
    DivMod(m, |exited|, 0, m);
    assert LiveAt(exited, m, 0);
    var j :| 0 <= j < |o| && o[j] == 0;
    FirstIsLeast(o, j);
  }

  lemma FirstIsLeast(o: seq<nat>, j: nat)
    requires Increasing(o) && j < |o|
    ensures o[0] <= o[j] && (o[0] == o[j] ==> j == 0)
  {
  }

  lemma NothingBetween(o: seq<nat>, j: nat, v: nat)
    requires Increasing(o) && j < |o| && o[j] < v && (j + 1 < |o| ==> v < o[j + 1])
    ensures v !in o
  {
    forall i | 0 <= i < |o| ensures o[i] != v {
      if i > j + 1 {
        assert o[j + 1] < o[i];
      } else if i < j {
        assert o[i] < o[j];
      }
    }
  }

  /** The ring starts at a live m and holds every live instance exactly once. */
  lemma RingFacts(exited: seq<bool>, m: nat)
    requires m < |exited| && !exited[m]
    ensures |Ring(exited, m)| >= 1 && Ring(exited, m)[0] == m && Distinct(Ring(exited, m))
    ensures forall x: nat :: x in Ring(exited, m) <==> x < |exited| && !exited[x]
  {
    RingStart(exited, m);
    RingDistinct(exited, m);
    forall x: nat | x < |exited| && !exited[x] ensures x in Ring(exited, m) {
      RingHolds(exited, m, x);
    }
  }

  lemma {:induction false} ProbeSkips(exited: seq<bool>, m: nat, i: nat, j: nat)
    requires m < |exited| && 1 <= i <= j <= |exited|
    requires (forall c: nat | i <= c < j :: !LiveAt(exited, m, c)) && LiveAt(exited, m, j)
    ensures Probe(exited, m, i) == Around(|exited|, m, j)
    decreases j - i
  {
    if i < j {
      ProbeSkips(exited, m, i + 1, j);
    }
  }

  lemma ShiftOffset(n: nat, m: nat, o: nat, c: nat)
    requires 0 < n
    ensures Around(n, Around(n, m, o), c) == Around(n, m, o + c)
  {
    var q := (m + o) / n;
    Quotient(m + o, n);
    var r := (m + o) % n + c;
    Quotient(r, n);
    assert m + (o + c) == n * q + r;
    assert n * (q + r / n) == n * q + n * (r / n);
    DivMod(m + (o + c), n, q + r / n, r % n);
  }

  /** The rotation goes from each live instance to the next one on the ring, and from the last to the first. */
  lemma NextOnRing(exited: seq<bool>, m: nat, j: nat)
    requires m < |exited| && !exited[m] && j < |Ring(exited, m)|
    ensures
      var a := Ring(exited, m);
      a[j] < |exited| && NextMaster(exited, a[j]) == if j + 1 < |a| then a[j + 1] else a[0]
  {
    var n, o, a := |exited|, LiveOffsets(exited, m, |exited|), Ring(exited, m);
    LiveOffsetsFacts(exited, m, n);
    RingStart(exited, m);
    assert forall i | 0 <= i < |o| :: o[i] in o;
    if j + 1 == |a| {
      DivMod(m + n, n, 1, m);
      GapIsDead(exited, m, o, j, n);
    } else {
      GapIsDead(exited, m, o, j, o[j + 1]);
    }
  }

  /** Between two consecutive live offsets there is nothing for the probe to stop at. */
  lemma GapIsDead(exited: seq<bool>, m: nat, o: seq<nat>, j: nat, end: nat)
    requires m < |exited| && o == LiveOffsets(exited, m, |exited|) && j < |o| && o[j] < end <= |exited|
    requires if j + 1 < |o| then end == o[j + 1] else end == |exited|
    requires LiveAt(exited, m, end)
    ensures NextMaster(exited, Around(|exited|, m, o[j])) == Around(|exited|, m, end)
  {
    var n, x, goal := |exited|, Around(|exited|, m, o[j]), end - o[j];
    LiveOffsetsFacts(exited, m, n);
    forall c: nat | 1 <= c < goal ensures !LiveAt(exited, x, c) {
      ShiftOffset(n, m, o[j], c);
      NothingBetween(o, j, o[j] + c);
    }
    ShiftOffset(n, m, o[j], goal);
    ProbeSkips(exited, x, 1, goal);
  }

  /** While anybody is alive, the next master is alive. */
  lemma LiveNext(exited: seq<bool>, m: nat, x: nat)
    requires m < |exited| && x < |exited| && !exited[x]
    ensures NextMaster(exited, m) < |exited| && !exited[NextMaster(exited, m)]
  {
    var d := OffsetOf(|exited|, m, x);
    var i := if d == 0 then |exited| else d;
    DivMod(m + |exited|, |exited|, 1, m);
    DivMod(m, |exited|, 0, m);
    ProbeFinds(exited, m, 1, i);
  }

  lemma {:induction false} ProbeFinds(exited: seq<bool>, m: nat, i: nat, j: nat)
    requires m < |exited| && 1 <= i <= j <= |exited| && LiveAt(exited, m, j)
    ensures Probe(exited, m, i) < |exited| && !exited[Probe(exited, m, i)]
    decreases j - i
  {
    if i < j && !LiveAt(exited, m, i) {
      ProbeFinds(exited, m, i + 1, j);
    }
  }

  // ---- Repeated presses of the swap key

  /** Whom each instance hands over to. */
  function Successors(exited: seq<bool>): seq<nat> {
    seq(|exited|, m requires 0 <= m < |exited| => NextMaster(exited, m))
  }

  lemma SuccessorsAreTable(s: seq<nat>, exited: seq<bool>)
    requires Permutation(s) && 1 <= |s| == |exited|
    ensures Table(s, Successors(exited)) && MasterOf(s) < |s|
    ensures Pressed(s, exited) == PressedBy(s, Successors(exited))
  {
    InstanceAtInverts(s);
    forall m: nat | m < |s| ensures Successors(exited)[m] < |s| {
      ProbeInRange(exited, m, 1);
    }
  }

  /** The assignment after k presses, nobody exiting meanwhile. */
  function Presses(s: seq<nat>, exited: seq<bool>, k: nat): seq<nat> {
    PressesBy(s, Successors(exited), k)
  }

  /** Each press counted is the press of the swap callback. */
  lemma PressesArePressed(s: seq<nat>, exited: seq<bool>, k: nat)
    requires Permutation(s) && 1 <= |s| == |exited|
    ensures Presses(s, exited, 0) == s
    ensures
      var t := Presses(s, exited, k);
      && Permutation(t) && |t| == |s| && MasterOf(t) < |s|
      && Presses(s, exited, k + 1) == Pressed(t, exited)
  {
    SuccessorsAreTable(s, exited);
    PressesKeepTable(s, Successors(exited), k);
    SuccessorsAreTable(Presses(s, exited, k), exited);
  }

  /** With a live master the live instances form one cycle of successors. */
  lemma LiveCycle(s: seq<nat>, exited: seq<bool>)
    requires Permutation(s) && 1 <= |s| == |exited| && MasterOf(s) < |s| && !exited[MasterOf(s)]
    ensures Cycle(s, Successors(exited), Ring(exited, MasterOf(s)))
  {
    var m := MasterOf(s);
    SuccessorsAreTable(s, exited);
    RingFacts(exited, m);
    RingDistinct(exited, m);
    forall j: nat | j < |Ring(exited, m)| ensures Follows(Successors(exited), Ring(exited, m), j) {
      NextOnRing(exited, m, j);
    }
    Closed(s, Successors(exited), Ring(exited, m));
  }

  ghost predicate Follows(succ: seq<nat>, a: seq<nat>, j: nat)
    requires j < |a|
  {
    a[j] < |succ| && succ[a[j]] == if j + 1 < |a| then a[j + 1] else a[0]
  }

  lemma Closed(s: seq<nat>, succ: seq<nat>, a: seq<nat>)
    requires Table(s, succ) && a != [] && Distinct(a) && Within(a, |s|) && a[0] == MasterOf(s)
    requires forall j: nat | j < |a| :: Follows(succ, a, j)
    ensures Cycle(s, succ, a)
  {
    assert Follows(succ, a, |a| - 1);
    forall j: nat | j + 1 < |a| ensures succ[a[j]] == a[j + 1] {
      assert Follows(succ, a, j);
    }
  }

  /**
   * A round of L presses, L >= 2 live instances: press k makes the k-th live instance master, so each is master
   * exactly once; then the first master is back, the other live slots have moved on by one, and nobody dead moved.
   */
  lemma RoundOfSwaps(s: seq<nat>, exited: seq<bool>)
    requires Permutation(s) && 1 <= |s| == |exited| && MasterOf(s) < |s| && !exited[MasterOf(s)]
    requires |Ring(exited, MasterOf(s))| >= 2
    ensures
      var a := Ring(exited, MasterOf(s));
      && Distinct(a) && (forall x: nat :: x in a <==> x < |s| && !exited[x])
      && (forall k: nat | k < |a| :: MasterOf(Presses(s, exited, k)) == a[k])
      && MasterOf(Presses(s, exited, |a|)) == MasterOf(s)
    ensures
      var a, t := Ring(exited, MasterOf(s)), Presses(s, exited, |Ring(exited, MasterOf(s))|);
      && |t| == |s| && t[a[0]] == 0
      && (forall j: nat | 1 <= j < |a| :: t[a[j]] == s[a[if j + 1 < |a| then j + 1 else 1]])
      && forall x: nat | x < |s| && exited[x] :: t[x] == s[x]
  {
    var a, succ := Ring(exited, MasterOf(s)), Successors(exited);
    LiveCycle(s, exited);
    RingFacts(exited, MasterOf(s));
    FullRound(s, succ, a);
    InstanceAtInverts(s);
    forall k: nat | k < |a| ensures MasterOf(Presses(s, exited, k)) == a[k] {
      RotationUnderway(s, succ, a, k);
    }
    forall j: nat | j < |a| ensures Source(|a|, j, 1) == if j == 0 then 0 else if j + 1 < |a| then j + 1 else 1 {
      SourceOnce(|a|, j);
    }
  }

  /** L * (L - 1) presses put everybody back in the slot they started from. */
  lemma SwapsRestoreTheAssignment(s: seq<nat>, exited: seq<bool>)
    requires Permutation(s) && 1 <= |s| == |exited| && MasterOf(s) < |s| && !exited[MasterOf(s)]
    requires |Ring(exited, MasterOf(s))| >= 2
    ensures var l := |Ring(exited, MasterOf(s))|; Presses(s, exited, l * (l - 1)) == s
  {
    LiveCycle(s, exited);
    RotationRestoresEverything(s, Successors(exited), Ring(exited, MasterOf(s)));
  }

  /** Dead instances never move while a live one is master, however often the key is pressed; masters stay live. */
  lemma {:induction false} DeadStayPut(s: seq<nat>, exited: seq<bool>, k: nat, x: nat)
    requires Permutation(s) && 1 <= |s| == |exited| && MasterOf(s) < |s| && !exited[MasterOf(s)]
    requires x < |s| && exited[x]
    ensures
      var t := Presses(s, exited, k);
      |t| == |s| && t[x] == s[x] && MasterOf(t) < |s| && !exited[MasterOf(t)]
  {
    PressesArePressed(s, exited, 0);
    if k > 0 {
      DeadStayPut(s, exited, k - 1, x);
      PressesArePressed(s, exited, k - 1);
      LivePress(Presses(s, exited, k - 1), exited, x);
    }
  }

  lemma LivePress(t: seq<nat>, exited: seq<bool>, x: nat)
    requires Permutation(t) && 1 <= |t| == |exited| && MasterOf(t) < |t| && !exited[MasterOf(t)]
    requires x < |t| && exited[x]
    ensures var u := Pressed(t, exited); |u| == |t| && u[x] == t[x] && MasterOf(u) < |t| && !exited[MasterOf(u)]
  {
    LiveNext(exited, MasterOf(t), MasterOf(t));
    SetMasterEffect(t, NextMaster(exited, MasterOf(t)));
  }

  /** One press retires a dead master: a live instance takes over, they trade slots, nobody else moves. */
  lemma DeadMasterYields(s: seq<nat>, exited: seq<bool>, x: nat)
    requires Permutation(s) && 1 <= |s| == |exited| && x < |s| && !exited[x]
    ensures MasterOf(s) < |s| && MasterOf(Pressed(s, exited)) < |s|
    ensures !exited[MasterOf(Pressed(s, exited))]
    ensures exited[MasterOf(s)] ==>
              var now := Pressed(s, exited);
              && |now| == |s| && now[MasterOf(s)] == s[MasterOf(now)]
              && forall y | 0 <= y < |s| && y != MasterOf(s) && y != MasterOf(now) :: now[y] == s[y]
  {
    InstanceAtInverts(s);
    LiveNext(exited, MasterOf(s), x);
    SetMasterEffect(s, NextMaster(exited, MasterOf(s)));
  }
}
