/** What repeated presses of the swap key do, for any choice of each master's successor. */
module Rotation {
  import opened Arithmetic
  import opened Assignments
  import opened Sequences

  ghost predicate Within(a: seq<nat>, n: nat) {
    forall j | 0 <= j < |a| :: a[j] < n
  }

  /** One press: the master hands over to its successor, and they trade slots. */
  function PressedBy(slots: seq<nat>, succ: seq<nat>): seq<nat> {
    if MasterOf(slots) < |succ| then WithMaster(slots, succ[MasterOf(slots)]) else slots
  }

  ghost predicate Table(slots: seq<nat>, succ: seq<nat>) {
    Permutation(slots) && 1 <= |slots| == |succ| && Within(succ, |slots|)
  }

  lemma PressEffect(slots: seq<nat>, succ: seq<nat>)
    requires Table(slots, succ)
    ensures MasterOf(slots) < |slots| && Table(PressedBy(slots, succ), succ)
    ensures
      var m, now := MasterOf(slots), PressedBy(slots, succ);
      && MasterOf(now) == succ[m] && now[succ[m]] == 0 && now[m] == slots[succ[m]]
      && forall x | 0 <= x < |slots| && x != m && x != succ[m] :: now[x] == slots[x]
  {
    InstanceAtInverts(slots);
    SetMasterEffect(slots, succ[MasterOf(slots)]);
  }

  /** f applied k times. */
  function Iterate<T>(f: T -> T, x: T, k: nat): T {
    if k == 0 then x else f(Iterate(f, x, k - 1))
  }

  lemma {:induction false} IterateAdd<T>(f: T -> T, x: T, i: nat, k: nat)
    ensures Iterate(f, x, i + k) == Iterate(f, Iterate(f, x, i), k)
  {
    if k > 0 {
      IterateAdd(f, x, i, k - 1);
    }
  }

  /** r rounds of l applications each. */
  function IterateRounds<T>(f: T -> T, x: T, l: nat, r: nat): T {
    if r == 0 then x else Iterate(f, IterateRounds(f, x, l, r - 1), l)
  }

  lemma {:induction false} RoundsAreIterations<T>(f: T -> T, x: T, l: nat, r: nat)
    ensures IterateRounds(f, x, l, r) == Iterate(f, x, l * r)
  {
    if r > 0 {
      RoundsAreIterations(f, x, l, r - 1);
      assert l * r == l * (r - 1) + l;
      IterateAdd(f, x, l * (r - 1), l);
    }
  }

  /** The press as an operation on assignments. */
  function Press(succ: seq<nat>): seq<nat> -> seq<nat> {
    (slots: seq<nat>) => PressedBy(slots, succ)
  }

  /** The assignment after k presses. */
  function PressesBy(slots: seq<nat>, succ: seq<nat>, k: nat): seq<nat> {
    Iterate(Press(succ), slots, k)
  }

  lemma {:induction false} PressesKeepTable(slots: seq<nat>, succ: seq<nat>, k: nat)
    requires Table(slots, succ)
    ensures Table(PressesBy(slots, succ, k), succ)
  {
    if k > 0 {
      PressesKeepTable(slots, succ, k - 1);
      PressEffect(PressesBy(slots, succ, k - 1), succ);
    }
  }

  /** `a` starts with the master and follows the successors round, back to the start. */
  ghost predicate Cycle(s: seq<nat>, succ: seq<nat>, a: seq<nat>) {
    && Table(s, succ) && a != [] && Distinct(a) && Within(a, |s|)
    && a[0] == MasterOf(s)
    && (forall j: nat {:trigger succ[a[j]]} | j + 1 < |a| :: succ[a[j]] == a[j + 1])
    && succ[a[|a| - 1]] == a[0]
  }

  /** After k < L presses along ring a: the masters so far each hold their successor's old slot. */
  ghost predicate Underway(s: seq<nat>, t: seq<nat>, a: seq<nat>, k: nat)
    requires k < |a| && Within(a, |s|)
  {
    && |t| == |s|
    && t[a[k]] == 0
    && (forall j | 0 <= j < k :: t[a[j]] == s[a[j + 1]])
    && (forall j | k < j < |a| :: t[a[j]] == s[a[j]])
    && (forall x | 0 <= x < |s| && x !in a :: t[x] == s[x])
  }

  /** The position on the ring whose old slot a[j] holds after r full rounds: the master stays, the others shift. */
  function Source(l: nat, j: nat, r: nat): (i: nat)
    requires l >= 2
    ensures i < l
  {
    if j == 0 then 0 else 1 + (j - 1 + r) % (l - 1)
  }

  ghost predicate Shifted(s: seq<nat>, t: seq<nat>, a: seq<nat>, r: nat)
    requires |a| >= 2 && Within(a, |s|)
  {
    && |t| == |s|
    && (forall j: nat {:trigger t[a[j]]} | j < |a| :: t[a[j]] == s[a[Source(|a|, j, r)]])
    && (forall x | 0 <= x < |s| && x !in a :: t[x] == s[x])
  }

  lemma {:induction false} RotationUnderway(s: seq<nat>, succ: seq<nat>, a: seq<nat>, k: nat)
    requires Cycle(s, succ, a) && k < |a|
    ensures Underway(s, PressesBy(s, succ, k), a, k) && MasterOf(PressesBy(s, succ, k)) == a[k]
  {
    if k == 0 {
      InstanceAtInverts(s);
    } else {
      RotationUnderway(s, succ, a, k - 1);
      PressesKeepTable(s, succ, k - 1);
      NextUnderway(s, PressesBy(s, succ, k - 1), PressesBy(s, succ, k), succ, a, k);
    }
  }

  lemma NextUnderway(s: seq<nat>, t: seq<nat>, u: seq<nat>, succ: seq<nat>, a: seq<nat>, k: nat)
    requires Cycle(s, succ, a) && 0 < k < |a| && Table(t, succ) && u == PressedBy(t, succ)
    requires Underway(s, t, a, k - 1) && MasterOf(t) == a[k - 1]
    ensures Underway(s, u, a, k) && MasterOf(u) == a[k]
  {
    PressEffect(t, succ);
    assert succ[a[k - 1]] == a[k];
  }

  lemma SourceOnce(l: nat, j: nat)
    requires l >= 2 && j < l
    ensures Source(l, j, 1) == if j == 0 then 0 else if j + 1 < l then j + 1 else 1
  {
    if j > 0 {
      if j + 1 < l {
        DivMod(j, l - 1, 0, j);
      } else {
        DivMod(j, l - 1, 1, 0);
      }
    }
  }

  /** The last press of a round hands the slot of a[1] to a[L - 1] and the master slot back to a[0]. */
  lemma LastPress(s: seq<nat>, t: seq<nat>, u: seq<nat>, a: seq<nat>)
    requires |a| >= 2 && Within(a, |s|) && Distinct(a) && s[a[0]] == 0 && Underway(s, t, a, |a| - 1) && |u| == |s|
    requires u[a[0]] == 0 && u[a[|a| - 1]] == t[a[0]]
    requires forall x | 0 <= x < |s| && x != a[0] && x != a[|a| - 1] :: u[x] == t[x]
    ensures Shifted(s, u, a, 1)
  {
    forall j: nat | j < |a| ensures u[a[j]] == s[a[Source(|a|, j, 1)]] {
      SourceOnce(|a|, j);
    }
  }

  /** One full round brings the original master back and passes the other live slots on by one place. */
  lemma FullRound(s: seq<nat>, succ: seq<nat>, a: seq<nat>)
    requires Cycle(s, succ, a) && |a| >= 2
    ensures Cycle(PressesBy(s, succ, |a|), succ, a) && Shifted(s, PressesBy(s, succ, |a|), a, 1)
  {
    InstanceAtInverts(s);
    RotationUnderway(s, succ, a, |a| - 1);
    PressesKeepTable(s, succ, |a| - 1);
    var before := PressesBy(s, succ, |a| - 1);
    PressEffect(before, succ);
    LastPress(s, before, PressesBy(s, succ, |a|), a);
  }

  lemma SourceCompose(l: nat, j: nat, r: nat)
    requires l >= 2 && j < l
    ensures Source(l, j, 1) < l
    ensures Source(l, Source(l, j, 1), r) == Source(l, j, r + 1)
  {
    if j > 0 {
      var m := l - 1;
      var d := j % m;
      Quotient(j, m);
      Quotient(d + r, m);
      assert m * (j / m + (d + r) / m) == m * (j / m) + m * ((d + r) / m);
      DivMod(j + r, m, j / m + (d + r) / m, (d + r) % m);
    }
  }

  lemma ShiftsCompose(s: seq<nat>, t: seq<nat>, u: seq<nat>, a: seq<nat>, r: nat)
    requires |a| >= 2 && Within(a, |s|) && Shifted(s, t, a, r) && Shifted(t, u, a, 1)
    ensures Shifted(s, u, a, r + 1)
  {
    forall j: nat | j < |a| ensures u[a[j]] == s[a[Source(|a|, j, r + 1)]] {
      SourceCompose(|a|, j, r);
    }
  }

  lemma NoShift(l: nat, j: nat)
    requires l >= 2 && j < l
    ensures Source(l, j, 0) == j && Source(l, j, l - 1) == j
  {
    if j > 0 {
      DivMod(j - 1, l - 1, 0, j - 1);
      DivMod(j - 1 + (l - 1), l - 1, 1, j - 1);
    }
  }

  lemma NoRounds(s: seq<nat>, a: seq<nat>)
    requires |a| >= 2 && Within(a, |s|)
    ensures Shifted(s, s, a, 0)
  {
    forall j: nat | j < |a| ensures Source(|a|, j, 0) == j {
      NoShift(|a|, j);
    }
  }

  /** A full round on top of a state already shifted by r. */
  lemma RoundMore(s: seq<nat>, t: seq<nat>, u: seq<nat>, succ: seq<nat>, a: seq<nat>, r: nat)
    requires |a| >= 2 && Within(a, |s|) && Shifted(s, t, a, r) && Cycle(t, succ, a) && u == PressesBy(t, succ, |a|)
    ensures Shifted(s, u, a, r + 1) && Cycle(u, succ, a)
  {
    FullRound(t, succ, a);
    ShiftsCompose(s, t, u, a, r);
  }

  lemma {:induction false} Rounds(s: seq<nat>, succ: seq<nat>, a: seq<nat>, r: nat)
    requires |a| >= 2 && Within(a, |s|) && Cycle(s, succ, a)
    ensures Cycle(IterateRounds(Press(succ), s, |a|, r), succ, a)
    ensures Shifted(s, IterateRounds(Press(succ), s, |a|, r), a, r)
  {
    if r == 0 {
      NoRounds(s, a);
    } else {
      Rounds(s, succ, a, r - 1);
      RoundMore(s, IterateRounds(Press(succ), s, |a|, r - 1), IterateRounds(Press(succ), s, |a|, r), succ, a, r - 1);
    }
  }

  lemma ShiftedHomeAt(s: seq<nat>, t: seq<nat>, a: seq<nat>, j: nat)
    requires |a| >= 2 && Within(a, |s|) && Shifted(s, t, a, |a| - 1) && j < |a|
    ensures t[a[j]] == s[a[j]]
  {
    NoShift(|a|, j);
  }

  lemma ShiftedHome(s: seq<nat>, t: seq<nat>, a: seq<nat>)
    requires |a| >= 2 && Within(a, |s|) && Shifted(s, t, a, |a| - 1)
    ensures t == s
  {
    forall x | 0 <= x < |s| ensures t[x] == s[x] {
      if j: nat :| j < |a| && a[j] == x {
        ShiftedHomeAt(s, t, a, j);
      } else {
        assert x !in a;
      }
    }
  }

  /** A ring of L instances: L * (L - 1) presses of the swap key restore the whole assignment. */
  lemma RotationRestoresEverything(s: seq<nat>, succ: seq<nat>, a: seq<nat>)
    requires Cycle(s, succ, a) && |a| >= 2
    ensures PressesBy(s, succ, |a| * (|a| - 1)) == s
  {
    RoundsAreIterations(Press(succ), s, |a|, |a| - 1);
    Rounds(s, succ, a, |a| - 1);
    ShiftedHome(s, IterateRounds(Press(succ), s, |a|, |a| - 1), a);
  }
}
