/** The routing table: which captured keys go to which instances, and how. */
module Routing {
  import opened InputEvents
  import opened KeyStates
  import opened Sequences

  datatype Strategy = FocusCycle | WindowMessage

  const MAX_TARGETS := 32

  /** A 32-bit target mask as the set of its one bits: bit i stands for instance i. */
  type TargetMask = bits: set<nat> | forall i | i in bits :: i < MAX_TARGETS

  const NO_TARGETS: TargetMask := {}

  // ---- Routes

  datatype KeyBinding = KeyBinding(vk: nat, targets: TargetMask, strategy: Strategy, swallow: bool)

  /** A published table, as a value: it is never changed after publication. */
  datatype RoutesView = RoutesView(
    bindings: map<nat, KeyBinding>,
    mouseTargets: TargetMask, mouseModifierVk: nat, mouseStrategy: Strategy,
    swapHotkeyVk: nat)
  {
    function Find(vk: nat): Option<KeyBinding> {
      if vk in bindings then Some(bindings[vk]) else None
    }

    predicate Swallows(vk: nat) {
      (vk == swapHotkeyVk && vk != 0) || (vk in bindings && bindings[vk].swallow)
    }
  }

  function Bind(bindings: map<nat, KeyBinding>, b: KeyBinding): map<nat, KeyBinding> {
    if b.vk < KEYS then bindings[b.vk := b] else bindings
  }

  function BindAll(bs: seq<KeyBinding>): map<nat, KeyBinding> {
    if bs == [] then map[] else Bind(BindAll(bs[..|bs| - 1]), bs[|bs| - 1])
  }

  /** A key's binding is the last one added for it. */
  lemma {:induction false} LatestBindingWins(bs: seq<KeyBinding>, k: nat)
    requires k < |bs| && bs[k].vk < KEYS && forall j | k < j < |bs| :: bs[j].vk != bs[k].vk
    ensures bs[k].vk in BindAll(bs) && BindAll(bs)[bs[k].vk] == bs[k]
  {
    if k < |bs| - 1 {
      LatestBindingWins(bs[..|bs| - 1], k);
    }
  }

  // ---- The index table over the entries

  /** Each key's cell holds the position of its one entry, or is negative when it has none. */
  ghost predicate Indexed(keys: seq<KeyBinding>, cells: seq<int>) {
    && |cells| == KEYS
    && (forall vk | 0 <= vk < KEYS :: -1 <= cells[vk] < |keys|)
    && (forall vk | 0 <= vk < KEYS && cells[vk] >= 0 :: keys[cells[vk]].vk == vk)
    && (forall j | 0 <= j < |keys| :: keys[j].vk < KEYS && cells[keys[j].vk] == j)
  }

  function Looked(keys: seq<KeyBinding>, cells: seq<int>): map<nat, KeyBinding>
    requires Indexed(keys, cells)
  {
    map vk: nat | vk < KEYS && cells[vk] >= 0 :: keys[cells[vk]]
  }

  lemma OneEntryPerKey(keys: seq<KeyBinding>, cells: seq<int>)
    requires Indexed(keys, cells)
    ensures |keys| <= KEYS
  {
    var vks := seq(|keys|, j requires 0 <= j < |keys| => keys[j].vk);
    assert forall i, j | 0 <= i < j < |keys| :: cells[keys[i].vk] != cells[keys[j].vk];
    Pigeonhole(vks, KEYS);
  }

  lemma Overwritten(keys: seq<KeyBinding>, cells: seq<int>, b: KeyBinding)
    requires Indexed(keys, cells) && b.vk < KEYS && cells[b.vk] >= 0
    ensures Indexed(keys[cells[b.vk] := b], cells)
    ensures Looked(keys[cells[b.vk] := b], cells) == Looked(keys, cells)[b.vk := b]
  {
  }

  lemma Appended(keys: seq<KeyBinding>, cells: seq<int>, b: KeyBinding)
    requires Indexed(keys, cells) && b.vk < KEYS && cells[b.vk] < 0
    ensures Indexed(keys + [b], cells[b.vk := |keys|])
    ensures Looked(keys + [b], cells[b.vk := |keys|]) == Looked(keys, cells)[b.vk := b]
  {
  }

  class Routes {
    var keys: seq<KeyBinding>
    const index: array<int>
    var mouseTargets: TargetMask
    var mouseModifierVk: nat
    var mouseStrategy: Strategy
    var swapHotkeyVk: nat

    ghost predicate Valid()
      reads this, index
    {
      Indexed(keys, index[..])
    }

    function View(): RoutesView
      requires Valid()
      reads this, index
    {
      RoutesView(Looked(keys, index[..]), mouseTargets, mouseModifierVk, mouseStrategy, swapHotkeyVk)
    }

    constructor ()
      ensures Valid() && fresh(index)
      ensures keys == [] && View() == RoutesView(map[], NO_TARGETS, 0, FocusCycle, 0)
    {
      keys := [];
      index := new int[KEYS](_ => -1);
      mouseTargets, mouseModifierVk, mouseStrategy, swapHotkeyVk := NO_TARGETS, 0, FocusCycle, 0;
    }

    /** Every position fits the table's 16-bit cells. */
    lemma EntriesFitIndex()
      requires Valid()
      ensures |keys| <= KEYS
    {
      OneEntryPerKey(keys, index[..]);
    }

    method AddKey(b: KeyBinding)
      requires Valid()
      modifies this`keys, index
      ensures Valid()
      ensures View() == old(View()).(bindings := Bind(old(View()).bindings, b))
      ensures |keys| == |old(keys)| + if b.vk < KEYS && b.vk !in old(View()).bindings then 1 else 0
    {
      if b.vk < index.Length {
        ghost var cells := index[..];
        if index[b.vk] >= 0 {
          Overwritten(keys, cells, b);
          keys := keys[index[b.vk] := b];
          assert index[..] == cells;
        } else {
          Appended(keys, cells, b);
          index[b.vk] := |keys|;
          keys := keys + [b];
          assert index[..] == cells[b.vk := |old(keys)|];
        }
      }
    }

    method Find(vk: nat) returns (b: Option<KeyBinding>)
      requires Valid()
      ensures b == View().Find(vk)
      ensures b.Some? ==> b.value in keys && b.value.vk == vk
      ensures b.None? ==> forall j | 0 <= j < |keys| :: keys[j].vk != vk
    {
      if vk >= index.Length || index[vk] < 0 {
        return None;
      }
      return Some(keys[index[vk]]);
    }

    method Swallows(vk: nat) returns (yes: bool)
      requires Valid()
      ensures yes <==> View().Swallows(vk)
      ensures yes <==> (vk != 0 && vk == swapHotkeyVk) || exists j | 0 <= j < |keys| :: keys[j].vk == vk && keys[j].swallow
    {
      if vk == swapHotkeyVk && vk != 0 {
        return true;
      }
      var b := Find(vk);
      return b.Some? && b.value.swallow;
    }
  }
}
