/** Which instance occupies which slot; slot 0 is the master's. */
module Assignments {
  import opened Sequences

  // What the search returns when no instance has the slot: the largest size_t.
  const NOT_FOUND := 0xFFFF_FFFF_FFFF_FFFF

  /** Slot numbers are a permutation of 0..n-1. */
  ghost predicate Permutation(slots: seq<nat>) {
    Distinct(slots) && forall i | 0 <= i < |slots| :: slots[i] < |slots|
  }

  function FindFrom(slots: seq<nat>, slot: nat, i: nat): nat
    requires i <= |slots|
    decreases |slots| - i
  {
    if i == |slots| then NOT_FOUND else if slots[i] == slot then i else FindFrom(slots, slot, i + 1)
  }

  function InstanceAt(slots: seq<nat>, slot: nat): nat {
    FindFrom(slots, slot, 0)
  }

  function MasterOf(slots: seq<nat>): nat {
    InstanceAt(slots, 0)
  }

  function Swapped(slots: seq<nat>, a: nat, b: nat): seq<nat> {
    if a < |slots| && b < |slots| then slots[a := slots[b]][b := slots[a]] else slots
  }

  function WithMaster(slots: seq<nat>, instance: nat): seq<nat> {
    if MasterOf(slots) != instance then Swapped(slots, MasterOf(slots), instance) else slots
  }

  function Without(slots: seq<nat>, i: nat): seq<nat>
    requires i < |slots|
  {
    slots[..i] + slots[i + 1..]
  }

  function Lowered(s: nat, freed: nat): nat {
    if s > freed then s - 1 else s
  }

  function Erased(slots: seq<nat>, instance: nat): seq<nat> {
    if instance >= |slots| then slots
    else
      var rest := Without(slots, instance);
      seq(|rest|, i requires 0 <= i < |rest| => Lowered(rest[i], slots[instance]))
  }

  // ---- Search

  lemma {:induction false} FindFromFinds(slots: seq<nat>, slot: nat, i: nat, k: nat)
    requires Distinct(slots) && i <= k < |slots| && slots[k] == slot
    ensures FindFrom(slots, slot, i) == k
    decreases k - i
  {
    if i < k {
      FindFromFinds(slots, slot, i + 1, k);
    }
  }

  /** The search inverts the assignment: every instance is found at its slot, and every slot is someone's. */
  lemma InstanceAtInverts(slots: seq<nat>)
    requires Permutation(slots)
    ensures forall i | 0 <= i < |slots| :: InstanceAt(slots, slots[i]) == i
    ensures forall slot: nat | slot < |slots| :: InstanceAt(slots, slot) < |slots| && slots[InstanceAt(slots, slot)] == slot
  {
    forall i | 0 <= i < |slots| ensures InstanceAt(slots, slots[i]) == i {
      FindFromFinds(slots, slots[i], 0, i);
    }
    forall slot: nat | slot < |slots| ensures InstanceAt(slots, slot) < |slots| && slots[InstanceAt(slots, slot)] == slot {
      FullHouse(slots, |slots|, slot);
      var k :| 0 <= k < |slots| && slots[k] == slot;
      FindFromFinds(slots, slot, 0, k);
    }
  }

  // ---- What the operations keep

  lemma SwapKeepsPermutation(slots: seq<nat>, a: nat, b: nat)
    requires Permutation(slots)
    ensures Permutation(Swapped(slots, a, b))
  {
  }

  /** Any index at all may be asked for: an existing one becomes master and trades slots, any other changes nothing. */
  lemma SetMasterEffect(slots: seq<nat>, instance: nat)
    requires Permutation(slots)
    ensures Permutation(WithMaster(slots, instance))
    ensures instance >= |slots| ==> WithMaster(slots, instance) == slots
    ensures instance < |slots| ==>
              var m, now := MasterOf(slots), WithMaster(slots, instance);
              && m < |slots| && MasterOf(now) == instance && now[instance] == 0 && now[m] == slots[instance]
              && forall x | 0 <= x < |slots| && x != m && x != instance :: now[x] == slots[x]
  {
    if instance < |slots| {
      InstanceAtInverts(slots);
      SwapKeepsPermutation(slots, MasterOf(slots), instance);
      InstanceAtInverts(WithMaster(slots, instance));
    } else {
      assert Swapped(slots, MasterOf(slots), instance) == slots;
    }
  }

  /** Where everybody left goes. */
  lemma ErasedAt(slots: seq<nat>, instance: nat, i: nat)
    requires Permutation(slots) && instance < |slots| && i < |slots| && i != instance
    ensures |Erased(slots, instance)| == |slots| - 1 && Lowered(i, instance) < |slots| - 1
    ensures Erased(slots, instance)[Lowered(i, instance)] == Lowered(slots[i], slots[instance])
    ensures slots[i] != slots[instance] && Lowered(slots[i], slots[instance]) < |slots| - 1
  {
    var rest := Without(slots, instance);
    assert rest[Lowered(i, instance)] == slots[i];
  }

  lemma EraseKeepsPair(slots: seq<nat>, instance: nat, i: nat, j: nat)
    requires Permutation(slots) && instance < |slots| && i < |slots| && j < |slots| && i != instance && j != instance
    ensures |Erased(slots, instance)| == |slots| - 1
    ensures Lowered(i, instance) < |slots| - 1 && Lowered(j, instance) < |slots| - 1
    ensures slots[i] < slots[j] <==>
              Erased(slots, instance)[Lowered(i, instance)] < Erased(slots, instance)[Lowered(j, instance)]
  {
    ErasedAt(slots, instance, i);
    ErasedAt(slots, instance, j);
  }

  /** Who is behind position k afterwards. */
  lemma ErasedFrom(slots: seq<nat>, instance: nat, k: nat)
    requires Permutation(slots) && instance < |slots| && k < |slots| - 1
    ensures |Erased(slots, instance)| == |slots| - 1 && Raised(k, instance) < |slots|
    ensures slots[Raised(k, instance)] != slots[instance]
    ensures Erased(slots, instance)[k] == Lowered(slots[Raised(k, instance)], slots[instance]) < |slots| - 1
  {
    ErasedAt(slots, instance, Raised(k, instance));
  }

  lemma ErasedApart(slots: seq<nat>, instance: nat, j: nat, k: nat)
    requires Permutation(slots) && instance < |slots| && j < k < |slots| - 1
    ensures |Erased(slots, instance)| == |slots| - 1 && Erased(slots, instance)[j] != Erased(slots, instance)[k]
  {
    ErasedFrom(slots, instance, j);
    ErasedFrom(slots, instance, k);
    assert slots[Raised(j, instance)] != slots[Raised(k, instance)];
  }

  lemma EraseKeepsPermutation(slots: seq<nat>, instance: nat)
    requires Permutation(slots) && instance < |slots|
    ensures Permutation(Erased(slots, instance)) && |Erased(slots, instance)| == |slots| - 1
  {
    var now := Erased(slots, instance);
    assert |now| == |slots| - 1;
    forall k: nat | k < |now| ensures now[k] < |now| {
      ErasedFrom(slots, instance, k);
    }
    forall j: nat, k: nat | j < k < |now| ensures now[j] != now[k] {
      ErasedApart(slots, instance, j, k);
    }
  }

  /** Erasing keeps a permutation of the smaller range and the relative slot order of everybody left. */
  lemma EraseKeepsOrder(slots: seq<nat>, instance: nat)
    requires Permutation(slots) && instance < |slots|
    ensures Permutation(Erased(slots, instance)) && |Erased(slots, instance)| == |slots| - 1
    ensures forall i, j | 0 <= i < |slots| && 0 <= j < |slots| && i != instance && j != instance ::
              slots[i] < slots[j] <==>
                Erased(slots, instance)[Lowered(i, instance)] < Erased(slots, instance)[Lowered(j, instance)]
  {
    EraseKeepsPermutation(slots, instance);
    forall i, j | 0 <= i < |slots| && 0 <= j < |slots| && i != instance && j != instance
      ensures slots[i] < slots[j] <==> Erased(slots, instance)[Lowered(i, instance)] < Erased(slots, instance)[Lowered(j, instance)]
    {
      EraseKeepsPair(slots, instance, i, j);
    }
  }

  function Raised(k: nat, instance: nat): nat {
    if k < instance then k else k + 1
  }

  // ---- The object

  class Assignment {
    var slotOf: seq<nat>

    constructor (instances: nat)
      ensures slotOf == seq(instances, i => i) && Permutation(slotOf)
    {
      slotOf := seq(instances, i => i);
    }

    method Reset(instances: nat)
      modifies this
      ensures slotOf == seq(instances, i => i) && Permutation(slotOf)
    {
      slotOf := seq(instances, i => i);
    }

    method Find(slot: nat) returns (instance: nat)
      ensures instance == InstanceAt(slotOf, slot)
      ensures if slot in slotOf then
                instance < |slotOf| && slotOf[instance] == slot && forall j | 0 <= j < instance :: slotOf[j] != slot
              else instance == 0xFFFF_FFFF_FFFF_FFFF
    {
      for i := 0 to |slotOf|
        invariant InstanceAt(slotOf, slot) == FindFrom(slotOf, slot, i)
        invariant forall j | 0 <= j < i :: slotOf[j] != slot
      {
        if slotOf[i] == slot {
          return i;
        }
      }
      return NOT_FOUND;
    }

    method Swap(a: nat, b: nat)
      requires Permutation(slotOf)
      modifies this
      ensures slotOf == Swapped(old(slotOf), a, b) && Permutation(slotOf)
    {
      SwapKeepsPermutation(slotOf, a, b);
      if a < |slotOf| && b < |slotOf| {
        slotOf := slotOf[a := slotOf[b]][b := slotOf[a]];
      }
    }

    method SetMaster(instance: nat)
      requires Permutation(slotOf)
      modifies this
      ensures slotOf == WithMaster(old(slotOf), instance) && Permutation(slotOf)
    {
      var current := Find(0);
      if current != instance {
        Swap(current, instance);
      }
    }

    method Erase(instance: nat)
      requires Permutation(slotOf)
      modifies this
      ensures slotOf == Erased(old(slotOf), instance) && Permutation(slotOf)
    {
      if instance >= |slotOf| {
        return;
      }
      EraseKeepsPermutation(slotOf, instance);
      var freed, rest := slotOf[instance], Without(slotOf, instance);
      var i := 0;
      ghost var was := rest;
      while i < |rest|
        invariant 0 <= i <= |rest| == |was|
        invariant forall j | 0 <= j < i :: rest[j] == Lowered(was[j], freed)
        invariant forall j | i <= j < |rest| :: rest[j] == was[j]
      {
        if rest[i] > freed {
          rest := rest[i := rest[i] - 1];
        }
        i := i + 1;
      }
      slotOf := rest;
    }
  }
}
