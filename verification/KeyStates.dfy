/** The held-key table: once on the hook thread as the auto-repeat filter, once on the broadcaster thread. */
module KeyStates {
  import opened InputEvents

  const KEYS := 256

  datatype Key = Key(down: bool, scan: nat, flags: nat)

  const RELEASED := Key(false, 0, 0)

  type KeyTable = t: seq<Key> | |t| == KEYS witness seq(KEYS, _ => RELEASED)

  function EmptyTable(): KeyTable {
    seq(KEYS, _ => RELEASED)
  }

  predicate IsDown(t: KeyTable, vk: nat) {
    vk < KEYS && t[vk].down
  }

  /** The keys that are down. */
  function Held(t: KeyTable): set<nat> {
    set vk | 0 <= vk < KEYS && t[vk].down
  }

  /** Is `ev` a real transition in table `t` (not an auto-repeat, a stray release or a mouse event)? */
  predicate Changes(t: KeyTable, ev: InputEvent) {
    && ev.vk < KEYS
    && (ev.kind.KeyDown? || ev.kind.KeyUp?)
    && ev.kind.KeyDown? != t[ev.vk].down
  }

  function Applied(t: KeyTable, ev: InputEvent): KeyTable {
    if !Changes(t, ev) then t
    else if ev.kind.KeyDown? then t[ev.vk := Key(true, ev.scan, ev.flags)]
    else t[ev.vk := t[ev.vk].(down := false)]
  }

  function ApplyAll(t: KeyTable, evs: seq<InputEvent>): KeyTable {
    if evs == [] then t else Applied(ApplyAll(t, evs[..|evs| - 1]), evs[|evs| - 1])
  }

  lemma {:induction false} ApplyAllConcat(t: KeyTable, a: seq<InputEvent>, b: seq<InputEvent>)
    ensures ApplyAll(t, a + b) == ApplyAll(ApplyAll(t, a), b)
    decreases |b|
  {
    if b == [] {
      assert a + b == a;
    } else {
      ApplyAllConcat(t, a, b[..|b| - 1]);
      assert (a + b)[..|a + b| - 1] == a + b[..|b| - 1];
    }
  }

  // ---- What a stream of events does to one key

  /** The transitions of key `vk` in `evs`, in order. */
  function Transitions(evs: seq<InputEvent>, vk: nat): seq<InputEvent> {
    if evs == [] then []
    else
      var last := evs[|evs| - 1];
      Transitions(evs[..|evs| - 1], vk) + if IsKey(last.kind) && last.vk == vk then [last] else []
  }

  lemma {:induction false} TransitionsConcat(a: seq<InputEvent>, b: seq<InputEvent>, vk: nat)
    ensures Transitions(a + b, vk) == Transitions(a, vk) + Transitions(b, vk)
    decreases |b|
  {
    if b == [] {
      assert a + b == a;
    } else {
      TransitionsConcat(a, b[..|b| - 1], vk);
      assert (a + b)[..|a + b| - 1] == a + b[..|b| - 1];
    }
  }

  /** Whatever was lost or repeated on the way, a key is down exactly when the last transition seen was a press. */
  lemma {:induction false} DownIsLastPolarity(evs: seq<InputEvent>, vk: nat)
    requires vk < KEYS
    ensures
      var ts := Transitions(evs, vk);
      IsDown(ApplyAll(EmptyTable(), evs), vk) <==> ts != [] && ts[|ts| - 1].kind.KeyDown?
  {
    if evs != [] {
      DownIsLastPolarity(evs[..|evs| - 1], vk);
    }
  }

  /** Every key event of the stream is a real transition at the moment it is applied. */
  predicate Effective(evs: seq<InputEvent>) {
    evs != [] ==>
      var last := evs[|evs| - 1];
      && Effective(evs[..|evs| - 1])
      && (IsKey(last.kind) ==> Changes(ApplyAll(EmptyTable(), evs[..|evs| - 1]), last))
  }

  predicate Alternates(ts: seq<InputEvent>) {
    forall j | 0 <= j < |ts| :: ts[j].kind == if j % 2 == 0 then KeyDown else KeyUp
  }

  /** In a filtered stream every key goes down, up, down, up, ... and is down after an odd number of transitions. */
  lemma {:induction false} EffectiveAlternates(evs: seq<InputEvent>, vk: nat)
    requires Effective(evs) && vk < KEYS
    ensures Alternates(Transitions(evs, vk))
    ensures IsDown(ApplyAll(EmptyTable(), evs), vk) <==> |Transitions(evs, vk)| % 2 == 1
  {
    if evs != [] {
      EffectiveAlternates(evs[..|evs| - 1], vk);
    }
  }

  /** A key that is down has the scan code and flags of the press that took it down, its latest that changed anything. */
  lemma {:induction false} HeldRecord(evs: seq<InputEvent>, vk: nat) returns (k: nat)
    requires vk < KEYS && ApplyAll(EmptyTable(), evs)[vk].down
    ensures k < |evs| && evs[k].kind == KeyDown && evs[k].vk == vk
    ensures !ApplyAll(EmptyTable(), evs[..k])[vk].down
    ensures forall j | k < j <= |evs| :: ApplyAll(EmptyTable(), evs[..j])[vk].down
    ensures ApplyAll(EmptyTable(), evs)[vk] == Key(true, evs[k].scan, evs[k].flags)
  {
    var last := |evs| - 1;
    assert evs[..|evs|] == evs;
    if ApplyAll(EmptyTable(), evs[..last])[vk].down {
      k := HeldRecord(evs[..last], vk);
      assert evs[..last][..k] == evs[..k];
      forall j | k < j <= |evs| ensures ApplyAll(EmptyTable(), evs[..j])[vk].down {
        if j <= last {
          assert evs[..last][..j] == evs[..j];
        }
      }
    } else {
      k := last;
    }
  }

  // ---- The table as it is kept in memory

  class KeyState {
    const keys: array<Key>
    var held: nat

    ghost predicate Valid()
      reads this, keys
    {
      keys.Length == KEYS && held == |Held(keys[..])|
    }

    function Table(): KeyTable
      requires Valid()
      reads this, keys
    {
      keys[..]
    }

    constructor ()
      ensures Valid() && fresh(keys) && Table() == EmptyTable()
    {
      keys := new Key[KEYS](_ => RELEASED);
      held := 0;
      new;
      assert keys[..] == EmptyTable();
      assert Held(keys[..]) == {};
    }

    method Apply(ev: InputEvent) returns (changed: bool)
      requires Valid()
      modifies this`held, keys
      ensures Valid()
      ensures Table() == Applied(old(Table()), ev)
      ensures changed <==> Changes(old(Table()), ev)
      ensures changed && ev.kind == KeyDown ==> ev.vk < 256 && Table()[ev.vk] == Key(true, ev.scan, ev.flags)
      ensures changed && ev.kind == KeyUp ==> ev.vk < 256 && !Table()[ev.vk].down
      ensures forall vk | 0 <= vk < 256 && (!changed || vk != ev.vk) :: Table()[vk] == old(Table())[vk]
    {
      if ev.vk >= KEYS {
        return false;
      }
      ghost var before := Held(keys[..]);
      if ev.kind.KeyDown? {
        if keys[ev.vk].down {
          return false;
        }
        keys[ev.vk] := Key(true, ev.scan, ev.flags);
        held := held + 1;
        assert Held(keys[..]) == before + {ev.vk};
        return true;
      }
      if ev.kind.KeyUp? {
        if !keys[ev.vk].down {
          return false;
        }
        assert ev.vk in before;
        keys[ev.vk] := keys[ev.vk].(down := false);
        held := held - 1;
        assert Held(keys[..]) == before - {ev.vk};
        return true;
      }
      return false;
    }

    /** What `for_each_down` hands to its callback: every held key with its record, once, in ascending order. */
    method ForEachDown() returns (visited: seq<HeldKey>)
      requires Valid()
      ensures visited == HeldInOrder(Table(), KEYS)
    {
      visited := [];
      for vk := 0 to keys.Length
        invariant visited == HeldInOrder(keys[..], vk)
      {
        if keys[vk].down {
          visited := visited + [HeldKey(vk, keys[vk])];
        }
      }
    }

    method Clear()
      requires Valid()
      modifies this`held, keys
      ensures Valid() && Table() == EmptyTable()
    {
      forall i | 0 <= i < keys.Length {
        keys[i] := RELEASED;
      }
      held := 0;
      assert Held(keys[..]) == {};
    }
  }

  datatype HeldKey = HeldKey(vk: nat, key: Key)

  function HeldInOrder(t: KeyTable, n: nat): seq<HeldKey>
    requires n <= KEYS
  {
    if n == 0 then []
    else HeldInOrder(t, n - 1) + if t[n - 1].down then [HeldKey(n - 1, t[n - 1])] else []
  }

  /** The walk meets exactly the held keys below n, with the table's own records, each once and in ascending order. */
  lemma {:induction false} HeldInOrderIsHeld(t: KeyTable, n: nat)
    requires n <= KEYS
    ensures forall h :: h in HeldInOrder(t, n) <==> h.vk < n && h.vk in Held(t) && h.key == t[h.vk]
    ensures forall i, j | 0 <= i < j < |HeldInOrder(t, n)| :: HeldInOrder(t, n)[i].vk < HeldInOrder(t, n)[j].vk
  {
    if n > 0 {
      HeldInOrderIsHeld(t, n - 1);
      var before := HeldInOrder(t, n - 1);
      assert forall i | 0 <= i < |before| :: before[i] in before;
    }
  }
}
