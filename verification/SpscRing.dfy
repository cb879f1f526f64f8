/** The ring as the program holds it: wrapped counters and an array overwritten in place. */
module SpscRing {
  import opened Arithmetic
  import opened InputEvents
  import opened RingProtocol

  class SpscRing<T(0, !new)> {
    const shape: Shape
    const buf: array<T>
    var head: nat
    var tail: nat
    var dropped: nat
    ghost var ring: Ring<T>  // the protocol state these fields stand for

    ghost predicate Valid()
      reads this, buf
    {
      && shape.Ok() && buf.Length == shape.capacity
      && Inv(shape, ring) && ring.producer.Idle? && ring.consumer.Resting?
      && head == ring.head && tail == ring.tail && dropped == ring.dropped
      && forall k | |ring.popped| <= k < |ring.accepted| :: buf[k % shape.capacity] == ring.accepted[k]
    }

    ghost function Contents(): seq<T>
      requires Valid()
      reads this, buf
    {
      InFlight(ring)
    }

    constructor (sh: Shape)
      requires sh.Ok()
      ensures Valid() && fresh(buf) && shape == sh && ring == Empty() && Contents() == []
    {
      shape := sh;
      buf := new T[sh.capacity];
      head, tail, dropped, ring := 0, 0, 0, Empty();
      new;
      InitInv<T>(sh);
    }

    /** The code's counter difference, in the counters' own width. */
    method Size() returns (n: nat)
      requires Valid()
      ensures n == |Contents()| <= shape.capacity
    {
      DistanceIsExact(shape, |ring.accepted|, |ring.popped|);
      n := Distance(shape, head, tail);
    }

    /** Appends when there is room, otherwise counts a drop; either way a run of the producer's protocol steps. */
    method Push(value: T) returns (ok: bool)
      requires Valid()
      modifies this`head, this`dropped, this`ring, buf
      ensures Valid() && tail == old(tail)
      ensures ok <==> |old(Contents())| < shape.capacity
      ensures Contents() == if ok then old(Contents()) + [value] else old(Contents())
      ensures dropped == old(dropped) + if ok then 0 else 1
      ensures SoloPush(shape, old(ring), ring, value)
    {
      var h, t := head, tail;
      ghost var s := ring;
      DistanceIsExact(shape, |s.accepted|, |s.popped|);
      if Distance(shape, h, t) == shape.capacity {
        dropped := dropped + 1;
        ring := SoloPushRejects(shape, s, value);
        return false;
      }
      SlotIsExact(shape, |s.accepted|);
      forall k | |s.popped| <= k < |s.accepted| ensures k % shape.capacity != h % shape.capacity {
        if k % shape.capacity == h % shape.capacity {
          SameRemainder(shape.capacity, |s.accepted|, k);
        }
      }
      buf[h % shape.capacity] := value;
      head := (h + 1) % shape.modulus;
      ring := SoloPushAccepts(shape, s, value);
      assert Contents() == old(Contents()) + [value];
      return true;
    }

    /** Takes the oldest element, or reports an empty ring. */
    method Pop() returns (out: Option<T>)
      requires Valid()
      modifies this`tail, this`ring
      ensures Valid() && head == old(head) && dropped == old(dropped)
      ensures out.None? <==> old(Contents()) == []
      ensures out.Some? ==> old(Contents()) == [out.value] + Contents()
      ensures out.None? ==> Contents() == []
      ensures SoloPop(shape, old(ring), ring)
    {
      var t, h := tail, head;
      ghost var s := ring;
      DistanceIsExact(shape, |s.accepted|, |s.popped|);
      if h == t {
        ring := SoloPopFindsEmpty(shape, s);
        return None;
      }
      SlotIsExact(shape, |s.popped|);
      var value := buf[t % shape.capacity];
      tail := (t + 1) % shape.modulus;
      ring := SoloPopTakes(shape, s);
      assert old(Contents()) == [value] + Contents();
      return Some(value);
    }
  }
}
