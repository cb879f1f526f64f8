/**
 The single-producer/single-consumer ring, one atomic access per step.

 Each side loads the other's counter at any position between the newest one it has already seen and the
 current one (a stale but coherent load). Counters are stored modulo `modulus`. A slot read may return any
 write to that slot that is not overwritten by a write which happens-before the read; acquiring head position
 `h` orders exactly the first `h` buffer writes. Ghost histories `accepted` and `popped` record what was
 published and what was consumed.
 */
module RingProtocol {
  import opened Arithmetic

  datatype Shape = Shape(capacity: nat, modulus: nat) {
    /** `capacity` and `modulus` stand for powers of two, see `PowersOfTwoFit`. */
    ghost predicate Ok() {
      2 <= capacity < modulus && modulus % capacity == 0
    }
  }

  datatype Write<T> = Write(slot: nat, value: T)

  datatype Producer<T> =
    | Idle
    | HeadLoaded(value: T, head: nat)
    | TailLoaded(value: T, head: nat, tail: nat)
    | Written(value: T, head: nat)

  datatype Consumer<T> =
    | Resting
    | OwnLoaded(tail: nat)
    | OtherLoaded(tail: nat, head: nat)
    | Copied(tail: nat, value: T)

  datatype Ring<T> = Ring(
    head: nat, tail: nat, dropped: nat,
    writes: seq<Write<T>>,
    producer: Producer<T>, consumer: Consumer<T>,
    seenTail: nat, seenHead: nat,
    accepted: seq<T>, popped: seq<T>)

  function Empty<T>(): Ring<T> {
    Ring(0, 0, 0, [], Idle, Resting, 0, 0, [], [])
  }

  function InFlight<T>(s: Ring<T>): seq<T>
    requires |s.popped| <= |s.accepted|
  {
    s.accepted[|s.popped|..]
  }

  // ---- Producer: push

  ghost predicate BeginPush<T(!new)>(s: Ring<T>, s': Ring<T>, value: T) {
    s.producer.Idle? && s' == s.(producer := HeadLoaded(value, s.head))
  }

  ghost predicate LoadTail<T(!new)>(sh: Shape, s: Ring<T>, s': Ring<T>, at: nat)
    requires sh.Ok()
  {
    && s.producer.HeadLoaded?
    && s.seenTail <= at <= |s.popped|
    && s' == s.(seenTail := at, producer := TailLoaded(s.producer.value, s.producer.head, at % sh.modulus))
  }

  /** head - tail in the counters' own width. */
  function Distance(sh: Shape, head: nat, tail: nat): nat
    requires sh.Ok()
  {
    (head - tail) % sh.modulus
  }

  ghost predicate RejectFull<T(!new)>(sh: Shape, s: Ring<T>, s': Ring<T>)
    requires sh.Ok()
  {
    && s.producer.TailLoaded?
    && Distance(sh, s.producer.head, s.producer.tail) == sh.capacity
    && s' == s.(dropped := s.dropped + 1, producer := Idle)
  }

  ghost predicate WriteSlot<T(!new)>(sh: Shape, s: Ring<T>, s': Ring<T>)
    requires sh.Ok()
  {
    && s.producer.TailLoaded?
    && Distance(sh, s.producer.head, s.producer.tail) != sh.capacity
    && s' == s.(writes := s.writes + [Write(s.producer.head % sh.capacity, s.producer.value)],
                producer := Written(s.producer.value, s.producer.head))
  }

  ghost predicate PublishHead<T(!new)>(sh: Shape, s: Ring<T>, s': Ring<T>)
    requires sh.Ok()
  {
    && s.producer.Written?
    && s' == s.(head := (s.producer.head + 1) % sh.modulus, accepted := s.accepted + [s.producer.value],
                producer := Idle)
  }

  // ---- Consumer: pop

  ghost predicate BeginPop<T(!new)>(s: Ring<T>, s': Ring<T>) {
    s.consumer.Resting? && s' == s.(consumer := OwnLoaded(s.tail))
  }

  ghost predicate LoadHead<T(!new)>(sh: Shape, s: Ring<T>, s': Ring<T>, at: nat)
    requires sh.Ok()
  {
    && s.consumer.OwnLoaded?
    && s.seenHead <= at <= |s.accepted|
    && s' == s.(seenHead := at, consumer := OtherLoaded(s.consumer.tail, at % sh.modulus))
  }

  ghost predicate FindEmpty<T(!new)>(s: Ring<T>, s': Ring<T>) {
    && s.consumer.OtherLoaded?
    && s.consumer.head == s.consumer.tail
    && s' == s.(consumer := Resting)
  }

  /** A read of `slot` may return `value` when the first `ordered` writes happen-before it. */
  ghost predicate MayRead<T(!new)>(writes: seq<Write<T>>, ordered: nat, slot: nat, value: T)
    requires ordered <= |writes|
  {
    || (forall j | 0 <= j < ordered :: writes[j].slot != slot)
    || (exists k | 0 <= k < |writes| ::
          && writes[k] == Write(slot, value)
          && forall j | k < j < ordered :: writes[j].slot != slot)
  }

  ghost predicate CopySlot<T(!new)>(sh: Shape, s: Ring<T>, s': Ring<T>, value: T)
    requires sh.Ok()
  {
    && s.consumer.OtherLoaded?
    && s.consumer.head != s.consumer.tail
    && s.seenHead <= |s.writes|
    && MayRead(s.writes, s.seenHead, s.consumer.tail % sh.capacity, value)
    && s' == s.(consumer := Copied(s.consumer.tail, value))
  }

  ghost predicate PublishTail<T(!new)>(sh: Shape, s: Ring<T>, s': Ring<T>)
    requires sh.Ok()
  {
    && s.consumer.Copied?
    && s' == s.(tail := (s.consumer.tail + 1) % sh.modulus, popped := s.popped + [s.consumer.value],
                consumer := Resting)
  }

  ghost predicate ProducerStep<T(!new)>(sh: Shape, s: Ring<T>, s': Ring<T>)
    requires sh.Ok()
  {
    || (exists v :: BeginPush(s, s', v))
    || (exists at :: LoadTail(sh, s, s', at))
    || RejectFull(sh, s, s') || WriteSlot(sh, s, s') || PublishHead(sh, s, s')
  }

  ghost predicate ConsumerStep<T(!new)>(sh: Shape, s: Ring<T>, s': Ring<T>)
    requires sh.Ok()
  {
    || BeginPop(s, s')
    || (exists at :: LoadHead(sh, s, s', at))
    || FindEmpty(s, s')
    || (exists v :: CopySlot(sh, s, s', v))
    || PublishTail(sh, s, s')
  }

  // ---- The invariant

  ghost predicate Inv<T(!new)>(sh: Shape, s: Ring<T>)
    requires sh.Ok()
  {
    && s.head == |s.accepted| % sh.modulus
    && s.tail == |s.popped| % sh.modulus
    && s.seenTail <= |s.popped| <= s.seenHead <= |s.accepted| <= s.seenTail + sh.capacity
    && s.popped == s.accepted[..|s.popped|]
    && |s.writes| == |s.accepted| + (if s.producer.Written? then 1 else 0)
    && (forall k | 0 <= k < |s.writes| :: s.writes[k].slot == k % sh.capacity)
    && (forall k | 0 <= k < |s.accepted| :: s.writes[k].value == s.accepted[k])
    && ProducerInv(sh, s)
    && ConsumerInv(sh, s)
  }

  ghost predicate ProducerInv<T(!new)>(sh: Shape, s: Ring<T>)
    requires sh.Ok()
  {
    match s.producer
    case Idle => true
    case HeadLoaded(_, h) => h == s.head
    case TailLoaded(_, h, t) => h == s.head && t == s.seenTail % sh.modulus
    case Written(v, h) =>
      && h == s.head
      && |s.accepted| < s.seenTail + sh.capacity
      && |s.writes| == |s.accepted| + 1
      && s.writes[|s.accepted|].value == v
  }

  ghost predicate ConsumerInv<T(!new)>(sh: Shape, s: Ring<T>)
    requires sh.Ok()
  {
    match s.consumer
    case Resting => true
    case OwnLoaded(t) => t == s.tail
    case OtherLoaded(t, h) => t == s.tail && h == s.seenHead % sh.modulus
    case Copied(t, v) => t == s.tail && |s.popped| < s.seenHead && |s.popped| < |s.accepted| && v == s.accepted[|s.popped|]
  }

  // ---- Modular arithmetic

  /** The wrapped counters keep the distance between two positions less than a whole turn apart. */
  lemma DistanceIsExact(sh: Shape, a: nat, b: nat)
    requires sh.Ok() && b <= a <= b + sh.capacity
    ensures Distance(sh, a % sh.modulus, b % sh.modulus) == a - b
    ensures a % sh.modulus == b % sh.modulus <==> a == b
  {
    var m := sh.modulus;
    var d := a % m - b % m;
    Quotient(a, m);
    Quotient(b, m);
    assert m * (b / m - a / m) == m * (b / m) - m * (a / m);
    assert d == m * (b / m - a / m) + (a - b);
    DivMod(d, m, b / m - a / m, a - b);
  }

  /** Wrapping at `modulus` does not disturb the slot index, whatever number of wraps has happened. */
  lemma SlotIsExact(sh: Shape, a: nat)
    requires sh.Ok()
    ensures (a % sh.modulus) % sh.capacity == a % sh.capacity
  {
    var m, c := sh.modulus, sh.capacity;
    var k, q, r := m / c, a / m, a % m;
    assert m == c * k;
    assert a == c * (k * q + r / c) + r % c by {
      assert a == (c * k) * q + r;
      assert (c * k) * q == c * (k * q);
      assert r == c * (r / c) + r % c;
    }
    DivMod(a, c, k * q + r / c, r % c);
  }

  function Pow2(k: nat): (r: nat)
    ensures r > 0
  {
    if k == 0 then 1 else 2 * Pow2(k - 1)
  }

  /** Any power-of-two capacity, at least two and below the counter range, gives a legal shape. */
  lemma {:induction false} PowersOfTwoFit(k: nat, w: nat)
    requires 1 <= k < w
    ensures Shape(Pow2(k), Pow2(w)).Ok()
  {
    Pow2Grows(k, w);
    assert Pow2(k) >= 2 by { assert Pow2(k) == 2 * Pow2(k - 1); }
  }

  lemma {:induction false} Pow2Grows(k: nat, w: nat)
    requires k < w
    ensures Pow2(k) < Pow2(w) && Pow2(w) % Pow2(k) == 0
  {
    var q := Pow2Quotient(k, w);
    DivMod(Pow2(w), Pow2(k), q, 0);
    assert Pow2(k) * q >= Pow2(k) * 2;
  }

  lemma {:induction false} Pow2Quotient(k: nat, w: nat) returns (q: nat)
    requires k < w
    ensures q >= 2 && Pow2(w) == Pow2(k) * q
  {
    if w == k + 1 {
      q := 2;
    } else {
      var q' := Pow2Quotient(k, w - 1);
      q := 2 * q';
      assert Pow2(w) == 2 * (Pow2(k) * q');
    }
  }

  // ---- Every step keeps the invariant

  lemma InitInv<T(!new)>(sh: Shape)
    requires sh.Ok()
    ensures Inv<T>(sh, Empty<T>())
  {
  }

  lemma ProducerKeepsInv<T(!new)>(sh: Shape, s: Ring<T>, s': Ring<T>)
    requires sh.Ok() && Inv(sh, s) && ProducerStep(sh, s, s')
    ensures Inv(sh, s')
  {
    SlotIsExact(sh, |s.accepted|);
    RemainderSucc(|s.accepted|, sh.modulus);
    DistanceIsExact(sh, |s.accepted|, s.seenTail);
  }

  lemma ConsumerKeepsInv<T(!new)>(sh: Shape, s: Ring<T>, s': Ring<T>)
    requires sh.Ok() && Inv(sh, s) && ConsumerStep(sh, s, s')
    ensures Inv(sh, s')
  {
    RemainderSucc(|s.popped|, sh.modulus);
    DistanceIsExact(sh, s.seenHead, |s.popped|);
    if v :| CopySlot(sh, s, s', v) {
      CopyReturnsOldest(sh, s, v);
    }
  }

  /** The memory model allows the slot read to return the oldest unread element, and nothing else. */
  lemma CopyReturnsOldest<T(!new)>(sh: Shape, s: Ring<T>, value: T)
    requires sh.Ok() && Inv(sh, s) && s.consumer.OtherLoaded?
    ensures s.consumer.head != s.consumer.tail ==>
              && |s.popped| < s.seenHead
              && (MayRead(s.writes, s.seenHead, s.consumer.tail % sh.capacity, value) <==> value == s.accepted[|s.popped|])
  {
    var p := |s.popped|;
    DistanceIsExact(sh, s.seenHead, p);
    SlotIsExact(sh, p);
    if p < s.seenHead {
      assert s.writes[p] == Write(p % sh.capacity, s.accepted[p]);
      OnlyWriteToSlot(sh, s, p);
    }
  }

  /** Between the oldest unread position and anything acquired or written, its slot is written once. */
  lemma OnlyWriteToSlot<T(!new)>(sh: Shape, s: Ring<T>, p: nat)
    requires sh.Ok() && Inv(sh, s) && p == |s.popped| < s.seenHead
    ensures forall k | p < k < |s.writes| :: s.writes[k].slot != p % sh.capacity
  {
    forall k | p < k < |s.writes| ensures s.writes[k].slot != p % sh.capacity {
      if s.writes[k].slot == p % sh.capacity {
        SameRemainder(sh.capacity, k, p);
      }
    }
  }

  // ---- Whole runs

  /** Any interleaving of the two sides, from the freshly built ring. */
  ghost predicate Run<T(!new)>(sh: Shape, run: seq<Ring<T>>)
    requires sh.Ok()
  {
    && run != [] && run[0] == Empty()
    && forall i | 0 < i < |run| :: ProducerStep(sh, run[i - 1], run[i]) || ConsumerStep(sh, run[i - 1], run[i])
  }

  lemma {:induction false} RunKeepsInv<T(!new)>(sh: Shape, run: seq<Ring<T>>, i: nat)
    requires sh.Ok() && Run(sh, run) && i < |run|
    ensures Inv(sh, run[i])
  {
    if i == 0 {
      InitInv<T>(sh);
    } else {
      RunKeepsInv(sh, run, i - 1);
      if ProducerStep(sh, run[i - 1], run[i]) {
        ProducerKeepsInv(sh, run[i - 1], run[i]);
      } else {
        ConsumerKeepsInv(sh, run[i - 1], run[i]);
      }
    }
  }

  /** The refinement to a bounded queue: no loss, no duplication, no reordering, never above capacity. */
  lemma RunIsBoundedFifo<T(!new)>(sh: Shape, run: seq<Ring<T>>, i: nat)
    requires sh.Ok() && Run(sh, run) && i < |run|
    ensures |run[i].popped| <= |run[i].accepted|
    ensures run[i].popped + InFlight(run[i]) == run[i].accepted
    ensures |InFlight(run[i])| <= sh.capacity
  {
    RunKeepsInv(sh, run, i);
  }

  /** What a producer step does to the queue: publishing appends, a full ring only counts. */
  lemma ProducerStepOnQueue<T(!new)>(sh: Shape, s: Ring<T>, s': Ring<T>)
    requires sh.Ok() && Inv(sh, s) && ProducerStep(sh, s, s')
    ensures |s'.popped| <= |s'.accepted|
    ensures InFlight(s')
            == if PublishHead(sh, s, s') then InFlight(s) + [s.producer.value] else InFlight(s)
    ensures PublishHead(sh, s, s') ==> s.producer.Written? && |InFlight(s)| < sh.capacity
    ensures s'.dropped == s.dropped + if RejectFull(sh, s, s') then 1 else 0
  {
  }

  /** What a consumer step does to the queue: the tail store takes the oldest element. */
  lemma ConsumerStepOnQueue<T(!new)>(sh: Shape, s: Ring<T>, s': Ring<T>)
    requires sh.Ok() && Inv(sh, s) && ConsumerStep(sh, s, s')
    ensures |s'.popped| <= |s'.accepted| && s'.dropped == s.dropped
    ensures PublishTail(sh, s, s') ==> s.consumer.Copied? && InFlight(s) == [s.consumer.value] + InFlight(s')
    ensures !PublishTail(sh, s, s') ==> InFlight(s') == InFlight(s)
  {
  }

  /** A push is refused exactly when `capacity` elements were unread at the tail position the producer loaded. */
  lemma RejectMeansFull<T(!new)>(sh: Shape, s: Ring<T>)
    requires sh.Ok() && Inv(sh, s) && s.producer.TailLoaded?
    ensures Distance(sh, s.producer.head, s.producer.tail) == sh.capacity
            <==> |s.accepted| - s.seenTail == sh.capacity
  {
    DistanceIsExact(sh, |s.accepted|, s.seenTail);
  }

  /** Race freedom: the slot the producer writes is none of the slots the consumer may still read. */
  lemma WriteNeverTouchesUnread<T(!new)>(sh: Shape, s: Ring<T>, k: nat)
    requires sh.Ok() && Inv(sh, s) && |s.popped| <= k < |s.accepted|
    requires s.producer.Written?
             || (s.producer.TailLoaded? && Distance(sh, s.producer.head, s.producer.tail) != sh.capacity)
    ensures s.producer.head % sh.capacity != k % sh.capacity
    ensures s.consumer.OtherLoaded? && s.consumer.head != s.consumer.tail ==>
              s.consumer.tail % sh.capacity != s.producer.head % sh.capacity
  {
    DistanceIsExact(sh, |s.accepted|, s.seenTail);
    DistanceIsExact(sh, s.seenHead, |s.popped|);
    SlotIsExact(sh, |s.accepted|);
    SlotIsExact(sh, |s.popped|);
    if |s.accepted| % sh.capacity == k % sh.capacity {
      SameRemainder(sh.capacity, |s.accepted|, k);
    }
    if |s.accepted| % sh.capacity == |s.popped| % sh.capacity {
      SameRemainder(sh.capacity, |s.accepted|, |s.popped|);
    }
  }

  /**
   The other half of race freedom: whatever was read from the slot being written was read at a position below the
   tail that the producer has acquired, so that read happens-before the write.
   */
  lemma EarlierReadsAreAcquired<T(!new)>(sh: Shape, s: Ring<T>, k: nat)
    requires sh.Ok() && Inv(sh, s) && k < |s.accepted| && k % sh.capacity == |s.accepted| % sh.capacity
    requires s.producer.Written?
             || (s.producer.TailLoaded? && Distance(sh, s.producer.head, s.producer.tail) != sh.capacity)
    ensures s.producer.head % sh.capacity == k % sh.capacity
    ensures k < s.seenTail <= |s.popped|
  {
    DistanceIsExact(sh, |s.accepted|, s.seenTail);
    SlotIsExact(sh, |s.accepted|);
    if k >= s.seenTail {
      SameRemainder(sh.capacity, |s.accepted|, k);
    }
  }

  /** size() on the producer's own thread (own head, any tail it may still load). */
  lemma SizeFromProducer<T(!new)>(sh: Shape, s: Ring<T>, at: nat)
    requires sh.Ok() && Inv(sh, s) && s.seenTail <= at <= |s.popped|
    ensures Distance(sh, s.head, at % sh.modulus) == |s.accepted| - at
    ensures |InFlight(s)| <= Distance(sh, s.head, at % sh.modulus) <= sh.capacity
  {
    DistanceIsExact(sh, |s.accepted|, at);
  }

  /** size() on the consumer's own thread (any head it may still load, own tail). */
  lemma SizeFromConsumer<T(!new)>(sh: Shape, s: Ring<T>, at: nat)
    requires sh.Ok() && Inv(sh, s) && s.seenHead <= at <= |s.accepted|
    ensures Distance(sh, at % sh.modulus, s.tail) == at - |s.popped|
    ensures 0 <= Distance(sh, at % sh.modulus, s.tail) <= |InFlight(s)|
  {
    DistanceIsExact(sh, at, |s.popped|);
  }

  // ---- One side running alone, with a fresh view of the other

  ghost predicate SoloPush<T(!new)>(sh: Shape, s: Ring<T>, s': Ring<T>, value: T)
    requires sh.Ok()
  {
    exists s1, s2 ::
      && BeginPush(s, s1, value)
      && LoadTail(sh, s1, s2, |s.popped|)
      && (RejectFull(sh, s2, s') || exists s3 :: WriteSlot(sh, s2, s3) && PublishHead(sh, s3, s'))
  }

  ghost predicate SoloPop<T(!new)>(sh: Shape, s: Ring<T>, s': Ring<T>)
    requires sh.Ok()
  {
    exists s1, s2 ::
      && BeginPop(s, s1)
      && LoadHead(sh, s1, s2, |s.accepted|)
      && (FindEmpty(s2, s') || exists s3, v :: CopySlot(sh, s2, s3, v) && PublishTail(sh, s3, s'))
  }

  lemma SoloPushRejects<T(!new)>(sh: Shape, s: Ring<T>, value: T) returns (s': Ring<T>)
    requires sh.Ok() && Inv(sh, s) && s.producer.Idle? && |InFlight(s)| == sh.capacity
    ensures Inv(sh, s') && SoloPush(sh, s, s', value)
    ensures s' == s.(dropped := s.dropped + 1, seenTail := |s.popped|)
  {
    var s1 := s.(producer := HeadLoaded(value, s.head));
    var s2 := s1.(seenTail := |s.popped|, producer := TailLoaded(value, s.head, s.tail));
    s' := s2.(dropped := s.dropped + 1, producer := Idle);
    assert BeginPush(s, s1, value);
    assert LoadTail(sh, s1, s2, |s.popped|);
    DistanceIsExact(sh, |s.accepted|, |s.popped|);
    assert RejectFull(sh, s2, s');
  }

  lemma SoloPushAccepts<T(!new)>(sh: Shape, s: Ring<T>, value: T) returns (s': Ring<T>)
    requires sh.Ok() && Inv(sh, s) && s.producer.Idle? && |InFlight(s)| < sh.capacity
    ensures Inv(sh, s') && SoloPush(sh, s, s', value)
    ensures s' == s.(head := (s.head + 1) % sh.modulus, seenTail := |s.popped|, writes := s'.writes,
                     accepted := s.accepted + [value])
  {
    var s1 := s.(producer := HeadLoaded(value, s.head));
    var s2 := s1.(seenTail := |s.popped|, producer := TailLoaded(value, s.head, s.tail));
    assert BeginPush(s, s1, value);
    assert LoadTail(sh, s1, s2, |s.popped|);
    assert Inv(sh, s2);
    DistanceIsExact(sh, |s.accepted|, |s.popped|);
    var s3 := s2.(writes := s2.writes + [Write(s.head % sh.capacity, value)], producer := Written(value, s.head));
    assert WriteSlot(sh, s2, s3);
    ProducerKeepsInv(sh, s2, s3);
    s' := s3.(head := (s.head + 1) % sh.modulus, accepted := s.accepted + [value], producer := Idle);
    assert PublishHead(sh, s3, s');
    ProducerKeepsInv(sh, s3, s');
  }

  lemma SoloPopLooks<T(!new)>(sh: Shape, s: Ring<T>) returns (s1: Ring<T>, s2: Ring<T>)
    requires sh.Ok() && Inv(sh, s) && s.consumer.Resting?
    ensures BeginPop(s, s1) && LoadHead(sh, s1, s2, |s.accepted|) && Inv(sh, s2)
    ensures s2 == s.(seenHead := |s.accepted|, consumer := OtherLoaded(s.tail, s.head))
  {
    s1 := s.(consumer := OwnLoaded(s.tail));
    s2 := s1.(seenHead := |s.accepted|, consumer := OtherLoaded(s.tail, s.head));
    ConsumerKeepsInv(sh, s, s1);
    assert LoadHead(sh, s1, s2, |s.accepted|);
    ConsumerKeepsInv(sh, s1, s2);
  }

  lemma SoloPopFindsEmpty<T(!new)>(sh: Shape, s: Ring<T>) returns (s': Ring<T>)
    requires sh.Ok() && Inv(sh, s) && s.consumer.Resting? && |s.accepted| == |s.popped|
    ensures Inv(sh, s') && SoloPop(sh, s, s')
    ensures s' == s.(seenHead := |s.accepted|)
  {
    var s1, s2 := SoloPopLooks(sh, s);
    s' := s2.(consumer := Resting);
    assert FindEmpty(s2, s');
    ConsumerKeepsInv(sh, s2, s');
  }

  lemma SoloPopTakes<T(!new)>(sh: Shape, s: Ring<T>) returns (s': Ring<T>)
    requires sh.Ok() && Inv(sh, s) && s.consumer.Resting? && |s.accepted| > |s.popped|
    ensures Inv(sh, s') && SoloPop(sh, s, s')
    ensures s' == s.(tail := (s.tail + 1) % sh.modulus, seenHead := |s.accepted|,
                     popped := s.popped + [s.accepted[|s.popped|]])
  {
    var s1, s2 := SoloPopLooks(sh, s);
    var value := s.accepted[|s.popped|];
    var s3 := s2.(consumer := Copied(s.tail, value));
    DistanceIsExact(sh, |s.accepted|, |s.popped|);
    CopyReturnsOldest(sh, s2, value);
    assert CopySlot(sh, s2, s3, value);
    ConsumerKeepsInv(sh, s2, s3);
    s' := s3.(tail := (s.tail + 1) % sh.modulus, popped := s.popped + [value], consumer := Resting);
    assert PublishTail(sh, s3, s');
    ConsumerKeepsInv(sh, s3, s');
  }
}
