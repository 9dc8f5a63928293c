/** The lock-free ring of one producer and one consumer: every interleaving of their atomic steps,
    under sequential consistency. */
module SpscQueue {

  /** A slot of the raw storage: no object, an object, or an object whose value was moved out. */
  datatype Slot<T> = Dead | Live(value: T) | MovedFrom

  /** Where the producer is inside `write`; `at` is its local copy of the write index. */
  datatype Producer<T> =
    | ProducerIdle
    | WriteCheck(item: T, at: nat)
    | WriteConstruct(item: T, at: nat)
    | WritePublish(item: T, at: nat)

  /** Where the consumer is inside `read`, `frontPtr` or `popFront`; `at` is its local copy of the
      read index. In `HasFront` it holds the pointer that `frontPtr` returned. */
  datatype Consumer<T> =
    | ConsumerIdle
    | ReadCheck(at: nat)
    | ReadMove(at: nat)
    | ReadDestroy(at: nat, item: T)
    | ReadPublish(at: nat, item: T)
    | FrontCheck(at: nat)
    | HasFront(at: nat)
    | PopCheck(at: nat)
    | PopDestroy(at: nat)
    | PopPublish(at: nat, item: T)

  /** The shared memory, both threads, and the history: values written and values taken, in order. */
  datatype Queue<T> = Queue(slots: seq<Slot<T>>, readIndex: nat, writeIndex: nat,
                            producer: Producer<T>, consumer: Consumer<T>,
                            written: seq<T>, taken: seq<T>)

  datatype Action<T> = StartWrite(item: T) | ProducerStep | StartRead | StartFront | StartPop | ConsumerStep

  function Advance(size: nat, i: nat): nat {
    if i + 1 == size then 0 else i + 1
  }

  function Empty<T>(size: nat): Queue<T> {
    Queue(seq(size, _ => Dead), 0, 0, ProducerIdle, ConsumerIdle, [], [])
  }

  /** One atomic step of the producer. */
  function Produce<T>(q: Queue<T>): Queue<T>
    requires q.producer.WriteConstruct? ==> q.producer.at < |q.slots|
  {
    match q.producer
    case ProducerIdle => q
    case WriteCheck(item, at) =>
      if Advance(|q.slots|, at) != q.readIndex then q.(producer := WriteConstruct(item, at))
      else q.(producer := ProducerIdle)
    case WriteConstruct(item, at) =>
      q.(slots := q.slots[at := Live(item)], producer := WritePublish(item, at))
    case WritePublish(item, at) =>
      q.(writeIndex := Advance(|q.slots|, at), written := q.written + [item], producer := ProducerIdle)
  }

  /** The consumer's next step touches a slot: it must hold what that step needs. */
  predicate Touches<T>(q: Queue<T>) {
    match q.consumer
    case ReadMove(at) => at < |q.slots| && q.slots[at].Live?
    case ReadDestroy(at, _) => at < |q.slots| && q.slots[at].MovedFrom?
    case HasFront(at) => at < |q.slots| && q.slots[at].Live?
    case PopCheck(at) => at != q.writeIndex
    case PopDestroy(at) => at < |q.slots| && q.slots[at].Live?
    case _ => true
  }

  /** One atomic step of the consumer. */
  function Consume<T>(q: Queue<T>): Queue<T>
    requires Touches(q)
  {
    match q.consumer
    case ConsumerIdle => q
    case ReadCheck(at) => q.(consumer := if at == q.writeIndex then ConsumerIdle else ReadMove(at))
    case ReadMove(at) =>
      q.(slots := q.slots[at := MovedFrom], consumer := ReadDestroy(at, q.slots[at].value))
    case ReadDestroy(at, item) => q.(slots := q.slots[at := Dead], consumer := ReadPublish(at, item))
    case ReadPublish(at, item) => Retire(q, at, item)
    case FrontCheck(at) => q.(consumer := if at == q.writeIndex then ConsumerIdle else HasFront(at))
    case HasFront(at) => q
    case PopCheck(at) => q.(consumer := PopDestroy(at))
    case PopDestroy(at) =>
      q.(slots := q.slots[at := Dead], consumer := PopPublish(at, q.slots[at].value))
    case PopPublish(at, item) => Retire(q, at, item)
  }

  function Retire<T>(q: Queue<T>, at: nat, item: T): Queue<T> {
    q.(readIndex := Advance(|q.slots|, at), taken := q.taken + [item], consumer := ConsumerIdle)
  }

  /** The next action of either thread; an action that is not the thread's turn changes nothing.
      `popFront` demands a queue that is not empty, which the consumer knows from `frontPtr`. */
  function Step<T>(q: Queue<T>, a: Action<T>): Queue<T>
    requires Inv(q)
  {
    match a
    case StartWrite(item) => if q.producer.ProducerIdle? then q.(producer := WriteCheck(item, q.writeIndex)) else q
    case ProducerStep => Produce(q)
    case StartRead =>
      if q.consumer.ConsumerIdle? || q.consumer.HasFront? then q.(consumer := ReadCheck(q.readIndex)) else q
    case StartFront =>
      if q.consumer.ConsumerIdle? || q.consumer.HasFront? then q.(consumer := FrontCheck(q.readIndex)) else q
    case StartPop => if q.consumer.HasFront? then q.(consumer := PopCheck(q.readIndex)) else q
    case ConsumerStep => InvTouches(q); Consume(q)
  }

  /** The j-th slot of the cyclic interval that starts at `start`. */
  function Nth(size: nat, start: nat, j: nat): nat {
    if start + j < size then start + j else start + j - size
  }

  function Count<T>(q: Queue<T>): int {
    Distance(|q.slots|, q.readIndex, q.writeIndex)
  }

  function Distance(size: nat, r: nat, w: nat): int {
    if w >= r then w - r else w + size - r
  }

  function Queued<T>(q: Queue<T>): seq<T>
    requires |q.taken| <= |q.written|
  {
    q.written[|q.taken|..]
  }

  /** What the slot at the read index holds while the consumer is taking its object apart. */
  function FrontSlot<T>(q: Queue<T>, value: T): Slot<T> {
    match q.consumer
    case ReadDestroy(_, _) => MovedFrom
    case ReadPublish(_, _) => Dead
    case PopPublish(_, _) => Dead
    case _ => Live(value)
  }

  ghost predicate Shape<T>(q: Queue<T>) {
    && 2 <= |q.slots|
    && q.readIndex < |q.slots| && q.writeIndex < |q.slots|
    && q.taken <= q.written && |Queued(q)| == Count(q)
  }

  ghost predicate ProducerInv<T>(q: Queue<T>)
    requires Shape(q)
  {
    match q.producer
    case ProducerIdle => true
    case WriteCheck(_, at) => at == q.writeIndex
    case WriteConstruct(_, at) => at == q.writeIndex && Count(q) < |q.slots| - 1
    case WritePublish(_, at) => at == q.writeIndex && Count(q) < |q.slots| - 1
  }

  ghost predicate ConsumerInv<T>(q: Queue<T>)
    requires Shape(q)
  {
    match q.consumer
    case ConsumerIdle => true
    case ReadCheck(at) => at == q.readIndex
    case FrontCheck(at) => at == q.readIndex
    case ReadDestroy(at, item) => at == q.readIndex && Count(q) > 0 && item == Queued(q)[0]
    case ReadPublish(at, item) => at == q.readIndex && Count(q) > 0 && item == Queued(q)[0]
    case PopPublish(at, item) => at == q.readIndex && Count(q) > 0 && item == Queued(q)[0]
    case _ => q.consumer.at == q.readIndex && Count(q) > 0
  }

  /** Which slots hold an object: the cyclic interval from the read to the write index holds the queued
      values in order, the slot behind it holds the object being published, every other is dead. */
  ghost predicate SlotsInv<T>(q: Queue<T>)
    requires Shape(q)
  {
    forall j: nat :: j < |q.slots| ==> q.slots[Nth(|q.slots|, q.readIndex, j)] == SlotAt(q, j)
  }

  function SlotAt<T>(q: Queue<T>, j: nat): Slot<T>
    requires |q.taken| <= |q.written| && |Queued(q)| == Count(q)
  {
    if j < Count(q) then (if j == 0 then FrontSlot(q, Queued(q)[0]) else Live(Queued(q)[j]))
    else if j == Count(q) && q.producer.WritePublish? then Live(q.producer.item)
    else Dead
  }

  ghost predicate Inv<T>(q: Queue<T>) {
    Shape(q) && ProducerInv(q) && ConsumerInv(q) && SlotsInv(q)
  }

  lemma InvTouches<T>(q: Queue<T>)
    requires Inv(q)
    ensures Touches(q)
  {
    assert q.slots[Nth(|q.slots|, q.readIndex, 0)] == SlotAt(q, 0);
  }

  lemma InvEmpty<T>(size: nat)
    requires 2 <= size
    ensures Inv(Empty<T>(size))
  {
  }

  lemma InvProduce<T>(q: Queue<T>)
    requires Inv(q)
    ensures Inv(Produce(q))
  {
    match q.producer
    case ProducerIdle =>
    case WriteCheck(item, at) => InvMoveOn(q, Produce(q));
    case WriteConstruct(item, at) => InvConstruct(q);
    case WritePublish(item, at) => InvPublish(q);
  }

  lemma InvConstruct<T>(q: Queue<T>)
    requires Inv(q) && q.producer.WriteConstruct?
    ensures Inv(Produce(q))
  {
    var size, r := |q.slots|, q.readIndex;
    var q' := Produce(q);
    forall j: nat | j < size ensures q'.slots[Nth(size, r, j)] == SlotAt(q', j) {
      assert q.slots[Nth(size, r, j)] == SlotAt(q, j);
      assert Nth(size, r, j) == q.producer.at <==> j == Count(q);
    }
  }

  lemma InvPublish<T>(q: Queue<T>)
    requires Inv(q) && q.producer.WritePublish?
    ensures Inv(Produce(q))
  {
    var size, r := |q.slots|, q.readIndex;
    var q' := Produce(q);
    assert Queued(q') == Queued(q) + [q.producer.item];
    forall j: nat | j < size ensures q'.slots[Nth(size, r, j)] == SlotAt(q', j) {
      assert q.slots[Nth(size, r, j)] == SlotAt(q, j);
    }
  }

  lemma InvConsume<T>(q: Queue<T>)
    requires Inv(q) && Touches(q)
    ensures Inv(Consume(q))
  {
    match q.consumer
    case ReadMove(at) => InvTakeApart(q);
    case ReadDestroy(at, item) => InvTakeApart(q);
    case PopDestroy(at) => InvTakeApart(q);
    case ReadPublish(at, item) => InvRetire(q, item);
    case PopPublish(at, item) => InvRetire(q, item);
    case _ => InvMoveOn(q, Consume(q));
  }

  lemma InvTakeApart<T>(q: Queue<T>)
    requires Inv(q) && Touches(q) && (q.consumer.ReadMove? || q.consumer.ReadDestroy? || q.consumer.PopDestroy?)
    ensures Inv(Consume(q))
  {
    assert q.slots[Nth(|q.slots|, q.readIndex, 0)] == SlotAt(q, 0);
    hide SlotsInv;
    InvSlotChange(q, Consume(q));
  }

  /** A thread moved on by one program point and left the memory, and what the slots must hold, as they were. */
  lemma InvMoveOn<T>(q: Queue<T>, q': Queue<T>)
    requires Inv(q) && q' == q.(producer := q'.producer, consumer := q'.consumer)
    requires ProducerInv(q') && ConsumerInv(q')
    requires (!q.producer.WritePublish? && !q'.producer.WritePublish?) || q'.producer == q.producer
    requires Count(q) > 0 ==> FrontSlot(q', Queued(q)[0]) == FrontSlot(q, Queued(q)[0])
    ensures Inv(q')
  {
    assert forall j: nat :: j < |q.slots| ==> SlotAt(q', j) == SlotAt(q, j);
  }

  /** The consumer changed the slot at the read index and moved on by one program point. */
  lemma InvSlotChange<T>(q: Queue<T>, q': Queue<T>)
    requires Inv(q) && Count(q) > 0
    requires q' == q.(slots := q.slots[q.readIndex := FrontSlot(q', Queued(q)[0])], consumer := q'.consumer)
    requires ConsumerInv(q')
    ensures Inv(q')
  {
    var size, r := |q.slots|, q.readIndex;
    forall j: nat | j < size ensures q'.slots[Nth(size, r, j)] == SlotAt(q', j) {
      assert q.slots[Nth(size, r, j)] == SlotAt(q, j);
      assert Nth(size, r, j) == r <==> j == 0;
    }
  }

  lemma InvRetire<T>(q: Queue<T>, item: T)
    requires Inv(q) && Count(q) > 0 && item == Queued(q)[0]
    requires q.consumer.ReadPublish? || q.consumer.PopPublish?
    ensures Inv(Retire(q, q.readIndex, item))
  {
    var size, r := |q.slots|, q.readIndex;
    var q' := Retire(q, r, item);
    assert Queued(q') == Queued(q)[1..];
    forall j: nat | j < size ensures q'.slots[Nth(size, q'.readIndex, j)] == SlotAt(q', j) {
      var i := if j + 1 < size then j + 1 else 0;
      assert q.slots[Nth(size, r, i)] == SlotAt(q, i);
      assert Nth(size, q'.readIndex, j) == Nth(size, r, i);
    }
  }

  lemma InvStep<T>(q: Queue<T>, a: Action<T>)
    requires Inv(q)
    ensures Inv(Step(q, a))
  {
    hide Produce, Consume, SlotsInv;
    match a
    case ProducerStep => InvProduce(q);
    case ConsumerStep => InvTouches(q); InvConsume(q);
    case _ => InvMoveOn(q, Step(q, a));
  }

  /** Any interleaving: the actions in the order in which they take effect. */
  ghost function Run<T>(q: Queue<T>, actions: seq<Action<T>>): (q': Queue<T>)
    requires Inv(q)
    ensures Inv(q') && |q'.slots| == |q.slots|
    decreases |actions|
  {
    if actions == [] then q
    else
      InvStep(q, actions[0]);
      Run(Step(q, actions[0]), actions[1..])
  }

  /** In every reachable state: what was written is what was taken followed by what is queued, in
      order; never more than size - 1 are queued; the objects in the storage are exactly those of the
      cyclic interval between the indices plus the slot in flight at either end. */
  lemma FifoAlways<T>(size: nat, actions: seq<Action<T>>)
    requires 2 <= size
    ensures Inv(Empty<T>(size))
    ensures var q := Run(Empty<T>(size), actions);
            && q.taken <= q.written && q.written == q.taken + Queued(q)
            && |Queued(q)| == Count(q) <= size - 1
            && forall j: nat :: j < size ==>
                 (q.slots[Nth(size, q.readIndex, j)] != Dead <==>
                    || (0 < j < Count(q))
                    || (j == 0 < Count(q) && !q.consumer.ReadPublish? && !q.consumer.PopPublish?)
                    || (j == Count(q) && q.producer.WritePublish?))
  {
    InvEmpty<T>(size);
    var q := Run(Empty<T>(size), actions);
    assert Inv(q);
    forall j: nat | j < size
      ensures q.slots[Nth(size, q.readIndex, j)] != Dead <==>
                (0 < j < Count(q))
                || (j == 0 < Count(q) && !q.consumer.ReadPublish? && !q.consumer.PopPublish?)
                || (j == Count(q) && q.producer.WritePublish?)
    {
      assert q.slots[Nth(size, q.readIndex, j)] == SlotAt(q, j);
    }
  }

  /** In every reachable state: the slot the producer is about to construct in is dead, the slot the
      consumer is about to touch holds the oldest queued value, `popFront` finds the queue non-empty. */
  lemma SlotsAreSafe<T>(size: nat, actions: seq<Action<T>>)
    requires 2 <= size
    ensures Inv(Empty<T>(size))
    ensures var q := Run(Empty<T>(size), actions);
            && (q.producer.WriteConstruct? ==> q.producer.at < size && q.slots[q.producer.at] == Dead)
            && Touches(q)
            && ((q.consumer.ReadMove? || q.consumer.PopDestroy? || q.consumer.HasFront?) ==>
                  Count(q) > 0 && q.slots[q.consumer.at] == Live(Queued(q)[0]))
  {
    InvEmpty<T>(size);
    var q := Run(Empty<T>(size), actions);
    assert Inv(q);
    InvTouches(q);
    assert q.slots[Nth(size, q.readIndex, 0)] == SlotAt(q, 0);
    assert q.slots[Nth(size, q.readIndex, Count(q))] == SlotAt(q, Count(q));
  }

  /** In every reachable state: `write` refuses exactly when size - 1 values are queued, `read` and `frontPtr` find
      nothing exactly when none is, and what `read` hands out is the oldest value. */
  lemma AnswersAreExact<T>(size: nat, actions: seq<Action<T>>)
    requires 2 <= size
    ensures Inv(Empty<T>(size))
    ensures var q := Run(Empty<T>(size), actions);
            && Touches(q)
            && (q.producer.WriteCheck? ==> (Produce(q).producer.ProducerIdle? <==> |Queued(q)| == size - 1))
            && (q.consumer.ReadCheck? || q.consumer.FrontCheck? ==>
                  (Consume(q).consumer.ConsumerIdle? <==> Queued(q) == []))
            && (q.consumer.ReadMove? ==>
                  Queued(q) != [] && Consume(q).consumer == ReadDestroy(q.readIndex, Queued(q)[0]))
  {
    InvEmpty<T>(size);
    var q := Run(Empty<T>(size), actions);
    assert Inv(q);
    InvTouches(q);
    assert q.slots[Nth(size, q.readIndex, 0)] == SlotAt(q, 0);
  }

  predicate OfProducer<T>(a: Action<T>) {
    a.StartWrite? || a.ProducerStep?
  }

  /** While only the producer runs, the queue only grows; while only the consumer runs, it only shrinks. */
  lemma {:induction false} OneSided<T>(q: Queue<T>, actions: seq<Action<T>>, producing: bool)
    requires Inv(q) && forall a <- actions :: OfProducer(a) == producing
    ensures var q' := Run(q, actions);
            if producing then q'.readIndex == q.readIndex && q'.taken == q.taken && Count(q') >= Count(q)
            else q'.writeIndex == q.writeIndex && q'.written == q.written && Count(q') <= Count(q)
    decreases |actions|
  {
    if actions != [] {
      assert OfProducer(actions[0]) == producing by { assert actions[0] in actions; }
      OneSidedStep(q, actions[0]);
      hide Step, Inv, Count, OfProducer;
      OneSided(Step(q, actions[0]), actions[1..], producing);
    }
  }

  lemma OneSidedStep<T>(q: Queue<T>, a: Action<T>)
    requires Inv(q)
    ensures Inv(Step(q, a))
    ensures var q' := Step(q, a);
            if OfProducer(a) then q'.readIndex == q.readIndex && q'.taken == q.taken && Count(q') >= Count(q)
            else q'.writeIndex == q.writeIndex && q'.written == q.written && Count(q') <= Count(q)
  {
    InvStep(q, a);
    InvTouches(q);
    hide SlotsInv;
  }

  const TWO_31: nat := 0x8000_0000
  const TWO_32: nat := 0x1_0000_0000

  /** Conversion of an unsigned 32-bit value to `int`. */
  function ToInt32(u: int): int {
    var m := u % TWO_32;
    if m < TWO_31 then m else m - TWO_32
  }

  /** `sizeGuess` on the two index values it loaded, with the source's 32-bit arithmetic; a negative
      `int` becomes a huge `size_t`. */
  function SizeGuess(size: nat, w: nat, r: nat): int {
    var ret := ToInt32(w - r);
    var guess := if ret < 0 then ToInt32(ret + size) else ret;
    if guess < 0 then guess + TWO_32 * TWO_32 else guess
  }

  /** The guess is the true distance for all pairs of indices exactly up to size 2^31. */
  lemma SizeGuessExact(size: nat)
    requires 2 <= size < TWO_32
    ensures (forall r: nat, w: nat :: r < size && w < size ==> SizeGuess(size, w, r) == Distance(size, r, w))
            <==> size <= TWO_31
  {
    if size > TWO_31 {
      assert SizeGuess(size, TWO_31, 0) != Distance(size, 0, TWO_31);
    }
  }

  /** What is returned is a `size_t`, whatever was loaded. */
  lemma SizeGuessIsSizeT(size: nat, w: nat, r: nat)
    ensures 0 <= SizeGuess(size, w, r) < TWO_32 * TWO_32
  {
  }

  /** Called by the consumer, with the write index loaded in `q` and the producer running on since, the
      guess is at most the true size; called by the producer, with the read index loaded in `q` and the
      consumer running on since, it is at least the true size. */
  lemma SizeGuessBounds<T>(q: Queue<T>, actions: seq<Action<T>>, producing: bool)
    requires Inv(q) && |q.slots| <= TWO_31
    requires forall a <- actions :: OfProducer(a) == producing
    ensures var q' := Run(q, actions);
            if producing then SizeGuess(|q.slots|, q.writeIndex, q'.readIndex) <= Count(q')
            else SizeGuess(|q.slots|, q'.writeIndex, q.readIndex) >= Count(q')
  {
    SizeGuessExact(|q.slots|);
    OneSided(q, actions, producing);
  }

  /** Once `isFull` has told the producer that it is not full, a `write` started later passes its check, whatever the
      consumer does in between. */
  lemma NotFullStays<T>(q: Queue<T>, actions: seq<Action<T>>, item: T)
    requires Inv(q) && q.producer.ProducerIdle? && Advance(|q.slots|, q.writeIndex) != q.readIndex
    requires forall a <- actions :: !OfProducer(a)
    ensures var q' := Run(q, actions);
            && q'.producer.ProducerIdle?
            && Produce(Step(q', StartWrite(item))).producer == WriteConstruct(item, q.writeIndex)
  {
    OneSided(q, actions, false);
    ConsumerLeavesProducer(q, actions);
  }

  lemma {:induction false} ConsumerLeavesProducer<T>(q: Queue<T>, actions: seq<Action<T>>)
    requires Inv(q) && forall a <- actions :: !OfProducer(a)
    ensures Run(q, actions).producer == q.producer
    decreases |actions|
  {
    if actions != [] {
      assert !OfProducer(actions[0]) by { assert actions[0] in actions; }
      InvStep(q, actions[0]);
      ConsumerLeavesProducer(Step(q, actions[0]), actions[1..]);
    }
  }

  // ---------------------------------------------------------------------------------------------
  // Every operation comes to its end, and does there what it is for
  // ---------------------------------------------------------------------------------------------

  /** How many steps of the producer, or of the consumer, are among the actions. */
  function Steps<T>(actions: seq<Action<T>>, producer: bool): nat {
    if actions == [] then 0
    else
      var counts := if producer then actions[0].ProducerStep? else actions[0].ConsumerStep?;
      (if counts then 1 else 0) + Steps(actions[1..], producer)
  }

  /** Steps that a `write` past its check still takes. */
  function ToWrite<T>(p: Producer<T>): nat {
    match p
    case WriteConstruct(_, _) => 2
    case WritePublish(_, _) => 1
    case _ => 0
  }

  lemma {:induction false} WriteRuns<T>(q: Queue<T>, actions: seq<Action<T>>)
    requires Inv(q) && !q.producer.WriteCheck? && forall a <- actions :: !a.StartWrite?
    ensures var q', left := Run(q, actions), ToWrite(q.producer);
            && (q'.producer.ProducerIdle? <==> Steps(actions, true) >= left)
            && q'.written == q.written + if 0 < left <= Steps(actions, true) then [q.producer.item] else []
    decreases |actions|
  {
    assert q.written + [] == q.written;
    if actions != [] {
      assert !actions[0].StartWrite? by { assert actions[0] in actions; }
      WriteStep(q, actions[0]);
      hide Step, Inv;
      WriteRuns(Step(q, actions[0]), actions[1..]);
    }
  }

  lemma WriteStep<T>(q: Queue<T>, a: Action<T>)
    requires Inv(q) && !q.producer.WriteCheck? && !a.StartWrite?
    ensures var q' := Step(q, a);
            && Inv(q') && !q'.producer.WriteCheck?
            && if a.ProducerStep? && !q.producer.ProducerIdle? then
                 && ToWrite(q'.producer) == ToWrite(q.producer) - 1
                 && (q'.producer.ProducerIdle? || q'.producer.item == q.producer.item)
                 && q'.written == q.written + if q'.producer.ProducerIdle? then [q.producer.item] else []
               else q'.producer == q.producer && q'.written == q.written
  {
    InvStep(q, a);
    hide SlotsInv;
    InvTouches(q);
  }

  /** `write` in every run: it is refused exactly when size - 1 values are queued at its check, and then changes
      nothing; otherwise it is over exactly after two more steps of the producer, whatever the consumer does in between,
      and then its value, once, is what was written last. */
  lemma WriteCompletes<T>(q: Queue<T>, item: T, before: seq<Action<T>>, after: seq<Action<T>>)
    requires Inv(q) && q.producer.ProducerIdle?
    requires (forall a <- before :: !OfProducer(a)) && (forall a <- after :: !a.StartWrite?)
    ensures Inv(Step(q, StartWrite(item)))
    ensures var q1 := Run(Step(q, StartWrite(item)), before);
            && Inv(Step(q1, ProducerStep))
            && var q2 := Run(Step(q1, ProducerStep), after);
               if |Queued(q1)| == |q.slots| - 1 then q2.producer.ProducerIdle? && q2.written == q.written
               else
                 && (q2.producer.ProducerIdle? <==> Steps(after, true) >= 2)
                 && q2.written == q.written + if Steps(after, true) >= 2 then [item] else []
  {
    InvStep(q, StartWrite(item));
    var q0 := Step(q, StartWrite(item));
    var q1 := Run(q0, before);
    OneSided(q0, before, false);
    ConsumerLeavesProducer(q0, before);
    InvStep(q1, ProducerStep);
    CheckDecides(q1);
    WriteRuns(Step(q1, ProducerStep), after);
  }

  lemma CheckDecides<T>(q: Queue<T>)
    requires Inv(q) && q.producer.WriteCheck?
    ensures var q' := Step(q, ProducerStep);
            && q'.written == q.written
            && q'.producer == if |Queued(q)| == |q.slots| - 1 then ProducerIdle
                              else WriteConstruct(q.producer.item, q.producer.at)
  {
  }

  /** Steps that a `read` past its check, or a `popFront`, still takes. */
  function ToTake<T>(c: Consumer<T>): nat {
    match c
    case ReadMove(_) => 3
    case ReadDestroy(_, _) => 2
    case ReadPublish(_, _) => 1
    case PopCheck(_) => 3
    case PopDestroy(_) => 2
    case PopPublish(_, _) => 1
    case _ => 0
  }

  predicate Taking<T>(c: Consumer<T>) {
    c.ConsumerIdle? || ToTake(c) > 0
  }

  lemma TakeStep<T>(q: Queue<T>, a: Action<T>)
    requires Inv(q) && Taking(q.consumer) && (OfProducer(a) || a.ConsumerStep?)
    ensures ToTake(q.consumer) > 0 ==> Queued(q) != []
    ensures var q' := Step(q, a);
            && Inv(q') && Taking(q'.consumer) && q.written <= q'.written
            && if a.ConsumerStep? && !q.consumer.ConsumerIdle? then
                 && ToTake(q'.consumer) == ToTake(q.consumer) - 1
                 && q'.taken == q.taken + if q'.consumer.ConsumerIdle? then [q.written[|q.taken|]] else []
               else q'.consumer == q.consumer && q'.taken == q.taken
  {
    InvStep(q, a);
    InvTouches(q);
    hide SlotsInv;
  }

  lemma {:induction false} TakeRuns<T>(q: Queue<T>, actions: seq<Action<T>>)
    requires Inv(q) && Taking(q.consumer) && forall a <- actions :: OfProducer(a) || a.ConsumerStep?
    ensures ToTake(q.consumer) > 0 ==> Queued(q) != []
    ensures var q', left := Run(q, actions), ToTake(q.consumer);
            && (q'.consumer.ConsumerIdle? <==> Steps(actions, false) >= left)
            && q'.taken == q.taken + if 0 < left <= Steps(actions, false) then [q.written[|q.taken|]] else []
    decreases |actions|
  {
    assert q.taken + [] == q.taken;
    TakeStep(q, ConsumerStep);
    if actions != [] {
      assert OfProducer(actions[0]) || actions[0].ConsumerStep? by { assert actions[0] in actions; }
      TakeStep(q, actions[0]);
      hide Step, Inv;
      TakeRuns(Step(q, actions[0]), actions[1..]);
    }
  }

  /** `read` in every run: it finds nothing exactly when nothing is queued at its check, and then changes nothing;
      otherwise it is over exactly after three more steps of the consumer, whatever the producer does in between, and
      then the oldest value at the check, once, is what was taken last. */
  lemma ReadCompletes<T>(q: Queue<T>, before: seq<Action<T>>, after: seq<Action<T>>)
    requires Inv(q) && (q.consumer.ConsumerIdle? || q.consumer.HasFront?)
    requires (forall a <- before :: OfProducer(a)) && (forall a <- after :: OfProducer(a) || a.ConsumerStep?)
    ensures Inv(Step(q, StartRead))
    ensures var q1 := Run(Step(q, StartRead), before);
            && Inv(Step(q1, ConsumerStep))
            && var q2 := Run(Step(q1, ConsumerStep), after);
               if Queued(q1) == [] then q2.consumer.ConsumerIdle? && q2.taken == q.taken
               else
                 && (q2.consumer.ConsumerIdle? <==> Steps(after, false) >= 3)
                 && q2.taken == q.taken + if Steps(after, false) >= 3 then [Queued(q1)[0]] else []
  {
    InvStep(q, StartRead);
    var q0 := Step(q, StartRead);
    var q1 := Run(q0, before);
    OneSided(q0, before, true);
    ProducerLeavesConsumer(q0, before);
    InvStep(q1, ConsumerStep);
    FindsOldest(q1);
    TakeRuns(Step(q1, ConsumerStep), after);
  }

  lemma FindsOldest<T>(q: Queue<T>)
    requires Inv(q) && (q.consumer.ReadCheck? || q.consumer.FrontCheck?)
    ensures var q' := Step(q, ConsumerStep);
            && q'.taken == q.taken && q'.written == q.written && q'.slots == q.slots
            && q'.consumer == if Queued(q) == [] then ConsumerIdle
                              else if q.consumer.ReadCheck? then ReadMove(q.readIndex) else HasFront(q.readIndex)
  {
  }

  lemma {:induction false} ProducerLeavesConsumer<T>(q: Queue<T>, actions: seq<Action<T>>)
    requires Inv(q) && forall a <- actions :: OfProducer(a)
    ensures Run(q, actions).consumer == q.consumer
    decreases |actions|
  {
    if actions != [] {
      assert OfProducer(actions[0]) by { assert actions[0] in actions; }
      InvStep(q, actions[0]);
      ProducerLeavesConsumer(Step(q, actions[0]), actions[1..]);
    }
  }

  /** `frontPtr`: null exactly when nothing is queued at its check; otherwise, until the consumer starts something else,
      the pointer is to the oldest value, whatever the producer does. */
  lemma FrontStays<T>(q: Queue<T>, before: seq<Action<T>>, after: seq<Action<T>>)
    requires Inv(q) && (q.consumer.ConsumerIdle? || q.consumer.HasFront?)
    requires (forall a <- before :: OfProducer(a)) && (forall a <- after :: OfProducer(a))
    ensures Inv(Step(q, StartFront))
    ensures var q1 := Run(Step(q, StartFront), before);
            && Inv(Step(q1, ConsumerStep))
            && var q2 := Run(Step(q1, ConsumerStep), after);
               if Queued(q1) == [] then q2.consumer.ConsumerIdle?
               else
                 && q2.consumer == HasFront(q1.readIndex) && q1.readIndex < |q2.slots|
                 && q2.slots[q1.readIndex] == Live(Queued(q1)[0])
  {
    InvStep(q, StartFront);
    var q0 := Step(q, StartFront);
    var q1 := Run(q0, before);
    OneSided(q0, before, true);
    ProducerLeavesConsumer(q0, before);
    InvStep(q1, ConsumerStep);
    FindsOldest(q1);
    var found := Step(q1, ConsumerStep);
    OneSided(found, after, true);
    ProducerLeavesConsumer(found, after);
    OnlyAdds(found, after);
    var q2 := Run(found, after);
    if Queued(q1) != [] {
      InvTouches(q2);
      assert q2.slots[Nth(|q2.slots|, q2.readIndex, 0)] == SlotAt(q2, 0);
    }
  }

  lemma {:induction false} OnlyAdds<T>(q: Queue<T>, actions: seq<Action<T>>)
    requires Inv(q)
    ensures q.written <= Run(q, actions).written
    decreases |actions|
  {
    if actions != [] {
      InvStep(q, actions[0]);
      StepAdds(q, actions[0]);
      OnlyAdds(Step(q, actions[0]), actions[1..]);
    }
  }

  lemma StepAdds<T>(q: Queue<T>, a: Action<T>)
    requires Inv(q)
    ensures q.written <= Step(q, a).written
  {
  }

  /** `popFront` in every run: it is over exactly after three more steps of the consumer, and then the value that
      `frontPtr` showed, once, is what was taken last. */
  lemma PopCompletes<T>(q: Queue<T>, after: seq<Action<T>>)
    requires Inv(q) && q.consumer.HasFront? && forall a <- after :: OfProducer(a) || a.ConsumerStep?
    ensures Inv(Step(q, StartPop)) && Queued(q) != []
    ensures var q2 := Run(Step(q, StartPop), after);
            && (q2.consumer.ConsumerIdle? <==> Steps(after, false) >= 3)
            && q2.taken == q.taken + if Steps(after, false) >= 3 then [Queued(q)[0]] else []
  {
    InvStep(q, StartPop);
    TakeRuns(Step(q, StartPop), after);
  }

  /** The queue object: each method is one atomic section of `write`, `read`, `frontPtr` or `popFront`,
      performed in place; `View` is the state of the machine above. */
  class ProducerConsumerQueue<T(0)> {
    const size: nat
    const records: array<Slot<T>>
    var readIndex: nat
    var writeIndex: nat
    var producer: Producer<T>
    var consumer: Consumer<T>
    ghost var written: seq<T>
    ghost var taken: seq<T>

    ghost function View(): Queue<T>
      reads this, records
    {
      Queue(records[..], readIndex, writeIndex, producer, consumer, written, taken)
    }

    ghost predicate Valid()
      reads this, records
    {
      records.Length == size && Inv(View())
    }

    constructor (size: nat)
      requires 2 <= size
      ensures Valid() && View() == Empty(size) && fresh(records)
    {
      this.size := size;
      records := new Slot<T>[size](_ => Dead);
      readIndex, writeIndex := 0, 0;
      producer, consumer := ProducerIdle, ConsumerIdle;
      written, taken := [], [];
      new;
      assert records[..] == Empty<T>(size).slots;
      InvEmpty<T>(size);
    }

    /** `write` loads its own index. */
    method StartWrite(item: T)
      requires Valid() && producer.ProducerIdle?
      modifies this`producer
      ensures Valid() && View() == Step(old(View()), Action.StartWrite(item))
    {
      InvStep(View(), Action.StartWrite(item));
      producer := WriteCheck(item, writeIndex);
    }

    /** `write` compares the next index with the read index, constructs, publishes. */
    method ProducerStep()
      requires Valid()
      modifies this`producer, this`writeIndex, this`written, records
      ensures Valid() && View() == Step(old(View()), Action.ProducerStep)
    {
      InvStep(View(), Action.ProducerStep);
      assert producer.WriteConstruct? ==> producer.at < size;
      hide Inv;
      match producer {
        case ProducerIdle =>
        case WriteCheck(item, at) =>
          var next := at + 1;
          if next == size { next := 0; }
          producer := if next != readIndex then WriteConstruct(item, at) else ProducerIdle;
        case WriteConstruct(item, at) =>
          records[at] := Live(item);
          producer := WritePublish(item, at);
        case WritePublish(item, at) =>
          var next := at + 1;
          if next == size { next := 0; }
          writeIndex := next;
          written := written + [item];
          producer := ProducerIdle;
      }
    }

    /** `read`, `frontPtr` and `popFront` load their own index. */
    method StartConsumer(a: Action<T>)
      requires Valid() && (if a.StartPop? then consumer.HasFront?
                           else (a.StartRead? || a.StartFront?) && (consumer.ConsumerIdle? || consumer.HasFront?))
      modifies this`consumer
      ensures Valid() && View() == Step(old(View()), a)
    {
      InvStep(View(), a);
      consumer := match a
        case StartRead => ReadCheck(readIndex)
        case StartFront => FrontCheck(readIndex)
        case _ => PopCheck(readIndex);
    }

    /** The consumer's comparison with the write index, its move, its destruction, its publication. */
    method ConsumerStep()
      requires Valid()
      modifies this`consumer, this`readIndex, this`taken, records
      ensures Valid() && View() == Step(old(View()), Action.ConsumerStep)
    {
      InvStep(View(), Action.ConsumerStep);
      InvTouches(View());
      hide Inv;
      match consumer {
        case ConsumerIdle =>
        case HasFront(at) =>
        case ReadCheck(at) => consumer := if at == writeIndex then ConsumerIdle else ReadMove(at);
        case FrontCheck(at) => consumer := if at == writeIndex then ConsumerIdle else HasFront(at);
        case PopCheck(at) => consumer := PopDestroy(at);
        case ReadMove(at) =>
          consumer := ReadDestroy(at, records[at].value);
          records[at] := MovedFrom;
        case PopDestroy(at) =>
          consumer := PopPublish(at, records[at].value);
          records[at] := Dead;
        case ReadDestroy(at, item) =>
          consumer := ReadPublish(at, item);
          records[at] := Dead;
        case ReadPublish(at, item) => Publish(at, item);
        case PopPublish(at, item) => Publish(at, item);
      }
    }

    method Publish(at: nat, item: T)
      requires records.Length == size
      modifies this`consumer, this`readIndex, this`taken
      ensures View() == Retire(old(View()), at, item)
    {
      var next := at + 1;
      if next == size { next := 0; }
      readIndex := next;
      taken := taken + [item];
      consumer := ConsumerIdle;
    }

    /** The destructor, when both threads are done: visits each live slot once, in queue order, and
        leaves no object behind. */
    method Destroy() returns (destroyed: seq<nat>)
      requires Valid() && producer.ProducerIdle? && consumer.ConsumerIdle?
      modifies records
      ensures |destroyed| == Count(old(View()))
      ensures forall j: nat :: j < |destroyed| ==>
                destroyed[j] == Nth(size, readIndex, j)
                && old(View()).slots[Nth(size, readIndex, j)] == Live(Queued(old(View()))[j])
      ensures forall i, j :: 0 <= i < j < |destroyed| ==> destroyed[i] != destroyed[j]
      ensures forall i :: 0 <= i < size ==> records[i] == Dead
    {
      ghost var before := View();
      LiveSlots(before);
      hide ProducerInv, ConsumerInv;
      destroyed := DestroyRange();
      forall i | 0 <= i < size ensures records[i] == Dead {
        assert before.slots[Nth(size, readIndex, Position(i))] == SlotAt(before, Position(i));
      }
    }

    /** The destructor's loop. */
    method DestroyRange() returns (destroyed: seq<nat>)
      requires records.Length == size && readIndex < size && writeIndex < size
      modifies records
      ensures |destroyed| == Distance(size, readIndex, writeIndex)
      ensures forall j: nat :: j < |destroyed| ==> destroyed[j] == Nth(size, readIndex, j)
      ensures forall i :: 0 <= i < size ==>
                records[i] == if Position(i) < |destroyed| then Dead else old(records[i])
    {
      var at, end := readIndex, writeIndex;
      destroyed := [];
      while at != end
        invariant |destroyed| <= Distance(size, readIndex, end) && at == Nth(size, readIndex, |destroyed|) && at < size
        invariant forall j: nat :: j < |destroyed| ==> destroyed[j] == Nth(size, readIndex, j)
        invariant forall i :: 0 <= i < size ==>
                    records[i] == if Position(i) < |destroyed| then Dead else old(records[i])
        decreases Distance(size, readIndex, end) - |destroyed|
      {
        records[at] := Dead;
        destroyed := destroyed + [at];
        at := at + 1;
        if at == size { at := 0; }
      }
    }

    /** How far slot `i` is from the read index, going round. */
    ghost function Position(i: nat): nat
      reads this
      requires i < size && readIndex < size
    {
      if i >= readIndex then i - readIndex else i + size - readIndex
    }
  }

  lemma LiveSlots<T>(q: Queue<T>)
    requires Inv(q) && q.producer.ProducerIdle? && q.consumer.ConsumerIdle?
    ensures forall j: nat :: j < Count(q) ==> q.slots[Nth(|q.slots|, q.readIndex, j)] == Live(Queued(q)[j])
  {
    forall j: nat | j < Count(q) ensures q.slots[Nth(|q.slots|, q.readIndex, j)] == Live(Queued(q)[j]) {
      assert q.slots[Nth(|q.slots|, q.readIndex, j)] == SlotAt(q, j);
    }
  }
}
