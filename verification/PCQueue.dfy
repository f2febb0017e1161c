/**
 The semaphore ring buffer as a state machine: any number of threads, any interleaving of their single steps.
 */
module PCQueues {
  import opened Powers
  import opened Wrappers

  /** Where a thread is inside Produce or Consume. A ticket says which read of the log the value came from. */
  datatype Thread<T> =
    | Idle
    | ProduceWait(val: T)      // before the semaphore of empty slots
    | ProduceLock(val: T)      // has taken an empty slot, before the mutex
    | ProduceWrite(val: T)     // inside the mutex, before the assignment
    | ProduceThrow             // the assignment threw
    | ProduceUnwind            // the empty slot is given back, still inside the mutex
    | ProduceAdvance           // assigned, before the pointer moves
    | ProduceUnlock            // before leaving the mutex
    | ProducePost              // before the semaphore of used slots goes up
    | ConsumeWait
    | ConsumeLock
    | ConsumeRead
    | ConsumeThrow
    | ConsumeUnwind
    | ConsumeAdvance(out: T, ticket: nat)
    | ConsumeUnlock(out: T, ticket: nat)
    | ConsumePost(out: T, ticket: nat)

  /** The mutexes name their owner. The two logs are the values assigned into and out of storage, in order. */
  datatype Queue<T> = Queue(
    empty: nat, used: nat, storage: seq<T>, produceAt: nat, consumeAt: nat,
    producer: int, consumer: int, threads: seq<Thread<T>>, written: seq<T>, read: seq<T>)

  const FREE: int := -1

  /** What a thread does next, where it has a choice; an assignment that throws may leave anything behind. */
  datatype Move<T> = Go | CallProduce(val: T) | CallConsume | Throw(left: T)

  // ----- steps -----

  predicate Enabled<T>(q: Queue<T>, i: nat, m: Move<T>)
  {
    i < |q.threads| && match q.threads[i]
      case Idle => m.CallProduce? || m.CallConsume?
      case ProduceWait(_) => m.Go? && q.empty > 0
      case ProduceLock(_) => m.Go? && q.producer == FREE
      case ProduceWrite(_) => (m.Go? || m.Throw?) && q.produceAt < |q.storage|
      case ConsumeWait => m.Go? && q.used > 0
      case ConsumeLock => m.Go? && q.consumer == FREE
      case ConsumeRead => (m.Go? || m.Throw?) && q.consumeAt < |q.storage|
      case _ => m.Go?
  }

  function Advance(at: nat, size: nat): nat
  {
    if at + 1 == size then 0 else at + 1
  }

  function Step<T>(q: Queue<T>, i: nat, m: Move<T>): Queue<T>
    requires Enabled(q, i, m)
  {
    match q.threads[i]
    case Idle => q.(threads := q.threads[i := if m.CallProduce? then ProduceWait(m.val) else ConsumeWait])
    case ProduceWait(v) => q.(empty := q.empty - 1, threads := q.threads[i := ProduceLock(v)])
    case ProduceLock(v) => q.(producer := i, threads := q.threads[i := ProduceWrite(v)])
    case ProduceWrite(v) =>
      if m.Throw? then q.(storage := q.storage[q.produceAt := m.left], threads := q.threads[i := ProduceThrow])
      else q.(storage := q.storage[q.produceAt := v], written := q.written + [v],
              threads := q.threads[i := ProduceAdvance])
    case ProduceThrow => q.(empty := q.empty + 1, threads := q.threads[i := ProduceUnwind])
    case ProduceUnwind => q.(producer := FREE, threads := q.threads[i := Idle])
    case ProduceAdvance => q.(produceAt := Advance(q.produceAt, |q.storage|), threads := q.threads[i := ProduceUnlock])
    case ProduceUnlock => q.(producer := FREE, threads := q.threads[i := ProducePost])
    case ProducePost => q.(used := q.used + 1, threads := q.threads[i := Idle])
    case ConsumeWait => q.(used := q.used - 1, threads := q.threads[i := ConsumeLock])
    case ConsumeLock => q.(consumer := i, threads := q.threads[i := ConsumeRead])
    case ConsumeRead =>
      if m.Throw? then q.(threads := q.threads[i := ConsumeThrow])
      else q.(read := q.read + [q.storage[q.consumeAt]],
              threads := q.threads[i := ConsumeAdvance(q.storage[q.consumeAt], |q.read|)])
    case ConsumeThrow => q.(used := q.used + 1, threads := q.threads[i := ConsumeUnwind])
    case ConsumeUnwind => q.(consumer := FREE, threads := q.threads[i := Idle])
    case ConsumeAdvance(v, k) =>
      q.(consumeAt := Advance(q.consumeAt, |q.storage|), threads := q.threads[i := ConsumeUnlock(v, k)])
    case ConsumeUnlock(v, k) => q.(consumer := FREE, threads := q.threads[i := ConsumePost(v, k)])
    case ConsumePost(_, _) => q.(empty := q.empty + 1, threads := q.threads[i := Idle])
  }

  predicate Initial<T>(q: Queue<T>)
  {
    && 0 < |q.storage| == q.empty && q.used == 0 && q.produceAt == 0 && q.consumeAt == 0
    && q.producer == FREE && q.consumer == FREE && q.written == [] && q.read == []
    && forall i :: 0 <= i < |q.threads| ==> q.threads[i].Idle?
  }

  // ----- counting threads -----

  /** The parts of an operation that matter for the accounts. */
  datatype Phase = Outside | Reserved | Stored | Claimed | Taken

  function PhaseOf<T>(t: Thread<T>): Phase
  {
    match t
    case ProduceLock(_) | ProduceWrite(_) | ProduceThrow => Reserved
    case ProduceAdvance | ProduceUnlock | ProducePost => Stored
    case ConsumeLock | ConsumeRead | ConsumeThrow => Claimed
    case ConsumeAdvance(_, _) | ConsumeUnlock(_, _) | ConsumePost(_, _) => Taken
    case _ => Outside
  }

  function Count<T>(threads: seq<Thread<T>>, p: Phase): nat
  {
    if threads == [] then 0
    else Count(threads[..|threads| - 1], p) + if PhaseOf(threads[|threads| - 1]) == p then 1 else 0
  }

  lemma {:induction false} CountUpdate<T>(threads: seq<Thread<T>>, i: nat, t: Thread<T>, p: Phase)
    requires i < |threads|
    ensures Count(threads[i := t], p)
         == Count(threads, p) - (if PhaseOf(threads[i]) == p then 1 else 0) + (if PhaseOf(t) == p then 1 else 0)
  {
    var n := |threads| - 1;
    var u := threads[i := t];
    if i == n {
      assert u[..n] == threads[..n];
    } else {
      assert u[..n] == threads[..n][i := t];
      CountUpdate(threads[..n], i, t, p);
    }
  }

  lemma {:induction false} CountAtLeast<T>(threads: seq<Thread<T>>, i: nat, p: Phase)
    requires i < |threads| && PhaseOf(threads[i]) == p
    ensures Count(threads, p) >= 1
  {
    var n := |threads| - 1;
    if i < n { CountAtLeast(threads[..n], i, p); }
  }

  lemma {:induction false} CountNone<T>(threads: seq<Thread<T>>, p: Phase)
    requires forall i :: 0 <= i < |threads| ==> PhaseOf(threads[i]) != p
    ensures Count(threads, p) == 0
  {
    if threads != [] { CountNone(threads[..|threads| - 1], p); }
  }

  // ----- the invariant -----

  predicate HoldsProducer<T>(t: Thread<T>)
  {
    t.ProduceWrite? || t.ProduceThrow? || t.ProduceUnwind? || t.ProduceAdvance? || t.ProduceUnlock?
  }

  predicate HoldsConsumer<T>(t: Thread<T>)
  {
    t.ConsumeRead? || t.ConsumeThrow? || t.ConsumeUnwind? || t.ConsumeAdvance? || t.ConsumeUnlock?
  }

  predicate ProducerMutex<T>(q: Queue<T>)
  {
    && (forall i :: 0 <= i < |q.threads| ==> (HoldsProducer(q.threads[i]) <==> q.producer == i))
    && FREE <= q.producer < |q.threads|
  }

  predicate ConsumerMutex<T>(q: Queue<T>)
  {
    && (forall i :: 0 <= i < |q.threads| ==> (HoldsConsumer(q.threads[i]) <==> q.consumer == i))
    && FREE <= q.consumer < |q.threads|
  }

  /** Mutual exclusion: exactly the owner is inside. */
  predicate Mutexes<T>(q: Queue<T>)
  {
    ProducerMutex(q) && ConsumerMutex(q)
  }

  /** Items stored and not read, and free slots, each accounted for by a semaphore and the threads in between. */
  predicate Accounts<T>(q: Queue<T>)
  {
    && |q.written| - |q.read| == q.used + Count(q.threads, Stored) + Count(q.threads, Claimed)
    && |q.storage| - (|q.written| - |q.read|) == q.empty + Count(q.threads, Reserved) + Count(q.threads, Taken)
  }

  function SlotOf(k: int, size: nat): nat
    requires 0 <= k && size > 0
  {
    k % size
  }

  predicate Pointers<T>(q: Queue<T>)
    requires 0 < |q.storage|
  {
    var w, r := |q.written|, |q.read|;
    var behindWrite := q.producer != FREE && 0 <= q.producer < |q.threads| && q.threads[q.producer].ProduceAdvance?;
    var behindRead := q.consumer != FREE && 0 <= q.consumer < |q.threads| && q.threads[q.consumer].ConsumeAdvance?;
    && (behindWrite ==> w > 0) && q.produceAt == SlotOf(if behindWrite then w - 1 else w, |q.storage|)
    && (behindRead ==> r > 0) && q.consumeAt == SlotOf(if behindRead then r - 1 else r, |q.storage|)
  }

  /** Everything read was written in that order, and everything unread is still in its slot. */
  predicate Contents<T(==)>(q: Queue<T>)
    requires 0 < |q.storage|
  {
    && |q.read| <= |q.written| && q.read == q.written[..|q.read|]
    && (forall k {:trigger q.written[k]} :: |q.read| <= k < |q.written| ==>
      q.storage[SlotOf(k, |q.storage|)] == q.written[k])
  }

  /** What a consumer is about to return is the value of its place in the order. */
  predicate Tickets<T(==)>(q: Queue<T>)
  {
    forall i :: 0 <= i < |q.threads| ==> match q.threads[i]
      case ConsumeAdvance(v, k) => k < |q.read| && v == q.read[k]
      case ConsumeUnlock(v, k) => k < |q.read| && v == q.read[k]
      case ConsumePost(v, k) => k < |q.read| && v == q.read[k]
      case _ => true
  }

  predicate Inv<T(==)>(q: Queue<T>)
  {
    0 < |q.storage| && Mutexes(q) && Accounts(q) && Pointers(q) && Contents(q) && Tickets(q)
  }

  lemma InitialInv<T>(q: Queue<T>)
    requires Initial(q)
    ensures Inv(q)
  {
    CountNone(q.threads, Reserved);
    CountNone(q.threads, Stored);
    CountNone(q.threads, Claimed);
    CountNone(q.threads, Taken);
    DivModUnique(0, |q.storage|, 0, 0);
  }

  lemma StepProducerMutex<T>(q: Queue<T>, i: nat, m: Move<T>)
    requires ProducerMutex(q) && Enabled(q, i, m)
    ensures ProducerMutex(Step(q, i, m))
  {
  }

  lemma StepConsumerMutex<T>(q: Queue<T>, i: nat, m: Move<T>)
    requires ConsumerMutex(q) && Enabled(q, i, m)
    ensures ConsumerMutex(Step(q, i, m))
  {
  }

  lemma StepMutexes<T>(q: Queue<T>, i: nat, m: Move<T>)
    requires Mutexes(q) && Enabled(q, i, m)
    ensures Mutexes(Step(q, i, m))
  {
    StepProducerMutex(q, i, m);
    StepConsumerMutex(q, i, m);
  }

  lemma StepAccounts<T>(q: Queue<T>, i: nat, m: Move<T>)
    requires Inv(q) && Enabled(q, i, m)
    ensures Accounts(Step(q, i, m))
  {
    hide Mutexes, Pointers, Contents, Tickets, Count;
    var t := Step(q, i, m).threads[i];
    CountUpdate(q.threads, i, t, Reserved);
    CountUpdate(q.threads, i, t, Stored);
    CountUpdate(q.threads, i, t, Claimed);
    CountUpdate(q.threads, i, t, Taken);
  }

  lemma SlotAdvances(k: nat, size: nat)
    requires size > 0
    ensures SlotOf(k, size) < size && SlotOf(k + 1, size) == Advance(SlotOf(k, size), size)
  {
    DivModFacts(k, size);
    var d, r := k / size, k % size;
    if r + 1 == size {
      MulDistrib(size, d, 1);
      DivModUnique(k + 1, size, d + 1, 0);
    } else {
      DivModUnique(k + 1, size, d, r + 1);
    }
  }

  lemma StepPointers<T>(q: Queue<T>, i: nat, m: Move<T>)
    requires Inv(q) && Enabled(q, i, m)
    ensures Pointers(Step(q, i, m))
  {
    hide Accounts, Contents, Tickets, SlotOf;
    var w, r := |q.written|, |q.read|;
    if q.threads[i].ProduceAdvance? { SlotAdvances(w - 1, |q.storage|); }
    if q.threads[i].ConsumeAdvance? { SlotAdvances(r - 1, |q.storage|); }
  }

  /** Numbers less than a whole turn apart have different slots. */
  lemma SlotsApart(j: nat, k: nat, size: nat)
    requires j < k < j + size
    ensures SlotOf(j, size) != SlotOf(k, size)
  {
    DivModFacts(j, size);
    DivModFacts(k, size);
    if j % size == k % size {
      var d := k / size - j / size;
      assert d * size == k - j by { MulDistrib(size, d, j / size); }
      if d <= 0 { MulMonotone(d, 0, size); } else { MulMonotone(1, d, size); }
    }
  }

  /**
   Safety: a thread about to assign has a slot that holds no unread value, a thread about to read has a slot that
   holds the oldest unread value.
   */
  lemma SlotIsRight<T>(q: Queue<T>, i: nat)
    requires Inv(q) && i < |q.threads|
    ensures q.threads[i].ProduceWrite? ==>
      && q.produceAt == SlotOf(|q.written|, |q.storage|) < |q.storage|
      && forall k :: |q.read| <= k < |q.written| ==> SlotOf(k, |q.storage|) != q.produceAt
    ensures q.threads[i].ConsumeRead? ==>
      q.consumeAt < |q.storage| && |q.read| < |q.written| && q.storage[q.consumeAt] == q.written[|q.read|]
  {
    hide Tickets, Count, SlotOf;
    if q.threads[i].ProduceWrite? {
      CountAtLeast(q.threads, i, Reserved);
      SlotAdvances(|q.written|, |q.storage|);
      forall k | |q.read| <= k < |q.written| ensures SlotOf(k, |q.storage|) != q.produceAt {
        SlotsApart(k, |q.written|, |q.storage|);
      }
    }
    if q.threads[i].ConsumeRead? {
      CountAtLeast(q.threads, i, Claimed);
      SlotAdvances(|q.read|, |q.storage|);
      assert q.storage[SlotOf(|q.read|, |q.storage|)] == q.written[|q.read|];
    }
  }

  lemma StepContents<T>(q: Queue<T>, i: nat, m: Move<T>)
    requires Inv(q) && Enabled(q, i, m)
    ensures Contents(Step(q, i, m))
  {
    SlotIsRight(q, i);
    hide Mutexes, Accounts, Pointers, Tickets, Count, SlotOf;
    var p := Step(q, i, m);
    if q.threads[i].ConsumeRead? && m.Go? {
      assert q.written[..|q.read| + 1] == q.written[..|q.read|] + [q.written[|q.read|]];
    }
    if q.threads[i].ProduceWrite? && m.Go? {
      assert p.written[..|q.read|] == q.written[..|q.read|];
    }
  }

  lemma StepTickets<T>(q: Queue<T>, i: nat, m: Move<T>)
    requires Inv(q) && Enabled(q, i, m)
    ensures Tickets(Step(q, i, m))
  {
    hide Mutexes, Accounts, Pointers, Contents;
  }

  /** Every step of every thread keeps the invariant. */
  lemma StepInv<T>(q: Queue<T>, i: nat, m: Move<T>)
    requires Inv(q) && Enabled(q, i, m)
    ensures Inv(Step(q, i, m))
  {
    StepMutexes(q, i, m);
    StepAccounts(q, i, m);
    StepPointers(q, i, m);
    StepContents(q, i, m);
    StepTickets(q, i, m);
    hide Mutexes, Accounts, Pointers, Contents, Tickets;
  }

  // ----- whole runs -----

  /** A run: who moved and how, one after the other. */
  ghost predicate Run<T(!new)>(q: Queue<T>, moves: seq<(nat, Move<T>)>, end: Queue<T>)
    decreases |moves|
  {
    if moves == [] then end == q
    else Enabled(q, moves[0].0, moves[0].1) && Run(Step(q, moves[0].0, moves[0].1), moves[1..], end)
  }

  lemma {:induction false} RunInv<T(!new)>(q: Queue<T>, moves: seq<(nat, Move<T>)>, end: Queue<T>)
    requires Inv(q) && Run(q, moves, end)
    ensures Inv(end)
    decreases |moves|
  {
    if moves != [] {
      StepInv(q, moves[0].0, moves[0].1);
      hide Inv;
      RunInv(Step(q, moves[0].0, moves[0].1), moves[1..], end);
    }
  }

  /**
   After any run: values come out in the order they went in, and the semaphores together with the operations in
   progress account for every slot.
   */
  lemma RunDelivers<T(!new)>(q: Queue<T>, moves: seq<(nat, Move<T>)>, end: Queue<T>)
    requires Initial(q) && Run(q, moves, end)
    ensures |end.read| <= |end.written| && forall k :: 0 <= k < |end.read| ==> end.read[k] == end.written[k]
    ensures |end.written| - |end.read| <= |end.storage|
    ensures end.empty + end.used + Count(end.threads, Reserved) + Count(end.threads, Stored)
         + Count(end.threads, Claimed) + Count(end.threads, Taken) == |end.storage|
  {
    InitialInv(q);
    RunInv(q, moves, end);
  }

  // ----- what each call returns -----

  /** The value and the ticket that a call has taken and not returned yet. */
  function Carried<T>(t: Thread<T>): Option<(T, nat)>
  {
    match t
    case ConsumeAdvance(v, k) => Some((v, k))
    case ConsumeUnlock(v, k) => Some((v, k))
    case ConsumePost(v, k) => Some((v, k))
    case _ => None
  }

  /** The step that takes a value leaves its own thread with that value and the next ticket. */
  lemma TakeKeepsValue<T>(q: Queue<T>, i: nat, m: Move<T>)
    requires Inv(q) && Enabled(q, i, m) && EventOf(q, i, m).Dequeued?
    ensures Carried(Step(q, i, m).threads[i]) == Some((EventOf(q, i, m).val, |q.read|))
    ensures |q.read| < |q.written| && EventOf(q, i, m).val == q.written[|q.read|]
  {
    SlotIsRight(q, i);
  }

  /** Nobody changes what a call carries until the call returns it. */
  lemma CarriedStays<T>(q: Queue<T>, i: nat, m: Move<T>, j: nat)
    requires Enabled(q, i, m) && j < |q.threads| && Carried(q.threads[j]).Some?
    ensures Carried(Step(q, i, m).threads[j]) == Carried(q.threads[j])
         || (i == j && q.threads[j].ConsumePost? && Step(q, i, m).threads[j].Idle?)
  {
  }

  function Carries<T>(t: Thread<T>, k: nat): nat
  {
    if Carried(t).Some? && Carried(t).value.1 == k then 1 else 0
  }

  /** How many calls in progress carry ticket k. */
  function Held<T>(threads: seq<Thread<T>>, k: nat): nat
  {
    if threads == [] then 0 else Held(threads[..|threads| - 1], k) + Carries(threads[|threads| - 1], k)
  }

  lemma {:induction false} HeldUpdate<T>(threads: seq<Thread<T>>, i: nat, t: Thread<T>, k: nat)
    requires i < |threads|
    ensures Held(threads[i := t], k) + Carries(threads[i], k) == Held(threads, k) + Carries(t, k)
  {
    var n := |threads| - 1;
    var u := threads[i := t];
    if i == n {
      assert u[..n] == threads[..n];
    } else {
      assert u[..n] == threads[..n][i := t];
      HeldUpdate(threads[..n], i, t, k);
    }
  }

  lemma {:induction false} HeldNone<T>(threads: seq<Thread<T>>, k: nat)
    requires forall i :: 0 <= i < |threads| ==> Carried(threads[i]).None?
    ensures Held(threads, k) == 0
  {
    if threads != [] { HeldNone(threads[..|threads| - 1], k); }
  }

  /** The call that returns in a step, as what it returns and its ticket. */
  function ReturnedBy<T>(q: Queue<T>, i: nat, m: Move<T>): seq<(T, nat)>
    requires Enabled(q, i, m)
  {
    if q.threads[i].ConsumePost? then [(q.threads[i].out, q.threads[i].ticket)] else []
  }

  /** What the calls of a run return, in the order in which they return. */
  ghost function Returns<T(!new)>(q: Queue<T>, moves: seq<(nat, Move<T>)>, end: Queue<T>): seq<(T, nat)>
    requires Run(q, moves, end)
    decreases |moves|
  {
    if moves == [] then []
    else ReturnedBy(q, moves[0].0, moves[0].1) + Returns(Step(q, moves[0].0, moves[0].1), moves[1..], end)
  }

  /** How many of the returns have ticket k. */
  function TicketsIn<T>(s: seq<(T, nat)>, k: nat): nat
  {
    if s == [] then 0 else (if s[0].1 == k then 1 else 0) + TicketsIn(s[1..], k)
  }

  function Within(a: nat, k: nat, b: nat): nat
  {
    if a <= k < b then 1 else 0
  }

  lemma StepGivesTickets<T>(q: Queue<T>, i: nat, m: Move<T>, k: nat)
    requires Enabled(q, i, m)
    ensures |q.read| <= |Step(q, i, m).read|
    ensures Held(q.threads, k) + Within(|q.read|, k, |Step(q, i, m).read|)
         == TicketsIn(ReturnedBy(q, i, m), k) + Held(Step(q, i, m).threads, k)
  {
    hide Held;
    HeldUpdate(q.threads, i, Step(q, i, m).threads[i], k);
    var r := ReturnedBy(q, i, m);
    if r != [] { assert r[1..] == []; }
  }

  lemma TicketsJoin<T>(one: seq<(T, nat)>, more: seq<(T, nat)>, k: nat)
    requires |one| <= 1
    ensures TicketsIn(one + more, k) == TicketsIn(one, k) + TicketsIn(more, k)
  {
    if one == [] {
      assert one + more == more;
    } else {
      assert (one + more)[1..] == more && one[1..] == [];
    }
  }

  /** A ticket given out during a run is returned in it, or still carried at its end. */
  lemma {:induction false} RunTickets<T(!new)>(q: Queue<T>, moves: seq<(nat, Move<T>)>, end: Queue<T>, k: nat)
    requires Run(q, moves, end)
    ensures |q.read| <= |end.read|
    ensures Held(q.threads, k) + Within(|q.read|, k, |end.read|)
         == TicketsIn(Returns(q, moves, end), k) + Held(end.threads, k)
    decreases |moves|
  {
    if moves != [] {
      var p, one := Step(q, moves[0].0, moves[0].1), ReturnedBy(q, moves[0].0, moves[0].1);
      StepGivesTickets(q, moves[0].0, moves[0].1, k);
      RunTickets(p, moves[1..], end, k);
      hide Held, TicketsIn, Enabled, Step;
      TicketsJoin(one, Returns(p, moves[1..], end), k);
    }
  }

  /** A call returns the value of its ticket. */
  lemma {:induction false} ReturnsAreRead<T(!new)>(q: Queue<T>, moves: seq<(nat, Move<T>)>, end: Queue<T>)
    requires Inv(q) && Run(q, moves, end)
    ensures q.read <= end.read
    ensures forall r :: r in Returns(q, moves, end) ==> r.1 < |end.read| && end.read[r.1] == r.0
    decreases |moves|
  {
    if moves != [] {
      var p := Step(q, moves[0].0, moves[0].1);
      StepInv(q, moves[0].0, moves[0].1);
      ReadGrows(q, moves[0].0, moves[0].1);
      ReturnedIsRead(q, moves[0].0, moves[0].1);
      hide Inv, Enabled, Step;
      ReturnsAreRead(p, moves[1..], end);
    }
  }

  lemma ReadGrows<T>(q: Queue<T>, i: nat, m: Move<T>)
    requires Enabled(q, i, m)
    ensures q.read <= Step(q, i, m).read
  {
  }

  lemma ReturnedIsRead<T>(q: Queue<T>, i: nat, m: Move<T>)
    requires Inv(q) && Enabled(q, i, m)
    ensures forall r :: r in ReturnedBy(q, i, m) ==> r.1 < |q.read| && q.read[r.1] == r.0
  {
  }

  /**
   On every run from the start the calls return what was written, each place once: a ticket below the number of reads
   is returned once or still carried by one call, no other ticket is, and what a call returns is the value written at
   its ticket's place.
   */
  lemma CallsReturnEachOnce<T(!new)>(q: Queue<T>, moves: seq<(nat, Move<T>)>, end: Queue<T>)
    requires Initial(q) && Run(q, moves, end)
    ensures forall k: nat ::
      TicketsIn(Returns(q, moves, end), k) + Held(end.threads, k) == if k < |end.read| then 1 else 0
    ensures forall r :: r in Returns(q, moves, end) ==> r.1 < |end.written| && end.written[r.1] == r.0
  {
    InitialInv(q);
    RunDelivers(q, moves, end);
    ReturnsAreRead(q, moves, end);
    hide Inv;
    forall k: nat
      ensures TicketsIn(Returns(q, moves, end), k) + Held(end.threads, k) == if k < |end.read| then 1 else 0
    {
      RunTickets(q, moves, end, k);
      HeldNone(q.threads, k);
    }
  }

  // ----- what each call stores -----

  /** The value of a call that has not stored it yet. */
  function Pending<T>(t: Thread<T>): seq<T>
  {
    match t
    case ProduceWait(v) => [v]
    case ProduceLock(v) => [v]
    case ProduceWrite(v) => [v]
    case _ => []
  }

  /** What thread j passes in, in a step. */
  function PassedBy<T>(q: Queue<T>, i: nat, m: Move<T>, j: nat): seq<T>
    requires Enabled(q, i, m)
  {
    if i == j && m.CallProduce? then [m.val] else []
  }

  /** How a call of thread j ends, in a step: with a value stored, or thrown. */
  function FateBy<T>(q: Queue<T>, i: nat, m: Move<T>, j: nat): seq<Option<T>>
    requires Enabled(q, i, m)
  {
    if i != j then []
    else if EventOf(q, i, m).Enqueued? then [Some(EventOf(q, i, m).val)]
    else if m.Throw? && q.threads[i].ProduceWrite? then [None]
    else []
  }

  ghost function Passed<T(!new)>(q: Queue<T>, moves: seq<(nat, Move<T>)>, end: Queue<T>, j: nat): seq<T>
    requires Run(q, moves, end)
    decreases |moves|
  {
    if moves == [] then []
    else PassedBy(q, moves[0].0, moves[0].1, j) + Passed(Step(q, moves[0].0, moves[0].1), moves[1..], end, j)
  }

  ghost function Fates<T(!new)>(q: Queue<T>, moves: seq<(nat, Move<T>)>, end: Queue<T>, j: nat): seq<Option<T>>
    requires Run(q, moves, end)
    decreases |moves|
  {
    if moves == [] then []
    else FateBy(q, moves[0].0, moves[0].1, j) + Fates(Step(q, moves[0].0, moves[0].1), moves[1..], end, j)
  }

  /** What is stored in a run, by whomever. */
  ghost function StoredIn<T(!new)>(q: Queue<T>, moves: seq<(nat, Move<T>)>, end: Queue<T>): seq<(nat, T)>
    requires Run(q, moves, end)
    decreases |moves|
  {
    if moves == [] then []
    else
      var e := EventOf(q, moves[0].0, moves[0].1);
      (if e.Enqueued? then [(moves[0].0, e.val)] else [])
      + StoredIn(Step(q, moves[0].0, moves[0].1), moves[1..], end)
  }

  /** Each call stores its own value or throws; passed are the values, fates the ends, in the order of the calls. */
  ghost predicate Accounted<T>(passed: seq<T>, fates: seq<Option<T>>, left: seq<T>)
  {
    && |passed| == |fates| + |left| && passed[|fates|..] == left
    && forall k :: 0 <= k < |fates| && fates[k].Some? ==> fates[k].value == passed[k]
  }

  lemma StepAccounted<T>(q: Queue<T>, i: nat, m: Move<T>, j: nat)
    requires Enabled(q, i, m) && j < |q.threads|
    ensures Accounted(Pending(q.threads[j]) + PassedBy(q, i, m, j), FateBy(q, i, m, j),
                      Pending(Step(q, i, m).threads[j]))
  {
  }

  lemma JoinAccounted<T>(before: seq<T>, p1: seq<T>, f1: seq<Option<T>>, middle: seq<T>, p2: seq<T>,
                         f2: seq<Option<T>>, left: seq<T>)
    requires Accounted(before + p1, f1, middle) && Accounted(middle + p2, f2, left)
    ensures Accounted(before + (p1 + p2), f1 + f2, left)
  {
    var all := before + (p1 + p2);
    assert all == (before + p1) + p2;
    assert before + p1 == (before + p1)[..|f1|] + middle;
    assert all[|f1|..] == middle + p2;
    assert all[|f1| + |f2|..] == (middle + p2)[|f2|..];
    forall k | 0 <= k < |f1 + f2| && (f1 + f2)[k].Some? ensures (f1 + f2)[k].value == all[k] {
      if k >= |f1| { assert all[|f1|..][k - |f1|] == all[k]; }
    }
  }

  /**
   On every run the calls of a thread end in the order in which they were made, each with its own value stored, or
   thrown; at most the last one has not ended.
   */
  lemma {:induction false} CallsStoreTheirValues<T(!new)>(q: Queue<T>, moves: seq<(nat, Move<T>)>, end: Queue<T>,
                                                   j: nat)
    requires Run(q, moves, end) && j < |q.threads|
    ensures |end.threads| == |q.threads|
    ensures Accounted(Pending(q.threads[j]) + Passed(q, moves, end, j), Fates(q, moves, end, j),
                      Pending(end.threads[j]))
    decreases |moves|
  {
    if moves == [] {
      assert Pending(q.threads[j]) + [] == Pending(q.threads[j]);
    } else {
      var i, m := moves[0].0, moves[0].1;
      var p := Step(q, i, m);
      StepAccounted(q, i, m, j);
      assert |p.threads| == |q.threads|;
      CallsStoreTheirValues(p, moves[1..], end, j);
      hide Accounted, Enabled, Step, Pending;
      JoinAccounted(Pending(q.threads[j]), PassedBy(q, i, m, j), FateBy(q, i, m, j), Pending(p.threads[j]),
                    Passed(p, moves[1..], end, j), Fates(p, moves[1..], end, j), Pending(end.threads[j]));
    }
  }

  function Values<T>(s: seq<(nat, T)>): seq<T>
  {
    if s == [] then [] else [s[0].1] + Values(s[1..])
  }

  /** What was written is what the calls stored. */
  lemma {:induction false} WrittenIsStored<T(!new)>(q: Queue<T>, moves: seq<(nat, Move<T>)>, end: Queue<T>)
    requires Run(q, moves, end)
    ensures end.written == q.written + Values(StoredIn(q, moves, end))
    decreases |moves|
  {
    if moves == [] {
      assert q.written + [] == q.written;
    } else {
      var i, m := moves[0].0, moves[0].1;
      var p, e := Step(q, i, m), EventOf(q, i, m);
      WrittenIsStored(p, moves[1..], end);
      var rest := StoredIn(p, moves[1..], end);
      if e.Enqueued? {
        assert ([(i, e.val)] + rest)[1..] == rest;
        assert p.written == q.written + [e.val];
        assert q.written + ([e.val] + Values(rest)) == (q.written + [e.val]) + Values(rest);
      } else {
        assert p.written == q.written;
        assert [] + rest == rest;
      }
    }
  }

  // ----- the bounded first-in first-out queue it refines -----

  datatype Event<T> = Quiet | Enqueued(val: T) | Dequeued(val: T)

  function Abstract<T>(q: Queue<T>): seq<T>
    requires |q.read| <= |q.written|
  {
    q.written[|q.read|..]
  }

  function EventOf<T>(q: Queue<T>, i: nat, m: Move<T>): Event<T>
    requires Enabled(q, i, m)
  {
    match q.threads[i]
    case ProduceWrite(v) => if m.Throw? then Quiet else Enqueued(v)
    case ConsumeRead => if m.Throw? then Quiet else Dequeued(q.storage[q.consumeAt])
    case _ => Quiet
  }

  /** Each step is one step of a bounded queue: put at the back when there is room, take from the front, or nothing. */
  lemma StepRefines<T>(q: Queue<T>, i: nat, m: Move<T>)
    requires Inv(q) && Enabled(q, i, m)
    ensures var p := Step(q, i, m);
      && |p.read| <= |p.written|
      && match EventOf(q, i, m) {
        case Quiet => Abstract(p) == Abstract(q)
        case Enqueued(v) => |Abstract(q)| < |q.storage| && Abstract(p) == Abstract(q) + [v]
        case Dequeued(v) => Abstract(q) == [v] + Abstract(p)
      }
  {
    SlotIsRight(q, i);
    if q.threads[i].ProduceWrite? { CountAtLeast(q.threads, i, Reserved); }
    hide Mutexes, Pointers, Tickets, Count, SlotOf;
  }

  // ----- nothing lost, nobody stuck -----

  /** When no operation is in progress, failed ones included, the semaphores say exactly what is stored. */
  lemma Quiescent<T>(q: Queue<T>)
    requires Inv(q) && forall i :: 0 <= i < |q.threads| ==> q.threads[i].Idle?
    ensures q.used == |q.written| - |q.read| && q.empty == |q.storage| - q.used
    ensures q.producer == FREE && q.consumer == FREE
  {
    CountNone(q.threads, Reserved);
    CountNone(q.threads, Stored);
    CountNone(q.threads, Claimed);
    CountNone(q.threads, Taken);
    OwnersMove(q);
  }

  ghost predicate Stuck<T(!new)>(q: Queue<T>)
  {
    forall i: nat, m: Move<T> :: Enabled(q, i, m) ==> q.threads[i].Idle?
  }

  /**
   If no call in progress can move on, then all of them wait to produce into a full queue, or all of them wait to
   consume from an empty one.
   */
  lemma StuckMeansFullOrEmpty<T(!new)>(q: Queue<T>)
    requires Inv(q) && Stuck(q)
    ensures (forall i :: 0 <= i < |q.threads| ==> q.threads[i].Idle?)
      || (|Abstract(q)| == |q.storage| && forall i :: 0 <= i < |q.threads| ==>
        q.threads[i].Idle? || q.threads[i].ProduceWait?)
      || (Abstract(q) == [] && forall i :: 0 <= i < |q.threads| ==> q.threads[i].Idle? || q.threads[i].ConsumeWait?)
  {
    forall i | 0 <= i < |q.threads|
      ensures q.threads[i].Idle? || q.threads[i].ProduceWait? || q.threads[i].ConsumeWait?
    {
      StuckThread(q, i);
    }
    CountNone(q.threads, Reserved);
    CountNone(q.threads, Stored);
    CountNone(q.threads, Claimed);
    CountNone(q.threads, Taken);
    forall i | 0 <= i < |q.threads|
      ensures q.threads[i].ProduceWait? ==> q.empty == 0
      ensures q.threads[i].ConsumeWait? ==> q.used == 0
    {
      assert Enabled(q, i, Go) ==> q.threads[i].Idle?;
    }
  }

  lemma StuckThread<T(!new)>(q: Queue<T>, i: nat)
    requires Inv(q) && Stuck(q) && i < |q.threads|
    ensures q.threads[i].Idle? || q.threads[i].ProduceWait? || q.threads[i].ConsumeWait?
  {
    OwnersMove(q);
    SlotIsRight(q, i);
    hide Accounts, Contents, Tickets, Pointers;
    assert !Enabled(q, i, Go) || q.threads[i].Idle?;
  }

  /** Whoever is inside a mutex can always move on. */
  lemma OwnersMove<T>(q: Queue<T>)
    requires Inv(q)
    ensures q.producer != FREE ==> q.producer >= 0 && Enabled(q, q.producer, Go) && !q.threads[q.producer].Idle?
    ensures q.consumer != FREE ==> q.consumer >= 0 && Enabled(q, q.consumer, Go) && !q.threads[q.consumer].Idle?
  {
    if q.producer != FREE {
      assert HoldsProducer(q.threads[q.producer]);
      SlotIsRight(q, q.producer);
    }
    if q.consumer != FREE {
      assert HoldsConsumer(q.threads[q.consumer]);
      SlotIsRight(q, q.consumer);
    }
  }
}
