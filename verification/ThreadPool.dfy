/**
 The thread pool: producers, workers and the destructor over a bounded first-in first-out queue, which is what the
 ring buffer of module PCQueues refines. A request equal to poison tells one worker to return.
 */
module ThreadPools {

  datatype Worker<R> = Consuming | Handling(request: R) | Returned

  /**
   The producers still have lists of requests to hand in. The destructor hands in one poison for each worker and
   then joins the workers in order.
   */
  datatype Pool<R> = Pool(
    poison: R, capacity: nat, queue: seq<R>, producers: seq<seq<R>>, workers: seq<Worker<R>>,
    poisonsLeft: nat, joined: nat, handled: seq<R>)

  datatype Move = Produce(i: nat) | Poison | Take(i: nat) | Handle(i: nat) | Join

  ghost predicate ProducersDone<R>(p: Pool<R>)
  {
    forall i :: 0 <= i < |p.producers| ==> p.producers[i] == []
  }

  ghost predicate Enabled<R>(p: Pool<R>, m: Move)
  {
    match m
    case Produce(i) => i < |p.producers| && p.producers[i] != [] && |p.queue| < p.capacity
    case Poison => ProducersDone(p) && p.poisonsLeft > 0 && |p.queue| < p.capacity
    case Take(i) => i < |p.workers| && p.workers[i].Consuming? && p.queue != []
    case Handle(i) => i < |p.workers| && p.workers[i].Handling?
    case Join => ProducersDone(p) && p.poisonsLeft == 0 && p.joined < |p.workers| && p.workers[p.joined].Returned?
  }

  ghost function Step<R(!new)>(p: Pool<R>, m: Move): Pool<R>
    requires Enabled(p, m)
  {
    match m
    case Produce(i) =>
      p.(queue := p.queue + [p.producers[i][0]], producers := p.producers[i := p.producers[i][1..]])
    case Poison => p.(queue := p.queue + [p.poison], poisonsLeft := p.poisonsLeft - 1)
    case Take(i) =>
      p.(queue := p.queue[1..],
         workers := p.workers[i := if p.queue[0] == p.poison then Returned else Handling(p.queue[0])])
    case Handle(i) =>
      p.(handled := p.handled + [p.workers[i].request], workers := p.workers[i := Consuming])
    case Join => p.(joined := p.joined + 1)
  }

  ghost predicate Finished<R>(p: Pool<R>)
  {
    ProducersDone(p) && p.poisonsLeft == 0 && p.joined == |p.workers|
  }

  /** The start: workers ready, and no request looks like poison. */
  ghost predicate Initial<R(!new)>(p: Pool<R>)
  {
    && p.queue == [] && p.handled == [] && p.joined == 0 && p.poisonsLeft == |p.workers|
    && (forall i :: 0 <= i < |p.workers| ==> p.workers[i].Consuming?)
    && (forall i :: 0 <= i < |p.producers| ==> p.poison !in p.producers[i])
  }

  // ----- what is where -----

  /** All requests in a number of lists. */
  ghost function Together<R>(lists: seq<seq<R>>): multiset<R>
  {
    if lists == [] then multiset{} else Together(lists[..|lists| - 1]) + multiset(lists[|lists| - 1])
  }

  /** How many workers have the request in hand. */
  ghost function InHands<R>(workers: seq<Worker<R>>, r: R): nat
  {
    if workers == [] then 0
    else InHands(workers[..|workers| - 1], r) + if workers[|workers| - 1] == Handling(r) then 1 else 0
  }

  ghost function ReturnedCount<R>(workers: seq<Worker<R>>): nat
  {
    if workers == [] then 0
    else ReturnedCount(workers[..|workers| - 1]) + if workers[|workers| - 1].Returned? then 1 else 0
  }

  lemma {:induction false} TogetherUpdate<R(!new)>(lists: seq<seq<R>>, i: nat, l: seq<R>, r: R)
    requires i < |lists|
    ensures Together(lists[i := l])[r] + multiset(lists[i])[r] == Together(lists)[r] + multiset(l)[r]
  {
    var n := |lists| - 1;
    if i == n {
      assert lists[i := l][..n] == lists[..n];
    } else {
      assert lists[i := l][..n] == lists[..n][i := l];
      TogetherUpdate(lists[..n], i, l, r);
    }
  }

  lemma {:induction false} InHandsUpdate<R(!new)>(workers: seq<Worker<R>>, i: nat, w: Worker<R>, r: R)
    requires i < |workers|
    ensures InHands(workers[i := w], r)
         == InHands(workers, r) - (if workers[i] == Handling(r) then 1 else 0) + (if w == Handling(r) then 1 else 0)
  {
    var n := |workers| - 1;
    if i == n {
      assert workers[i := w][..n] == workers[..n];
    } else {
      assert workers[i := w][..n] == workers[..n][i := w];
      InHandsUpdate(workers[..n], i, w, r);
    }
  }

  lemma {:induction false} ReturnedUpdate<R(!new)>(workers: seq<Worker<R>>, i: nat, w: Worker<R>)
    requires i < |workers|
    ensures ReturnedCount(workers[i := w])
         == ReturnedCount(workers) - (if workers[i].Returned? then 1 else 0) + (if w.Returned? then 1 else 0)
  {
    var n := |workers| - 1;
    if i == n {
      assert workers[i := w][..n] == workers[..n];
    } else {
      assert workers[i := w][..n] == workers[..n][i := w];
      ReturnedUpdate(workers[..n], i, w);
    }
  }

  lemma {:induction false} NoneLeft<R(!new)>(lists: seq<seq<R>>)
    requires forall i :: 0 <= i < |lists| ==> lists[i] == []
    ensures Together(lists) == multiset{}
  {
    if lists != [] { NoneLeft(lists[..|lists| - 1]); }
  }

  lemma {:induction false} NobodyBusy<R(!new)>(workers: seq<Worker<R>>, r: R)
    requires forall i :: 0 <= i < |workers| ==> !workers[i].Handling?
    ensures InHands(workers, r) == 0
  {
    if workers != [] { NobodyBusy(workers[..|workers| - 1], r); }
  }

  lemma CountCons<R(!new)>(x: R, s: seq<R>, r: R)
    ensures multiset([x] + s)[r] == multiset(s)[r] + if x == r then 1 else 0
  {
  }

  lemma CountSnoc<R(!new)>(s: seq<R>, x: R, r: R)
    ensures multiset(s + [x])[r] == multiset(s)[r] + if x == r then 1 else 0
  {
  }

  lemma {:induction false} ReturnedBounds<R(!new)>(workers: seq<Worker<R>>)
    ensures ReturnedCount(workers) <= |workers|
    ensures ReturnedCount(workers) == |workers| <==> forall i :: 0 <= i < |workers| ==> workers[i].Returned?
    ensures ReturnedCount(workers) == 0 <==> forall i :: 0 <= i < |workers| ==> !workers[i].Returned?
  {
    if workers != [] {
      var n := |workers| - 1;
      ReturnedBounds(workers[..n]);
      assert forall i :: 0 <= i < n ==> workers[..n][i] == workers[i];
    }
  }

  // ----- the invariant -----

  /** Position k of the queue on is all poison, and nothing before it is. */
  ghost predicate RequestsThenPoison<R>(p: Pool<R>, k: nat)
  {
    && k <= |p.queue|
    && (forall i :: 0 <= i < k ==> p.queue[i] != p.poison)
    && (forall i :: k <= i < |p.queue| ==> p.queue[i] == p.poison)
  }

  /**
   Requests queue ahead of poison; poison handed in, queued and taken adds up; once a worker has returned no
   request is queued; and every request is in exactly one place.
   */
  ghost predicate Inv<R(!new)>(p: Pool<R>, requests: multiset<R>, k: nat)
  {
    && RequestsThenPoison(p, k)
    && p.poisonsLeft + (|p.queue| - k) + ReturnedCount(p.workers) == |p.workers|
    && (p.poisonsLeft < |p.workers| ==> ProducersDone(p))
    && (ReturnedCount(p.workers) > 0 ==> k == 0)
    && (forall i :: 0 <= i < |p.producers| ==> p.poison !in p.producers[i])
    && p.joined <= |p.workers| && (forall i :: 0 <= i < p.joined ==> p.workers[i].Returned?)
    && forall r :: requests[r] == Places(p, k, r)
  }

  /** How often a request occurs among those still to come, queued, in hand and handled. */
  ghost function Places<R>(p: Pool<R>, k: nat, r: R): nat
    requires k <= |p.queue|
  {
    Together(p.producers)[r] + multiset(p.queue[..k])[r] + InHands(p.workers, r) + multiset(p.handled)[r]
  }

  lemma InitialInv<R(!new)>(p: Pool<R>)
    requires Initial(p)
    ensures Inv(p, Together(p.producers), 0)
  {
    forall r ensures InHands(p.workers, r) == 0 { NobodyBusy(p.workers, r); }
    ReturnedBounds(p.workers);
  }

  lemma StepProduce<R(!new)>(p: Pool<R>, requests: multiset<R>, k: nat, i: nat)
    requires Inv(p, requests, k) && Enabled(p, Produce(i))
    ensures Inv(Step(p, Produce(i)), requests, k + 1)
  {
    var q, l := Step(p, Produce(i)), p.producers[i];
    assert k == |p.queue|;
    assert l == [l[0]] + l[1..];
    assert p.queue[..k] == p.queue && q.queue[..k + 1] == p.queue + [l[0]];
    forall r ensures Places(q, k + 1, r) == Places(p, k, r) {
      TogetherUpdate(p.producers, i, l[1..], r);
      CountCons(l[0], l[1..], r);
      CountSnoc(p.queue, l[0], r);
    }
  }

  lemma StepPoison<R(!new)>(p: Pool<R>, requests: multiset<R>, k: nat)
    requires Inv(p, requests, k) && Enabled(p, Poison)
    ensures Inv(Step(p, Poison), requests, k)
  {
    assert Step(p, Poison).queue[..k] == p.queue[..k];
  }

  lemma TakePlaces<R(!new)>(p: Pool<R>, k: nat, i: nat, r: R)
    requires RequestsThenPoison(p, k) && Enabled(p, Take(i))
    ensures Places(Step(p, Take(i)), if k > 0 then k - 1 else 0, r) == Places(p, k, r)
  {
    var q, k' := Step(p, Take(i)), if k > 0 then k - 1 else 0;
    QueueHead(p, k);
    InHandsUpdate(p.workers, i, q.workers[i], r);
    hide RequestsThenPoison, Together, InHands;
    if k > 0 {
      assert p.queue[..k] == [p.queue[0]] + q.queue[..k - 1];
      CountCons(p.queue[0], q.queue[..k - 1], r);
    }
  }

  lemma QueueHead<R(!new)>(p: Pool<R>, k: nat)
    requires RequestsThenPoison(p, k) && p.queue != []
    ensures p.queue[0] == p.poison <==> k == 0
  {
  }

  lemma StepTake<R(!new)>(p: Pool<R>, requests: multiset<R>, k: nat, i: nat)
    requires Inv(p, requests, k) && Enabled(p, Take(i))
    ensures Inv(Step(p, Take(i)), requests, if k > 0 then k - 1 else 0)
  {
    hide Places, Together, InHands;
    var q, k' := Step(p, Take(i)), if k > 0 then k - 1 else 0;
    ReturnedUpdate(p.workers, i, q.workers[i]);
    QueueHead(p, k);
    forall r ensures requests[r] == Places(q, k', r) { TakePlaces(p, k, i, r); }
  }

  lemma StepJoin<R(!new)>(p: Pool<R>, requests: multiset<R>, k: nat)
    requires Inv(p, requests, k) && Enabled(p, Join)
    ensures Inv(Step(p, Join), requests, k)
  {
    forall r ensures Places(Step(p, Join), k, r) == Places(p, k, r) {
    }
  }

  lemma StepHandle<R(!new)>(p: Pool<R>, requests: multiset<R>, k: nat, i: nat)
    requires Inv(p, requests, k) && Enabled(p, Handle(i))
    ensures Inv(Step(p, Handle(i)), requests, k)
  {
    var q := Step(p, Handle(i));
    ReturnedUpdate(p.workers, i, Consuming);
    forall r ensures Places(q, k, r) == Places(p, k, r) {
      InHandsUpdate(p.workers, i, Consuming, r);
      CountSnoc(p.handled, p.workers[i].request, r);
    }
  }

  lemma StepInv<R(!new)>(p: Pool<R>, requests: multiset<R>, k: nat, m: Move) returns (k': nat)
    requires Inv(p, requests, k) && Enabled(p, m)
    ensures Inv(Step(p, m), requests, k')
  {
    hide Inv, Step, Enabled;
    k' := k;
    match m {
      case Produce(i) => StepProduce(p, requests, k, i); k' := k + 1;
      case Poison => StepPoison(p, requests, k);
      case Take(i) => StepTake(p, requests, k, i); k' := if k > 0 then k - 1 else 0;
      case Handle(i) => StepHandle(p, requests, k, i);
      case Join => StepJoin(p, requests, k);
    }
  }

  // ----- progress -----

  /** A pool with a worker and a queue that can hold something always has a step to take until it is finished. */
  lemma NoDeadlock<R(!new)>(p: Pool<R>, requests: multiset<R>, k: nat) returns (m: Move)
    requires Inv(p, requests, k) && 0 < p.capacity && 0 < |p.workers| && !Finished(p)
    ensures Enabled(p, m)
  {
    ReturnedBounds(p.workers);
    if i: nat :| i < |p.workers| && p.workers[i].Handling? {
      m := Handle(i);
    } else if p.queue != [] {
      var i: nat :| i < |p.workers| && !p.workers[i].Returned?;
      m := Take(i);
    } else if i: nat :| i < |p.producers| && p.producers[i] != [] {
      m := Produce(i);
    } else if p.poisonsLeft > 0 {
      m := Poison;
    } else {
      m := Join;
    }
  }

  ghost function Pending<R>(lists: seq<seq<R>>): nat
  {
    if lists == [] then 0 else Pending(lists[..|lists| - 1]) + |lists[|lists| - 1]|
  }

  ghost function Busy<R>(workers: seq<Worker<R>>): nat
  {
    if workers == [] then 0 else Busy(workers[..|workers| - 1]) + if workers[|workers| - 1].Handling? then 1 else 0
  }

  /** An upper bound on the steps that a pool can still take. */
  ghost function StepsLeft<R>(p: Pool<R>): int
  {
    3 * Pending(p.producers) + 3 * p.poisonsLeft + 2 * |p.queue| + Busy(p.workers) + |p.workers| - p.joined
  }

  lemma {:induction false} PendingUpdate<R(!new)>(lists: seq<seq<R>>, i: nat, l: seq<R>)
    requires i < |lists|
    ensures Pending(lists[i := l]) == Pending(lists) - |lists[i]| + |l|
  {
    var n := |lists| - 1;
    if i == n {
      assert lists[i := l][..n] == lists[..n];
    } else {
      assert lists[i := l][..n] == lists[..n][i := l];
      PendingUpdate(lists[..n], i, l);
    }
  }

  lemma {:induction false} BusyUpdate<R(!new)>(workers: seq<Worker<R>>, i: nat, w: Worker<R>)
    requires i < |workers|
    ensures Busy(workers[i := w])
         == Busy(workers) - (if workers[i].Handling? then 1 else 0) + (if w.Handling? then 1 else 0)
  {
    var n := |workers| - 1;
    if i == n {
      assert workers[i := w][..n] == workers[..n];
    } else {
      assert workers[i := w][..n] == workers[..n][i := w];
      BusyUpdate(workers[..n], i, w);
    }
  }

  lemma StepsRunOut<R(!new)>(p: Pool<R>, m: Move)
    requires Enabled(p, m)
    ensures StepsLeft(Step(p, m)) < StepsLeft(p)
  {
    match m {
      case Produce(i) => PendingUpdate(p.producers, i, p.producers[i][1..]);
      case Take(i) => BusyUpdate(p.workers, i, Step(p, m).workers[i]);
      case Handle(i) => BusyUpdate(p.workers, i, Consuming);
      case _ =>
    }
  }

  // ----- whole runs -----

  ghost predicate Run<R(!new)>(p: Pool<R>, moves: seq<Move>, end: Pool<R>)
    decreases |moves|
  {
    if moves == [] then end == p else Enabled(p, moves[0]) && Run(Step(p, moves[0]), moves[1..], end)
  }

  lemma {:induction false} RunInv<R(!new)>(p: Pool<R>, requests: multiset<R>, k: nat, moves: seq<Move>, end: Pool<R>)
    returns (k': nat)
    requires Inv(p, requests, k) && Run(p, moves, end)
    ensures Inv(end, requests, k')
    ensures |end.workers| == |p.workers| && end.capacity == p.capacity && end.poison == p.poison
    ensures |moves| <= StepsLeft(p)
    decreases |moves|
  {
    if moves == [] {
      k' := k;
    } else {
      var q := Step(p, moves[0]);
      k' := StepInv(p, requests, k, moves[0]);
      StepsRunOut(p, moves[0]);
      hide Inv, Enabled, StepsLeft;
      k' := RunInv(q, requests, k', moves[1..], end);
    }
  }

  /** At the end every worker has taken exactly one poison; the requests are all handled unless nobody was there. */
  lemma FinishedState<R(!new)>(p: Pool<R>, requests: multiset<R>, k: nat)
    requires Inv(p, requests, k) && Finished(p)
    ensures forall i :: 0 <= i < |p.workers| ==> p.workers[i].Returned?
    ensures |p.workers| > 0 ==> p.queue == [] && multiset(p.handled) == requests
    ensures |p.workers| == 0 ==> k == |p.queue| && requests == multiset(p.queue) + multiset(p.handled)
  {
    ReturnedBounds(p.workers);
    forall r ensures InHands(p.workers, r) == 0 { NobodyBusy(p.workers, r); }
    NoneLeft(p.producers);
    if |p.workers| == 0 { assert p.queue[..k] == p.queue; }
    forall r ensures requests[r] == multiset(p.queue[..k])[r] + multiset(p.handled)[r] {
      assert requests[r] == Places(p, k, r);
    }
  }

  lemma {:induction false} NobodyHandles<R(!new)>(p: Pool<R>, moves: seq<Move>, end: Pool<R>)
    requires p.workers == [] && Run(p, moves, end)
    ensures end.handled == p.handled
    decreases |moves|
  {
    if moves != [] { NobodyHandles(Step(p, moves[0]), moves[1..], end); }
  }

  /**
   However the threads interleave, when the destructor is through, every request has been handled exactly once
   just when the pool had a worker or there was no request.
   */
  lemma EveryRequestHandledOnce<R(!new)>(p: Pool<R>, moves: seq<Move>, end: Pool<R>)
    requires Initial(p) && Run(p, moves, end) && Finished(end)
    ensures multiset(end.handled) == Together(p.producers) <==> |p.workers| > 0 || Together(p.producers) == multiset{}
  {
    InitialInv(p);
    var k := RunInv(p, Together(p.producers), 0, moves, end);
    FinishedState(end, Together(p.producers), k);
    if |p.workers| == 0 { NobodyHandles(p, moves, end); }
  }

  /** With a worker and room in the queue, no run goes on for ever and none stops before the destructor is through. */
  lemma DestructionCompletes<R(!new)>(p: Pool<R>, moves: seq<Move>, end: Pool<R>)
    requires Initial(p) && Run(p, moves, end) && 0 < p.capacity && 0 < |p.workers|
    ensures |moves| <= StepsLeft(p)
    ensures (forall m :: !Enabled(end, m)) ==> Finished(end)
  {
    InitialInv(p);
    var k := RunInv(p, Together(p.producers), 0, moves, end);
    if !Finished(end) {
      var m := NoDeadlock(end, Together(p.producers), k);
    }
  }

  /** A pool without workers is destroyed with its request still queued. */
  lemma NoWorkersCounterexample() returns (p: Pool<nat>, moves: seq<Move>, end: Pool<nat>)
    ensures Initial(p) && Run(p, moves, end) && Finished(end)
    ensures 7 in Together(p.producers) && end.handled == []
  {
    p := Pool(0, 1, [], [[7]], [], 0, 0, []);
    moves := [Produce(0)];
    end := Step(p, Produce(0));
    assert moves[1..] == [];
    assert Run(end, [], end);
    assert p.producers[..0] == [];
    assert Together(p.producers[..0]) == multiset{};
  }

  // ----- order -----

  ghost function Hand<R>(w: Worker<R>): seq<R>
  {
    if w.Handling? then [w.request] else []
  }

  /** A sequence without its poison. */
  ghost function Requests<R>(s: seq<R>, poison: R): seq<R>
  {
    if s == [] then [] else (if s[0] == poison then [] else [s[0]]) + Requests(s[1..], poison)
  }

  lemma {:induction false} RequestsSnoc<R(!new)>(s: seq<R>, x: R, poison: R)
    ensures Requests(s + [x], poison) == Requests(s, poison) + if x == poison then [] else [x]
  {
    if s == [] {
      assert [x][1..] == [];
    } else {
      assert (s + [x])[1..] == s[1..] + [x];
      RequestsSnoc(s[1..], x, poison);
    }
  }

  /** All requests of the only producer, by how far they have come. */
  ghost function Line<R>(p: Pool<R>): seq<R>
    requires |p.workers| == |p.producers| == 1
  {
    p.handled + (Hand(p.workers[0]) + (Requests(p.queue, p.poison) + p.producers[0]))
  }

  ghost predicate Single<R>(p: Pool<R>)
  {
    |p.workers| == |p.producers| == 1 && p.poison !in p.producers[0]
  }

  lemma StepKeepsLine<R(!new)>(p: Pool<R>, m: Move)
    requires Single(p) && Enabled(p, m)
    ensures Single(Step(p, m)) && Line(Step(p, m)) == Line(p)
  {
    var q := Step(p, m);
    match m {
      case Produce(i) =>
        var l := p.producers[0];
        assert l == [l[0]] + l[1..];
        RequestsSnoc(p.queue, l[0], p.poison);
        assert Requests(q.queue, p.poison) + l[1..] == Requests(p.queue, p.poison) + l;
      case Poison =>
        RequestsSnoc(p.queue, p.poison, p.poison);
      case Take(i) =>
        var r := Requests(q.queue, p.poison);
        assert Hand(q.workers[0]) + (r + p.producers[0]) == (Hand(q.workers[0]) + r) + p.producers[0];
      case Handle(i) =>
        var rest := Requests(p.queue, p.poison) + p.producers[0];
        assert p.handled + (Hand(p.workers[0]) + rest) == (p.handled + Hand(p.workers[0])) + ([] + rest);
      case Join =>
    }
  }

  /** A single worker handles the requests of a single producer in the order in which they were handed in. */
  lemma {:induction false} OneWorkerInOrder<R(!new)>(p: Pool<R>, moves: seq<Move>, end: Pool<R>)
    requires Single(p) && Run(p, moves, end)
    ensures Single(end) && end.handled <= Line(end) == Line(p)
    ensures Initial(p) ==> end.handled <= p.producers[0]
    decreases |moves|
  {
    if moves != [] {
      StepKeepsLine(p, moves[0]);
      hide Line, Enabled, Step;
      OneWorkerInOrder(Step(p, moves[0]), moves[1..], end);
    }
    if Initial(p) { StartLine(p); }
  }

  lemma StartLine<R(!new)>(p: Pool<R>)
    requires Single(p) && Initial(p)
    ensures Line(p) == p.producers[0]
  {
  }
}
