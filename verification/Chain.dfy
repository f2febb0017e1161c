/**
 A chain of workers that pass a fixed number of blocks around a ring of queues until the first worker sends
 poison around. The queues are the bounded queues that module PCQueues refines; each can hold every block.
 */
module Chains {
  import opened Powers
  import opened Wrappers

  datatype Token = Block(address: nat) | Poison

  /** Where a worker is in the life of its link: to consume next, with a block, with poison to pass on, finished. */
  datatype Worker = Waiting | Holding(block: Token) | Passing | Done

  /** Worker j consumes from queue j and produces to the next one. The logs are what it consumed and produced. */
  datatype Ring = Ring(
    blocks: seq<Token>, queues: seq<seq<Token>>, workers: seq<Worker>, got: seq<seq<Token>>, sent: seq<seq<Token>>)

  /** Poisoning is the first worker's choice; the others pass on what they get. */
  datatype Move = Receive(j: nat) | Send(j: nat) | SetToPoison

  function Next(c: Ring, j: nat): nat
  {
    if j + 1 == |c.workers| then 0 else j + 1
  }

  predicate Enabled(c: Ring, m: Move)
  {
    match m
    case Receive(j) => j < |c.workers| && j < |c.queues| && c.workers[j].Waiting? && c.queues[j] != []
    case Send(j) =>
      && j < |c.workers| && Next(c, j) < |c.queues|
      && (c.workers[j].Holding? || c.workers[j].Passing?) && |c.queues[Next(c, j)]| < |c.blocks|
    case SetToPoison => 0 < |c.workers| && c.workers[0].Holding?
  }

  function InHand(w: Worker): Token
    requires w.Holding? || w.Passing?
  {
    if w.Holding? then w.block else Poison
  }

  predicate Sizes(c: Ring)
  {
    0 < |c.blocks| && 0 < |c.workers| == |c.queues| == |c.got| == |c.sent|
  }

  function Step(c: Ring, m: Move): Ring
    requires Sizes(c) && Enabled(c, m)
  {
    match m
    case Receive(j) =>
      var t := c.queues[j][0];
      c.(queues := c.queues[j := c.queues[j][1..]], got := c.got[j := c.got[j] + [t]],
         workers := c.workers[j := if t.Poison? then Passing else Holding(t)])
    case Send(j) =>
      var t, k := InHand(c.workers[j]), Next(c, j);
      c.(queues := c.queues[k := c.queues[k] + [t]], sent := c.sent[j := c.sent[j] + [t]],
         workers := c.workers[j := if c.workers[j].Holding? then Waiting else Done])
    case SetToPoison => c.(workers := c.workers[0 := Passing])
  }

  predicate Initial(c: Ring)
  {
    && Sizes(c) && (forall k :: 0 <= k < |c.blocks| ==> c.blocks[k].Block?)
    && c.queues[0] == c.blocks
    && (forall j :: 0 < j < |c.queues| ==> c.queues[j] == [])
    && (forall j :: 0 <= j < |c.workers| ==> c.workers[j].Waiting? && c.got[j] == [] && c.sent[j] == [])
  }

  // ----- the invariant -----

  predicate AllBlocks(s: seq<Token>)
  {
    forall k :: 0 <= k < |s| ==> s[k].Block?
  }

  predicate EndsInPoison(s: seq<Token>)
  {
    s != [] && s[|s| - 1].Poison? && AllBlocks(s[..|s| - 1])
  }

  /** The first worker never receives poison; its last block is the one it turned into poison. */
  predicate Source(w: Worker, got: seq<Token>, sent: seq<Token>)
  {
    AllBlocks(got) && match w
      case Waiting => got == sent
      case Holding(b) => got == sent + [b]
      case Passing => |got| == |sent| + 1 && got[..|sent|] == sent
      case Done => |got| == |sent| > 0 && got[..|got| - 1] == sent[..|sent| - 1] && EndsInPoison(sent)
  }

  /** Any other worker has passed on, in order, all that it received but the token in hand. */
  predicate Relay(w: Worker, got: seq<Token>, sent: seq<Token>)
  {
    match w
    case Waiting => got == sent && AllBlocks(got)
    case Holding(b) => got == sent + [b] && AllBlocks(got)
    case Passing => got == sent + [Poison] && AllBlocks(sent)
    case Done => got == sent && EndsInPoison(sent)
  }

  predicate Local(c: Ring, j: nat)
    requires Sizes(c) && j < |c.workers|
  {
    if j == 0 then Source(c.workers[0], c.got[0], c.sent[0]) else Relay(c.workers[j], c.got[j], c.sent[j])
  }

  /** What went into queue j: first of all the blocks, then what the worker before it produced. */
  function Inflow(c: Ring, j: nat): seq<Token>
    requires Sizes(c) && j < |c.workers|
  {
    if j == 0 then c.blocks + c.sent[|c.workers| - 1] else c.sent[j - 1]
  }

  predicate Channel(c: Ring, j: nat)
    requires Sizes(c) && j < |c.workers|
  {
    Inflow(c, j) == c.got[j] + c.queues[j]
  }

  predicate Inv(c: Ring)
  {
    && Sizes(c) && AllBlocks(c.blocks)
    && (forall j :: 0 <= j < |c.workers| ==> Local(c, j))
    && (forall j :: 0 <= j < |c.workers| ==> Channel(c, j))
  }

  lemma InitialInv(c: Ring)
    requires Initial(c)
    ensures Inv(c)
  {
  }

  /** Every worker after the first has seen a prefix of what the first one sent, in the same order. */
  lemma {:induction false} SeenInOrder(c: Ring, j: nat)
    requires Inv(c) && 0 < j < |c.workers|
    ensures c.got[j] <= c.sent[0] && c.sent[j] <= c.got[j]
  {
    assert Channel(c, j) && Local(c, j);
    if j > 1 { SeenInOrder(c, j - 1); }
  }

  /** Lengths fall along the ring. */
  lemma {:induction false} Behind(c: Ring, i: nat, j: nat)
    requires Inv(c) && i < j < |c.workers|
    ensures |c.sent[j]| <= |c.got[j]| <= |c.sent[i]| <= |c.got[i]|
    decreases j - i
  {
    assert Channel(c, j) && Local(c, j) && Local(c, i);
    if i + 1 < j { Behind(c, i, j - 1); }
  }

  lemma OnePoisonAtMost(c: Ring)
    requires Inv(c)
    ensures !c.workers[0].Done? ==> AllBlocks(c.sent[|c.workers| - 1])
  {
    var last, s, g := |c.workers| - 1, c.sent[0], c.got[0];
    assert Local(c, 0);
    assert !c.workers[0].Done? ==> s == g[..|s|];
    assert !c.workers[0].Done? ==> forall k :: 0 <= k < |s| ==> s[k] == g[k];
    if last > 0 {
      SeenInOrder(c, last);
      assert forall k :: 0 <= k < |c.sent[last]| ==> c.sent[last][k] == s[k];
    }
  }

  /** Poison comes back to the first queue only after the first worker has finished. */
  lemma SourceGetsBlocks(c: Ring)
    requires Inv(c) && !c.workers[0].Done?
    ensures AllBlocks(c.queues[0])
  {
    OnePoisonAtMost(c);
    assert Channel(c, 0);
    var flow := Inflow(c, 0);
    assert AllBlocks(flow);
    forall k | 0 <= k < |c.queues[0]| ensures c.queues[0][k].Block? {
      assert c.queues[0][k] == flow[|c.got[0]| + k];
    }
  }

  /** A worker with something to send always finds room: producing never blocks. */
  lemma SendNeverBlocks(c: Ring, j: nat)
    requires Inv(c) && j < |c.workers| && (c.workers[j].Holding? || c.workers[j].Passing?)
    ensures |c.queues[Next(c, j)]| < |c.blocks| && Enabled(c, Send(j))
  {
    var last, k := |c.workers| - 1, Next(c, j);
    assert Local(c, j) && Local(c, 0) && Channel(c, 0) && Channel(c, k);
    if 0 < j { Behind(c, 0, j); }
    if j < last { Behind(c, j, last); }
    if k < last { Behind(c, k, last); }
    if 0 < k { assert Local(c, k); }
  }

  // ----- steps keep the invariant -----

  lemma StepReceive(c: Ring, j: nat)
    requires Inv(c) && Enabled(c, Receive(j))
    ensures Inv(Step(c, Receive(j)))
  {
    var d, q := Step(c, Receive(j)), c.queues[j];
    assert Local(c, j) && Channel(c, j);
    if j == 0 { SourceGetsBlocks(c); }
    assert Channel(d, j) by { assert q == [q[0]] + q[1..]; }
    assert Local(d, j);
    forall i | 0 <= i < |c.workers| && i != j ensures Local(d, i) && Channel(d, i) {
      assert Local(c, i) && Channel(c, i);
    }
  }

  lemma StepSend(c: Ring, j: nat)
    requires Inv(c) && Enabled(c, Send(j))
    ensures Inv(Step(c, Send(j)))
  {
    var d, k := Step(c, Send(j)), Next(c, j);
    assert Local(c, j) && Channel(c, k);
    SendLocal(c, j);
    assert Channel(d, k) by { assert Inflow(d, k) == Inflow(c, k) + [InHand(c.workers[j])]; }
    forall i | 0 <= i < |c.workers| && i != j ensures Local(d, i) {
      assert Local(c, i);
    }
    forall i | 0 <= i < |c.workers| && i != k ensures Channel(d, i) {
      assert Channel(c, i);
    }
  }

  lemma SendLocal(c: Ring, j: nat)
    requires Inv(c) && Enabled(c, Send(j))
    ensures Local(Step(c, Send(j)), j)
  {
    assert Local(c, j);
    var s, t := c.sent[j], InHand(c.workers[j]);
    assert (s + [t])[..|s|] == s;
    if j == 0 && c.workers[0].Passing? {
      assert c.got[0][..|c.got[0]| - 1] == s;
      assert forall k :: 0 <= k < |s| ==> s[k] == c.got[0][k];
    }
  }

  lemma StepPoison(c: Ring)
    requires Inv(c) && Enabled(c, SetToPoison)
    ensures Inv(Step(c, SetToPoison))
  {
    var d := Step(c, SetToPoison);
    assert Local(c, 0);
    assert Local(d, 0);
    forall i | 0 <= i < |c.workers| ensures Channel(d, i) && (i > 0 ==> Local(d, i)) {
      assert Local(c, i) && Channel(c, i);
    }
  }

  lemma StepInv(c: Ring, m: Move)
    requires Inv(c) && Enabled(c, m)
    ensures Inv(Step(c, m))
  {
    match m {
      case Receive(j) => StepReceive(c, j);
      case Send(j) => StepSend(c, j);
      case SetToPoison => StepPoison(c);
    }
  }

  // ----- how many tokens there are -----

  function Held(w: Worker): nat
  {
    if w.Holding? || w.Passing? then 1 else 0
  }

  /** Tokens in the first k queues and with the first k workers. */
  function Tokens(c: Ring, k: nat): nat
    requires Sizes(c) && k <= |c.workers|
  {
    if k == 0 then 0 else Tokens(c, k - 1) + |c.queues[k - 1]| + Held(c.workers[k - 1])
  }

  lemma {:induction false} TokensTo(c: Ring, k: nat)
    requires Inv(c) && 0 < k <= |c.workers|
    ensures Tokens(c, k) == |c.blocks| + |c.sent[|c.workers| - 1]| - |c.sent[k - 1]|
  {
    assert Local(c, k - 1) && Channel(c, k - 1);
    if k > 1 { TokensTo(c, k - 1); } else { assert Tokens(c, 0) == 0; }
  }

  /** Blocks and poison together are always as many as there were blocks. */
  lemma TokensConserved(c: Ring)
    requires Inv(c)
    ensures Tokens(c, |c.workers|) == |c.blocks|
  {
    TokensTo(c, |c.workers|);
  }

  // ----- progress -----

  predicate AllDone(c: Ring)
  {
    forall j :: 0 <= j < |c.workers| ==> c.workers[j].Done?
  }

  /** Until every worker has finished, some worker can take a step. */
  lemma NoDeadlock(c: Ring) returns (m: Move)
    requires Inv(c) && !AllDone(c)
    ensures Enabled(c, m)
  {
    if j: nat :| j < |c.workers| && (c.workers[j].Holding? || c.workers[j].Passing?) {
      SendNeverBlocks(c, j);
      m := Send(j);
    } else if c.workers[0].Waiting? {
      var j := SomeQueueFull(c);
      NobodyElseDone(c, j);
      m := Receive(j);
    } else {
      var j := FirstWaiting(c, 1);
      PoisonArrives(c, j);
      m := Receive(j);
    }
  }

  lemma SomeQueueFull(c: Ring) returns (j: nat)
    requires Inv(c) && forall i :: 0 <= i < |c.workers| ==> Held(c.workers[i]) == 0
    ensures j < |c.workers| && c.queues[j] != []
  {
    TokensConserved(c);
    j := TokenSomewhere(c, |c.workers|);
  }

  lemma {:induction false} TokenSomewhere(c: Ring, k: nat) returns (j: nat)
    requires Sizes(c) && k <= |c.workers| && Tokens(c, k) > 0
    requires forall i :: 0 <= i < |c.workers| ==> Held(c.workers[i]) == 0
    ensures j < |c.workers| && c.queues[j] != []
  {
    if c.queues[k - 1] != [] { j := k - 1; } else { j := TokenSomewhere(c, k - 1); }
  }

  /** Nobody has finished before the first worker has. */
  lemma NobodyElseDone(c: Ring, j: nat)
    requires Inv(c) && j < |c.workers| && c.workers[0].Waiting?
    ensures !c.workers[j].Done?
  {
    assert Local(c, 0) && Local(c, j);
    if j > 0 { SeenInOrder(c, j); }
  }

  lemma FirstWaiting(c: Ring, from: nat) returns (j: nat)
    requires Inv(c) && !AllDone(c) && 0 < from <= |c.workers|
    requires forall i :: 0 <= i < |c.workers| ==> c.workers[i].Waiting? || c.workers[i].Done?
    requires forall i :: 0 <= i < from ==> c.workers[i].Done?
    ensures 0 < j < |c.workers| && c.workers[j].Waiting? && c.workers[j - 1].Done?
    decreases |c.workers| - from
  {
    if c.workers[from].Waiting? { j := from; } else { j := FirstWaiting(c, from + 1); }
  }

  /** A finished worker's poison waits in the next queue. */
  lemma PoisonArrives(c: Ring, j: nat)
    requires Inv(c) && 0 < j < |c.workers| && c.workers[j].Waiting? && c.workers[j - 1].Done?
    ensures c.queues[j] != []
  {
    assert Local(c, j) && Local(c, j - 1) && Channel(c, j);
    var s := c.sent[j - 1];
    assert s[|s| - 1].Poison?;
  }

  /** The moves that the ring still has to make once the first worker has finished. */
  function MovesLeft(c: Ring, k: nat): int
    requires Sizes(c) && k <= |c.workers|
  {
    if k == 0 then 0 else MovesLeft(c, k - 1) + 2 * |c.sent[0]| - |c.got[k - 1]| - |c.sent[k - 1]|
  }

  lemma {:induction false} MovesBounded(c: Ring, k: nat)
    requires Inv(c) && c.workers[0].Done? && k <= |c.workers|
    ensures MovesLeft(c, k) >= 0
  {
    if k > 0 {
      MovesBounded(c, k - 1);
      assert Local(c, 0);
      if k > 1 { SeenInOrder(c, k - 1); }
    }
  }

  lemma {:induction false} MovesChange(c: Ring, d: Ring, j: nat, k: nat)
    requires Sizes(c) && Sizes(d) && |c.workers| == |d.workers| && 0 < j < |c.workers| && k <= |c.workers|
    requires |d.got[j]| + |d.sent[j]| == |c.got[j]| + |c.sent[j]| + 1
    requires d.sent[0] == c.sent[0]
    requires forall i :: 0 <= i < |c.workers| && i != j ==> d.got[i] == c.got[i] && d.sent[i] == c.sent[i]
    ensures MovesLeft(d, k) == MovesLeft(c, k) - if j < k then 1 else 0
  {
    if k > 0 { MovesChange(c, d, j, k - 1); }
  }

  /** After that every step brings the end nearer. */
  lemma PoisonDrains(c: Ring, m: Move)
    requires Inv(c) && Enabled(c, m) && c.workers[0].Done?
    ensures Step(c, m).workers[0].Done?
    ensures 0 <= MovesLeft(Step(c, m), |c.workers|) == MovesLeft(c, |c.workers|) - 1
  {
    StepInv(c, m);
    MovesBounded(Step(c, m), |c.workers|);
    match m {
      case Receive(j) => MovesChange(c, Step(c, m), j, |c.workers|);
      case Send(j) => MovesChange(c, Step(c, m), j, |c.workers|);
      case SetToPoison =>
    }
  }

  // ----- whole runs -----

  predicate Run(c: Ring, moves: seq<Move>, end: Ring)
    decreases |moves|
  {
    if moves == [] then end == c else Sizes(c) && Enabled(c, moves[0]) && Run(Step(c, moves[0]), moves[1..], end)
  }

  lemma {:induction false} RunInv(c: Ring, moves: seq<Move>, end: Ring)
    requires Inv(c) && Run(c, moves, end)
    ensures Inv(end) && |end.workers| == |c.workers| && end.blocks == c.blocks
    ensures c.workers[0].Done? ==> |moves| <= MovesLeft(c, |c.workers|)
    decreases |moves|
  {
    if c.workers[0].Done? { MovesBounded(c, |c.workers|); }
    if moves != [] {
      StepInv(c, moves[0]);
      if c.workers[0].Done? { PoisonDrains(c, moves[0]); }
      hide Inv, MovesLeft, Enabled;
      RunInv(Step(c, moves[0]), moves[1..], end);
    }
  }

  /** When all workers have finished, the first queue holds all blocks but one, then poison; the rest are empty. */
  lemma {:induction false} FinishedWorker(c: Ring, j: nat)
    requires Inv(c) && AllDone(c) && 0 < j < |c.workers|
    ensures c.got[j] == c.sent[j] == c.sent[0] && c.queues[j] == []
  {
    assert Local(c, j) && Local(c, j - 1) && Channel(c, j);
    if j > 1 { FinishedWorker(c, j - 1); }
    var s, g := c.sent[j - 1], c.got[j];
    assert g == s[..|g|];
    OnlyLastPoison(g, s);
  }

  lemma OnlyLastPoison(g: seq<Token>, s: seq<Token>)
    requires EndsInPoison(g) && EndsInPoison(s) && |g| <= |s| && g == s[..|g|]
    ensures g == s
  {
    forall k | 0 <= k < |s| - 1 ensures s[k].Block? { assert s[k] == s[..|s| - 1][k]; }
  }

  lemma FinishedRing(c: Ring)
    requires Inv(c) && AllDone(c)
    ensures |c.queues[0]| == |c.blocks| && EndsInPoison(c.queues[0])
    ensures forall j :: 0 < j < |c.queues| ==> c.queues[j] == [] && c.got[j] == c.sent[0]
  {
    forall j | 0 < j < |c.workers| ensures c.queues[j] == [] && c.got[j] == c.sent[0] == c.sent[j] {
      FinishedWorker(c, j);
    }
    assert Local(c, 0) && Channel(c, 0);
    var q, g, s := c.queues[0], c.got[0], c.sent[0];
    var flow := c.blocks + s;
    assert flow == g + q;
    forall k | 0 <= k < |q| ensures q[k] == flow[|g| + k] { assert (g + q)[|g| + k] == q[k]; }
    assert forall k :: 0 <= k < |s| - 1 ==> s[k] == s[..|s| - 1][k];
  }

  /**
   However the workers interleave: the first queue ends with every block but one and then poison, and every
   worker has seen exactly what the first one sent.
   */
  lemma RingCompletes(c: Ring, moves: seq<Move>, end: Ring)
    requires Initial(c) && Run(c, moves, end)
    ensures Sizes(end) && |end.workers| == |c.workers|
    ensures (forall m :: !Enabled(end, m)) ==> AllDone(end)
    ensures AllDone(end) ==> |end.queues[0]| == |c.blocks| && EndsInPoison(end.queues[0])
    ensures AllDone(end) ==> forall j :: 0 < j < |c.workers| ==> end.got[j] == end.sent[0]
    ensures Tokens(end, |end.workers|) == |c.blocks|
  {
    InitialInv(c);
    RunInv(c, moves, end);
    TokensConserved(end);
    if AllDone(end) {
      FinishedRing(end);
    } else {
      var m := NoDeadlock(end);
    }
  }

  /** No worker can take a step. */
  ghost predicate Stopped(c: Ring)
  {
    forall m :: !Enabled(c, m)
  }

  /** Once the first worker has finished, the others finish too, in some order. */
  lemma DrainingRun(c: Ring) returns (moves: seq<Move>, end: Ring)
    requires Inv(c) && c.workers[0].Done?
    ensures Run(c, moves, end) && AllDone(end)
    decreases MovesLeft(c, |c.workers|)
  {
    MovesBounded(c, |c.workers|);
    if AllDone(c) {
      moves, end := [], c;
    } else {
      var m := NoDeadlock(c);
      StepInv(c, m);
      PoisonDrains(c, m);
      var rest;
      rest, end := DrainingRun(Step(c, m));
      RunPrepend(c, m, rest, end);
      moves := [m] + rest;
    }
  }

  /** There is a run to the end from every new ring: the first worker may poison its first block. */
  lemma SomeRunStops(c: Ring) returns (moves: seq<Move>, end: Ring)
    requires Initial(c)
    ensures Run(c, moves, end) && AllDone(end) && Stopped(end)
  {
    InitialInv(c);
    var a := Step(c, Receive(0));
    StepInv(c, Receive(0));
    var b := Step(a, SetToPoison);
    StepInv(a, SetToPoison);
    SendNeverBlocks(b, 0);
    StepInv(b, Send(0));
    var rest;
    rest, end := DrainingRun(Step(b, Send(0)));
    RunPrepend(b, Send(0), rest, end);
    RunPrepend(a, SetToPoison, [Send(0)] + rest, end);
    moves := [Receive(0)] + ([SetToPoison] + ([Send(0)] + rest));
    RunPrepend(c, Receive(0), [SetToPoison] + ([Send(0)] + rest), end);
    RunInv(c, moves, end);
  }

  lemma RunPrepend(c: Ring, m: Move, rest: seq<Move>, end: Ring)
    requires Sizes(c) && Enabled(c, m) && Run(Step(c, m), rest, end)
    ensures Run(c, [m] + rest, end)
  {
    assert ([m] + rest)[1..] == rest;
  }

  // ----- building the ring and waiting for it -----

  /** The size of a block for a configuration, None where the constructor throws. */
  function BlockSize(entrySize: nat, blockCount: nat, totalMemory: nat): (size: Option<nat>)
  {
    if entrySize == 0 || blockCount == 0 || totalMemory < entrySize * blockCount then None
    else MulPositive(blockCount, entrySize); Some(totalMemory / (blockCount * entrySize) * entrySize)
  }

  /**
   There is a size if and only if each block can have an entry. Blocks hold whole entries, fit the memory, and are as
   large as that allows.
   */
  lemma BlockSizeFits(entrySize: nat, blockCount: nat, totalMemory: nat)
    ensures var size := BlockSize(entrySize, blockCount, totalMemory);
      && (size.Some? <==> 0 < entrySize && 0 < blockCount && entrySize * blockCount <= totalMemory)
      && (size.Some? ==> entrySize <= size.value && size.value % entrySize == 0
                         && size.value * blockCount <= totalMemory < (size.value + entrySize) * blockCount)
  {
    if 0 < entrySize && 0 < blockCount && entrySize * blockCount <= totalMemory {
      SizeFits(entrySize, blockCount, totalMemory);
    }
  }

  lemma SizeFits(entrySize: nat, blockCount: nat, totalMemory: nat)
    requires 0 < entrySize && 0 < blockCount && entrySize * blockCount <= totalMemory
    ensures 0 < blockCount * entrySize
    ensures var size := totalMemory / (blockCount * entrySize) * entrySize;
      entrySize <= size && size % entrySize == 0 && size * blockCount <= totalMemory < (size + entrySize) * blockCount
  {
    var unit := blockCount * entrySize;
    MulPositive(blockCount, entrySize);
    MulAssoc(blockCount, entrySize, 1);
    var q := totalMemory / unit;
    DivModFacts(totalMemory, unit);
    if q == 0 { MulNonneg(q, unit); } else { MulMonotone(1, q, entrySize); }
    DivModUnique(q * entrySize, entrySize, q, 0);
    assert (q * entrySize) * blockCount == q * unit by { MulAssoc(q, entrySize, blockCount); }
    MulDistrib(blockCount, q * entrySize, entrySize);
  }

  /** The ring that a chain's workers run in, before any of them has moved. */
  function RingOf(blocks: seq<Token>, queues: seq<seq<Token>>): Ring
  {
    Ring(blocks, queues, seq(|queues|, _ => Waiting), seq(|queues|, _ => []), seq(|queues|, _ => []))
  }

  function AddressOf(base: nat, i: nat, size: nat): nat
  {
    MulNonneg(i, size); base + i * size
  }

  lemma AddressesDiffer(base: nat, i: nat, j: nat, size: nat)
    requires i < j && size > 0
    ensures AddressOf(base, i, size) < AddressOf(base, j, size)
  {
    MulStrict(i, j, size);
  }

  lemma NextAddress(base: nat, i: nat, size: nat)
    ensures AddressOf(base, 0, size) == base && AddressOf(base, i + 1, size) == AddressOf(base, i, size) + size
  {
    MulDistrib(size, i, 1);
  }

  method LeadQueue(base: nat, blockCount: nat, blockSize: nat) returns (lead: seq<Token>)
    ensures |lead| == blockCount
    ensures forall i :: 0 <= i < blockCount ==> lead[i] == Block(AddressOf(base, i, blockSize))
  {
    hide AddressOf;
    lead := [];
    var at := base;
    NextAddress(base, 0, blockSize);
    for i := 0 to blockCount
      invariant |lead| == i <= blockCount && at == AddressOf(base, i, blockSize)
      invariant forall k :: 0 <= k < i ==> lead[k] == Block(AddressOf(base, k, blockSize))
    {
      assert |lead| < blockCount;
      lead := lead + [Block(at)];
      NextAddress(base, i, blockSize);
      at := at + blockSize;
    }
  }

  class Chain {
    const blockCount: nat
    const blockSize: nat
    var queues: seq<seq<Token>>
    var positions: seq<(nat, nat)>
    var completeCalled: bool

    predicate Running()
      reads this
    {
      queues != []
    }

    /** All blocks wait in the lead queue, and the positions handed out so far form a path, or the whole ring. */
    ghost predicate Valid()
      reads this
    {
      && 0 < blockCount
      && (Running() ==>
        && |positions| == |queues| - (if completeCalled then 0 else 1)
        && Initial(RingOf(queues[0], queues)) && |queues[0]| == blockCount
        && (forall i, j :: 0 <= i < j < blockCount && blockSize > 0 ==> queues[0][i] != queues[0][j])
        && (forall j :: 0 <= j < |positions| ==> positions[j] == (j, if j + 1 == |queues| then 0 else j + 1)))
      && (!Running() ==> positions == [] && !completeCalled)
    }

    constructor (entrySize: nat, blockCount: nat, totalMemory: nat)
      requires BlockSize(entrySize, blockCount, totalMemory).Some?
      ensures Valid() && !Running() && this.blockCount == blockCount
      ensures blockSize == BlockSize(entrySize, blockCount, totalMemory).value > 0
    {
      BlockSizeFits(entrySize, blockCount, totalMemory);
      this.blockCount, blockSize := blockCount, BlockSize(entrySize, blockCount, totalMemory).value;
      queues, positions, completeCalled := [], [], false;
    }

    /** The lead queue takes all blocks without blocking, each at its own address. */
    method Start(base: nat)
      requires Valid() && !Running()
      modifies this
      ensures Valid() && |queues| == 1 && !completeCalled
      ensures forall i :: 0 <= i < blockCount ==> queues[0][i] == Block(AddressOf(base, i, blockSize))
    {
      hide AddressOf;
      var lead := LeadQueue(base, blockCount, blockSize);
      forall i, j | 0 <= i < j < blockCount && blockSize > 0 ensures lead[i] != lead[j] {
        AddressesDiffer(base, i, j, blockSize);
      }
      queues := [lead];
    }

    method Add(base: nat) returns (position: (nat, nat))
      requires Valid() && !completeCalled
      modifies this
      ensures Valid() && !completeCalled && |queues| == (if old(Running()) then old(|queues|) else 1) + 1
      ensures position == (|queues| - 2, |queues| - 1)
      ensures old(Running()) ==> queues == old(queues) + [[]]
    {
      if !Running() { Start(base); }
      position := (|queues| - 1, |queues|);
      queues := queues + [[]];
      positions := positions + [position];
    }

    /** Closes the ring, once: the last worker hands on to the first queue. */
    method Complete() returns (thrown: bool)
      requires Valid() && Running()
      modifies this`completeCalled, this`positions
      ensures Valid() && completeCalled && thrown == old(completeCalled)
    {
      if completeCalled { return true; }
      completeCalled := true;
      positions := positions + [(|queues| - 1, 0)];
      thrown := false;
    }

    /**
     Joining the workers, which have run until none can move on, and draining the first queue: every block but one
     comes back, then poison, and the abort is never reached.
     */
    method Wait(end: Ring, ghost moves: seq<Move>) returns (aborted: bool, drained: nat)
      requires Valid()
      requires Running() ==> Run(RingOf(queues[0], queues), moves, end) && Stopped(end)
      modifies this
      ensures Valid() && !Running() && !aborted
      ensures old(Running()) ==> drained == blockCount - 1 && AllDone(end)
    {
      aborted, drained := false, 0;
      if !Running() { return; }
      if !completeCalled { var thrown := Complete(); }
      RingCompletes(RingOf(queues[0], queues), moves, end);
      var front := end.queues[0];
      var i := 0;
      while true
        invariant i < blockCount && front == end.queues[0][i..]
        decreases blockCount - i
      {
        var block := front[0];
        front := front[1..];
        if block.Poison? { break; }
        if i == blockCount { aborted := true; return; }
        i := i + 1;
        LastIsPoison(end.queues[0], i - 1);
      }
      drained := i;
      PoisonIsLast(end.queues[0], i);
      queues, positions, completeCalled := [], [], false;
    }
  }

  /** The ring that adding so many positions and closing it gives. */
  function NewRing(base: nat, blockCount: nat, blockSize: nat, positions: nat): Ring
  {
    var lead := seq(blockCount, i requires 0 <= i => Block(AddressOf(base, i, blockSize)));
    RingOf(lead, [lead] + seq(positions, _ => []))
  }

  /**
   The whole life of a chain: building it, letting its workers run in any order until none can move on, and waiting.
   Every worker has then seen exactly what the first one sent, and the blocks come back without an abort.
   */
  method BuildAndWait(entrySize: nat, blockCount: nat, totalMemory: nat, base: nat, adds: nat, end: Ring,
                      ghost moves: seq<Move>)
    returns (aborted: bool, drained: nat)
    requires BlockSize(entrySize, blockCount, totalMemory).Some? && 0 < adds
    requires Run(NewRing(base, blockCount, BlockSize(entrySize, blockCount, totalMemory).value, adds), moves, end)
    requires Stopped(end)
    ensures !aborted && drained == blockCount - 1
    ensures |end.workers| == adds + 1 == |end.got| == |end.sent| && AllDone(end)
    ensures forall j :: 0 < j <= adds ==> end.got[j] == end.sent[0]
  {
    hide AddressOf;
    var chain := new Chain(entrySize, blockCount, totalMemory);
    chain.Start(base);
    for i := 0 to adds
      invariant chain.Valid() && fresh(chain) && !chain.completeCalled && |chain.queues| == i + 1
      invariant forall k :: 0 <= k < blockCount ==> chain.queues[0][k] == Block(AddressOf(base, k, chain.blockSize))
    {
      var position := chain.Add(base);
    }
    var thrown := chain.Complete();
    ghost var ring := NewRing(base, blockCount, chain.blockSize, adds);
    assert chain.queues[0] == ring.blocks;
    assert chain.queues == ring.queues by {
      assert Initial(RingOf(chain.queues[0], chain.queues));
    }
    RingCompletes(ring, moves, end);
    aborted, drained := chain.Wait(end, moves);
  }

  lemma LastIsPoison(q: seq<Token>, i: nat)
    requires EndsInPoison(q) && i < |q| && q[i].Block?
    ensures i + 1 < |q|
  {
  }

  lemma PoisonIsLast(q: seq<Token>, i: nat)
    requires EndsInPoison(q) && i < |q| && q[i].Poison?
    ensures i == |q| - 1
  {
    forall k | 0 <= k < |q| - 1 ensures q[k].Block? { assert q[k] == q[..|q| - 1][k]; }
  }
}
