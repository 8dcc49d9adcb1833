/**
 The many-to-many scheduler's 64-slot rings and the work stealing over them: owners push
 and pop at the tail, thieves take from the head, each under the ring's lock.
 */
module WorkStealing {
  import opened Wrappers

  const SLOTS: nat := 64

  // ------------------------------------------------------------ any interleaving

  /** One locked operation on one ring; which thread does it, and what it does next, is free. */
  datatype Op = Push(q: nat, m: nat) | PopTail(q: nat) | TakeHead(q: nat)

  /** `pushed` and `taken` are histories of what went in and came out. */
  datatype State = State(rings: seq<seq<nat>>, pushed: seq<nat>, taken: seq<nat>)

  function Step(s: State, op: Op): State {
    if op.q >= |s.rings| then s
    else
      var r := s.rings[op.q];
      match op
      case Push(q, m) =>
        if |r| >= SLOTS then s else s.(rings := s.rings[q := r + [m]], pushed := s.pushed + [m])
      case PopTail(q) =>
        if r == [] then s else s.(rings := s.rings[q := r[..|r| - 1]], taken := s.taken + [r[|r| - 1]])
      case TakeHead(q) =>
        if r == [] then s else s.(rings := s.rings[q := r[1..]], taken := s.taken + [r[0]])
  }

  function Empty(n: nat): seq<seq<nat>> {
    seq(n, i => [])
  }

  function Run(rings: nat, ops: seq<Op>): State {
    if ops == [] then State(Empty(rings), [], [])
    else Step(Run(rings, ops[..|ops| - 1]), ops[|ops| - 1])
  }

  /** How often `m` is queued. */
  function Queued(rings: seq<seq<nat>>, m: nat): nat {
    if rings == [] then 0 else Queued(rings[..|rings| - 1], m) + multiset(rings[|rings| - 1])[m]
  }

  lemma {:induction false} QueuedUpdate(rings: seq<seq<nat>>, q: nat, r: seq<nat>, m: nat)
    requires q < |rings|
    ensures Queued(rings[q := r], m) + multiset(rings[q])[m] == Queued(rings, m) + multiset(r)[m]
    decreases |rings|
  {
    var n := |rings| - 1;
    var after := rings[q := r];
    if q < n {
      QueuedUpdate(rings[..n], q, r, m);
      assert after[..n] == rings[..n][q := r];
    } else {
      assert after[..n] == rings[..n];
    }
  }

  ghost predicate Conserved(s: State) {
    && (forall m: nat :: multiset(s.pushed)[m] == multiset(s.taken)[m] + Queued(s.rings, m))
    && forall q :: 0 <= q < |s.rings| ==> |s.rings[q]| <= 64
  }

  /** Moving one message between a ring and a history. */
  lemma PushConserves(s: State, q: nat, x: nat)
    requires Conserved(s) && q < |s.rings| && |s.rings[q]| < 64
    ensures Conserved(s.(rings := s.rings[q := s.rings[q] + [x]], pushed := s.pushed + [x]))
  {
    forall m: nat ensures Queued(s.rings[q := s.rings[q] + [x]], m) == Queued(s.rings, m) + multiset{x}[m] {
      QueuedUpdate(s.rings, q, s.rings[q] + [x], m);
    }
  }

  lemma TakeConserves(s: State, q: nat, r: seq<nat>, x: nat)
    requires Conserved(s) && q < |s.rings| && multiset(s.rings[q]) == multiset(r) + multiset{x} && |r| <= 64
    ensures Conserved(s.(rings := s.rings[q := r], taken := s.taken + [x]))
  {
    forall m: nat ensures Queued(s.rings[q := r], m) + multiset{x}[m] == Queued(s.rings, m) {
      QueuedUpdate(s.rings, q, r, m);
    }
  }

  lemma StepConserves(s: State, op: Op)
    requires Conserved(s)
    ensures Conserved(Step(s, op))
  {
    if op.q < |s.rings| {
      var r := s.rings[op.q];
      match op {
        case Push(q, m) => if |r| < SLOTS { PushConserves(s, q, m); }
        case PopTail(q) =>
          if r != [] {
            assert r == r[..|r| - 1] + [r[|r| - 1]];
            TakeConserves(s, q, r[..|r| - 1], r[|r| - 1]);
          }
        case TakeHead(q) =>
          if r != [] {
            assert r == [r[0]] + r[1..];
            TakeConserves(s, q, r[1..], r[0]);
          }
      }
    }
  }

  lemma {:induction false} EmptyQueued(n: nat)
    ensures forall m: nat :: Queued(Empty(n), m) == 0
  {
    if n > 0 {
      assert Empty(n)[..n - 1] == Empty(n - 1);
      EmptyQueued(n - 1);
    }
  }

  /** In every interleaving nothing is lost or invented: what was pushed is what was taken plus what is queued. */
  lemma {:induction false} NothingLost(rings: nat, ops: seq<Op>)
    ensures Conserved(Run(rings, ops))
    decreases |ops|
  {
    if ops == [] {
      EmptyQueued(rings);
    } else {
      NothingLost(rings, ops[..|ops| - 1]);
      StepConserves(Run(rings, ops[..|ops| - 1]), ops[|ops| - 1]);
    }
  }

  ghost predicate Once(s: seq<nat>) {
    forall m: nat :: multiset(s)[m] <= 1
  }

  /** Messages pushed once are handed out at most once, to one thread, and are then in no ring. */
  lemma HandedOutOnce(rings: nat, ops: seq<Op>)
    requires Once(Run(rings, ops).pushed)
    ensures Once(Run(rings, ops).taken)
    ensures forall m :: m in Run(rings, ops).taken ==> Queued(Run(rings, ops).rings, m) == 0
  {
    var s := Run(rings, ops);
    NothingLost(rings, ops);
    forall m: nat ensures multiset(s.taken)[m] + Queued(s.rings, m) <= 1 {
      assert multiset(s.pushed)[m] <= 1;
    }
    forall m | m in s.taken ensures Queued(s.rings, m) == 0 {
      assert m in multiset(s.taken);
    }
  }

  // ------------------------------------------------------------ the ring

  function Slot(head: nat, k: nat): (i: nat)
    ensures i < SLOTS
  {
    (head + k) % SLOTS
  }

  /** The window of `|queue|` slots from `head` holds the queue; every other slot is cleared. */
  ghost predicate Holds(items: seq<Option<nat>>, head: nat, queue: seq<nat>) {
    && |items| == SLOTS && head < SLOTS && |queue| <= SLOTS
    && (forall k: nat :: k < |queue| ==> items[Slot(head, k)] == Some(queue[k]))
    && (forall k: nat :: |queue| <= k < SLOTS ==> items[Slot(head, k)] == None)
  }

  /** Distinct offsets are distinct slots. */
  lemma SlotsDiffer(head: nat, k: nat)
    requires head < SLOTS && k < SLOTS
    ensures forall j: nat :: j < SLOTS && j != k ==> Slot(head, j) != Slot(head, k)
  {
  }

  lemma SlotSteps(head: nat, k: nat)
    requires head < SLOTS && k < SLOTS
    ensures (Slot(head, k) + 1) % SLOTS == Slot(head, k + 1)
    ensures (Slot(head, k + 1) + SLOTS - 1) % SLOTS == Slot(head, k)
    ensures Slot(head, 0) == head
  {
  }

  lemma PushHolds(items: seq<Option<nat>>, head: nat, queue: seq<nat>, m: nat)
    requires Holds(items, head, queue) && |queue| < SLOTS
    ensures Holds(items[Slot(head, |queue|) := Some(m)], head, queue + [m])
  {
    SlotsDiffer(head, |queue|);
  }

  lemma PopHolds(items: seq<Option<nat>>, head: nat, queue: seq<nat>)
    requires Holds(items, head, queue) && queue != []
    ensures items[Slot(head, |queue| - 1)] == Some(queue[|queue| - 1])
    ensures Holds(items[Slot(head, |queue| - 1) := None], head, queue[..|queue| - 1])
  {
    SlotsDiffer(head, |queue| - 1);
  }

  lemma StealHolds(items: seq<Option<nat>>, head: nat, queue: seq<nat>)
    requires Holds(items, head, queue) && queue != []
    ensures items[head] == Some(queue[0])
    ensures Holds(items[head := None], (head + 1) % SLOTS, queue[1..])
  {
    SlotSteps(head, 0);
    SlotsDiffer(head, 0);
    var next := (head + 1) % SLOTS;
    forall k: nat | k < SLOTS ensures Slot(next, k) == if k + 1 < SLOTS then Slot(head, k + 1) else head {
      NextSlot(head, k);
    }
  }

  lemma NextSlot(head: nat, k: nat)
    requires head < SLOTS && k < SLOTS
    ensures Slot((head + 1) % SLOTS, k) == if k + 1 < SLOTS then Slot(head, k + 1) else head
  {
  }

  class WorkDeque {
    var items: seq<Option<nat>>
    var head: nat
    var tail: nat
    var count: nat
    ghost var queue: seq<nat>

    ghost predicate Valid()
      reads this
    {
      Holds(items, head, queue) && count == |queue| && tail == Slot(head, count)
    }

    constructor ()
      ensures Valid() && queue == []
    {
      items := seq(SLOTS, i => None);
      head, tail, count := 0, 0, 0;
      queue := [];
    }

    method Push(m: nat) returns (ok: bool)
      requires Valid()
      modifies this
      ensures Valid() && ok == (|old(queue)| < 64)
      ensures queue == if ok then old(queue) + [m] else old(queue)
    {
      if count >= SLOTS { return false; }
      PushHolds(items, head, queue, m);
      SlotSteps(head, count);
      items := items[tail := Some(m)];
      tail := (tail + 1) % SLOTS;
      count := count + 1;
      queue := queue + [m];
      ok := true;
    }

    /** The owner's end: newest first. */
    method PopLocal() returns (r: Option<nat>)
      requires Valid()
      modifies this
      ensures Valid()
      ensures if old(queue) == [] then r == None && queue == []
              else r == Some(old(queue)[|old(queue)| - 1]) && queue == old(queue)[..|old(queue)| - 1]
    {
      if count == 0 { return None; }
      PopHolds(items, head, queue);
      SlotSteps(head, count - 1);
      tail := (tail + SLOTS - 1) % SLOTS;
      r := items[tail];
      items := items[tail := None];
      count := count - 1;
      queue := queue[..|queue| - 1];
    }

    /** The thieves' end: oldest first. */
    method StealFrom() returns (r: Option<nat>)
      requires Valid()
      modifies this
      ensures Valid()
      ensures if old(queue) == [] then r == None && queue == []
              else r == Some(old(queue)[0]) && queue == old(queue)[1..]
    {
      if count == 0 { return None; }
      StealHolds(items, head, queue);
      NextSlot(head, count - 1);
      SlotSteps(head, 0);
      r := items[head];
      items := items[head := None];
      head := (head + 1) % SLOTS;
      count := count - 1;
      queue := queue[1..];
    }
  }
}
