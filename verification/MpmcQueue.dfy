/**
 The ring as the program holds it: position counters, a slot array split into its
 sequence and data columns, and a mask.  `Act` is one atomic action of one call and
 is proved to be the protocol's `Step`; `Enqueue` and `Dequeue` are whole calls made
 while no other thread is inside the ring.
 */
module MpmcRing {
  import opened Bits
  import opened MpmcProtocol

  /** `c` is the least power of two that is at least `want`. */
  ghost predicate RoundedUp(c: nat, want: nat) {
    (exists k :: c == Pow2(k)) && c >= want && (c == 1 || c < 2 * want)
  }

  lemma QuiescentOwners(s: State)
    requires forall t :: t in s.threads ==> s.threads[t].Finished()
    ensures forall p :: !HasProducer(s, p) && !HasConsumer(s, p)
  {
  }

  ghost predicate Sound(s: State) {
    Inv(s) && Counted(s)
  }

  lemma EnterAlone(s: State, th: Thread)
    requires Sound(s) && s.threads == map[] && (th.EnqLoadPos? || th.DeqLoadPos?)
    ensures Sound(Apply(s, Call(0, th))) && Apply(s, Call(0, th)).threads == map[0 := th]
  {
    CallKeepsInv(s, 0, th);
    ApplyKeepsCounted(s, Call(0, th));
  }

  /** Threads that have left the ring can be forgotten. */
  lemma ForgetFinished(s: State)
    requires Inv(s) && forall t :: t in s.threads ==> s.threads[t].Finished()
    ensures Inv(s.(threads := map[]))
  {
    var s' := s.(threads := map[]);
    QuiescentOwners(s);
    QuiescentOwners(s');
    SameRing(s, s');
    assert forall p :: SeqAt(s', p) == SeqAt(s, p);
  }

  /** With nobody inside, a producer finds its slot free exactly when the ring has room. */
  lemma SoloSlot(s: State)
    requires Inv(s) && forall p :: !HasConsumer(s, p) && !HasProducer(s, p)
    ensures s.sh.enqueuePos < s.sh.dequeuePos + s.Cap() ==> SeqAt(s, s.sh.enqueuePos) == s.sh.enqueuePos
    ensures s.sh.enqueuePos == s.sh.dequeuePos + s.Cap() ==> SeqAt(s, s.sh.enqueuePos) < s.sh.enqueuePos
    ensures s.sh.dequeuePos < s.sh.enqueuePos ==> SeqAt(s, s.sh.dequeuePos) == s.sh.dequeuePos + 1
    ensures s.sh.dequeuePos == s.sh.enqueuePos ==> SeqAt(s, s.sh.dequeuePos) < s.sh.dequeuePos + 1
  {
    var e, d, n := s.sh.enqueuePos, s.sh.dequeuePos, s.Cap();
    IndexShift(d, n);
    if e < d + n { assert FreeSlot(s, e); }
    if d < e { assert WonSlot(s, d); }
  }

  class MpmcQueue {
    var enqueuePos: nat
    var dequeuePos: nat
    var totalEnqueued: nat
    var totalDequeued: nat
    const mask: nat
    const sequence: array<nat>
    const data: array<Ptr>
    ghost var log: seq<Ptr>
    ghost var returned: map<nat, Ptr>
    ghost const bits: nat

    ghost predicate Valid()
      reads this
    {
      && sequence != data && sequence.Length == data.Length == mask + 1
      && mask + 1 == Pow2(bits) && mask + 1 >= 2
    }

    ghost function Abs(): (sh: Shared)
      reads this, sequence, data
      requires Valid()
      ensures |sh.slots| == mask + 1
    {
      Shared(enqueuePos, dequeuePos,
             seq(mask + 1, i requires 0 <= i < mask + 1 reads this, sequence, data =>
               Slot(sequence[i], data[i])),
             totalEnqueued, totalDequeued)
    }

    /** No thread is inside the ring. */
    ghost predicate Quiescent()
      reads this, sequence, data
    {
      Valid() && Sound(State(Abs(), map[], log, returned))
    }

    /** The values in the ring, oldest first. */
    ghost function Contents(): seq<Ptr>
      reads this, sequence, data
      requires Quiescent()
    {
      log[dequeuePos..enqueuePos]
    }

    constructor (capacity: nat)
      ensures Quiescent() && Contents() == [] && fresh(sequence) && fresh(data)
      ensures RoundedUp(mask + 1, if capacity < 2 then 2 else capacity)
    {
      var want := if capacity < 2 then 2 else capacity;
      var cap := 1;
      ghost var k := 0;
      while cap < want
        invariant cap == Pow2(k)
        invariant cap == 1 || cap < 2 * want
        decreases 2 * want - cap
      {
        cap, k := 2 * cap, k + 1;
      }
      bits := k;
      mask := cap - 1;
      enqueuePos, dequeuePos := 0, 0;
      totalEnqueued, totalDequeued := 0, 0;
      log, returned := [], map[];
      sequence := new nat[cap];
      data := new Ptr[cap];
      new;
      for i := 0 to cap
        invariant Valid() && cap == mask + 1
        invariant enqueuePos == dequeuePos == totalEnqueued == totalDequeued == 0
        invariant log == [] && returned == map[]
        invariant forall j :: 0 <= j < i ==> sequence[j] == j && data[j] == 0
      {
        sequence[i] := i;
        data[i] := 0;
      }
      InitInv(State(Abs(), map[], log, returned));
      NobodyPending(State(Abs(), map[], log, returned));
    }

    /** The slot number of a position: `pos & mask`. */
    method SlotOf(pos: nat) returns (i: nat)
      requires Valid()
      ensures i == Index(pos, mask + 1)
    {
      MaskIsMod(pos, bits);
      i := And(pos, mask);
    }

    /** One atomic action of one call in progress. */
    method Act(th: Thread, spurious: bool) returns (th': Thread)
      requires Valid()
      modifies this`enqueuePos, this`dequeuePos, this`totalEnqueued, this`totalDequeued, sequence, data
      ensures Valid()
      ensures (Abs(), th') == Step(old(Abs()), th, spurious)
    {
      if th.Enqueues() { th' := ActEnqueue(th, spurious); } else { th' := ActDequeue(th, spurious); }
    }

    /** The actions of an enqueue. */
    method ActEnqueue(th: Thread, spurious: bool) returns (th': Thread)
      requires Valid() && th.Enqueues()
      modifies this`enqueuePos, this`dequeuePos, this`totalEnqueued, this`totalDequeued, sequence, data
      ensures Valid()
      ensures (Abs(), th') == Step(old(Abs()), th, spurious)
    {
      th' := th;
      match th {
        case EnqLoadPos(d) => th' := EnqLoadSeq(d, enqueuePos);
        case EnqLoadSeq(d, pos) =>
          var i := SlotOf(pos);
          var diff := sequence[i] - pos;
          if diff == 0 {
            th' := EnqCas(d, pos);
          } else if diff < 0 {
            th' := EnqFull(pos);
          } else {
            th' := EnqLoadPos(d);
          }
        case EnqCas(d, pos) =>
          if !spurious && enqueuePos == pos {
            enqueuePos := pos + 1;
            th' := EnqWrite(d, pos);
          } else {
            th' := EnqLoadSeq(d, enqueuePos);
          }
        case EnqWrite(d, pos) =>
          var i := SlotOf(pos);
          data[i] := d;
          th' := EnqPublish(d, pos);
        case EnqPublish(d, pos) =>
          var i := SlotOf(pos);
          sequence[i] := pos + 1;
          th' := EnqCount(d, pos);
        case EnqCount(d, pos) =>
          totalEnqueued := totalEnqueued + 1;
          th' := EnqOk(pos);
        case _ =>
      }
      assert Abs().slots == Step(old(Abs()), th, spurious).0.slots;
    }

    /** The actions of a dequeue. */
    method ActDequeue(th: Thread, spurious: bool) returns (th': Thread)
      requires Valid() && !th.Enqueues()
      modifies this`enqueuePos, this`dequeuePos, this`totalEnqueued, this`totalDequeued, sequence, data
      ensures Valid()
      ensures (Abs(), th') == Step(old(Abs()), th, spurious)
    {
      th' := th;
      match th {
        case DeqLoadPos => th' := DeqLoadSeq(dequeuePos);
        case DeqLoadSeq(pos) =>
          var i := SlotOf(pos);
          var diff := sequence[i] - (pos + 1);
          if diff == 0 {
            th' := DeqCas(pos);
          } else if diff < 0 {
            th' := DeqEmpty(pos);
          } else {
            th' := DeqLoadPos;
          }
        case DeqCas(pos) =>
          if !spurious && dequeuePos == pos {
            dequeuePos := pos + 1;
            th' := DeqRead(pos);
          } else {
            th' := DeqLoadSeq(dequeuePos);
          }
        case DeqRead(pos) =>
          var i := SlotOf(pos);
          th' := DeqRelease(pos, data[i]);
        case DeqRelease(pos, v) =>
          var i := SlotOf(pos);
          sequence[i] := pos + mask + 1;
          th' := DeqCount(pos, v);
        case DeqCount(pos, v) =>
          totalDequeued := totalDequeued + 1;
          th' := DeqOk(pos, v);
        case _ =>
      }
      assert Abs().slots == Step(old(Abs()), th, spurious).0.slots;
    }

    /** A whole enqueue while nobody else is inside: it fails exactly when the ring is full. */
    method Enqueue(value: Ptr) returns (ok: bool)
      requires Quiescent()
      modifies this, sequence, data
      ensures Quiescent()
      ensures ok <==> |old(Contents())| < mask + 1
      ensures Contents() == old(Contents()) + (if ok then [value] else [])
    {
      var th := EnqLoadPos(value);
      ghost var s := State(Abs(), map[], log, returned);
      EnterAlone(s, th);
      s := Apply(s, Call(0, th));
      ghost var start := s;
      while !th.Finished()
        invariant Valid() && s.sh == Abs() && s.threads == map[0 := th] && Sound(s)
        invariant s.log == log && s.returned == returned
        invariant SoloEnqueue(start, s, th, value)
        decreases EnqueueRank(th)
      {
        ghost var was := s;
        SoloEnqueueStep(start, s, th, value);
        th := Act(th, false);
        s := Advance(was, 0, false);
        log := s.log;
      }
      ok := th.EnqOk?;
      SoloEnqueueResult(start, s, th, value);
    }

    /** A whole dequeue while nobody else is inside: NULL exactly when the ring is empty. */
    method Dequeue() returns (ok: bool, value: Ptr)
      requires Quiescent()
      modifies this, sequence, data
      ensures Quiescent()
      ensures ok <==> old(Contents()) != []
      ensures ok ==> value == old(Contents())[0] && Contents() == old(Contents())[1..]
      ensures !ok ==> value == 0 && Contents() == old(Contents())
    {
      ghost var s := State(Abs(), map[], log, returned);
      EnterAlone(s, DeqLoadPos);
      ghost var start := Apply(s, Call(0, DeqLoadPos));
      var th;
      th, s := DequeueLoop(start);
      ok := th.DeqOk?;
      value := if th.DeqOk? then th.value else 0;
      SoloDequeueResult(start, s, th);
    }

    /** The retry loop of a dequeue that runs alone from `start`. */
    method DequeueLoop(ghost start: State) returns (th: Thread, ghost s: State)
      requires Valid() && start.sh == Abs() && start.threads == map[0 := DeqLoadPos] && Sound(start)
      requires start.log == log && start.returned == returned && SoloDequeue(start, start, DeqLoadPos)
      modifies this, sequence, data
      ensures Valid() && th.Finished() && s.sh == Abs() && s.threads == map[0 := th] && Sound(s)
      ensures s.log == log && s.returned == returned && SoloDequeue(start, s, th)
    {
      th := DeqLoadPos;
      s := start;
      while !th.Finished()
        invariant Valid() && s.sh == Abs() && s.threads == map[0 := th] && Sound(s)
        invariant s.log == log && s.returned == returned && SoloDequeue(start, s, th)
        decreases DequeueRank(th)
      {
        th, s := DequeueTurn(th, s, start);
      }
    }

    /** One turn of that loop is one step of the protocol. */
    method DequeueTurn(th: Thread, ghost s: State, ghost start: State) returns (th': Thread, ghost s': State)
      requires Valid() && s.sh == Abs() && s.threads == map[0 := th] && Sound(s)
      requires s.log == log && s.returned == returned && SoloDequeue(start, s, th) && !th.Finished()
      modifies this, sequence, data
      ensures Valid() && s'.sh == Abs() && s'.threads == map[0 := th'] && Sound(s')
      ensures s'.log == log && s'.returned == returned && SoloDequeue(start, s', th')
      ensures DequeueRank(th') < DequeueRank(th)
    {
      SoloDequeueStep(start, s, th);
      th' := Act(th, false);
      s' := Advance(s, 0, false);
      returned := s'.returned;
    }

    /** Outside any call the counters give the number of queued values. */
    method Size() returns (n: int)
      requires Quiescent()
      ensures n == |Contents()|
    {
      n := totalEnqueued - totalDequeued;
      NobodyPending(State(Abs(), map[], log, returned));
    }
  }

  /** Finished threads have all been counted. */
  lemma NobodyPending(s: State)
    requires forall t :: t in s.threads ==> s.threads[t].Finished()
    ensures Counted(s) <==> s.sh.totalEnqueued == s.sh.enqueuePos && s.sh.totalDequeued == s.sh.dequeuePos
    ensures Counted(s) <==> Counted(s.(threads := map[]))
  {
    assert EnqPending(s.threads) == {} && DeqPending(s.threads) == {};
    assert EnqPending(map[]) == {} && DeqPending(map[]) == {};
  }

  function EnqueueRank(th: Thread): nat {
    match th
    case EnqLoadPos(_) => 6
    case EnqLoadSeq(_, _) => 5
    case EnqCas(_, _) => 4
    case EnqWrite(_, _) => 3
    case EnqPublish(_, _) => 2
    case EnqCount(_, _) => 1
    case _ => 0
  }

  function DequeueRank(th: Thread): nat {
    match th
    case DeqLoadPos => 6
    case DeqLoadSeq(_) => 5
    case DeqCas(_) => 4
    case DeqRead(_) => 3
    case DeqRelease(_, _) => 2
    case DeqCount(_, _) => 1
    case _ => 0
  }

  /** How far a lone enqueue that entered at `start` has come. */
  ghost predicate SoloEnqueue(start: State, s: State, th: Thread, value: Ptr) {
    && s.sh.dequeuePos == start.sh.dequeuePos && s.returned == start.returned && s.Cap() == start.Cap()
    && start.sh.enqueuePos == |start.log|
    && (match th
        case EnqLoadPos(v) => s == start && v == value
        case EnqLoadSeq(v, pos) =>
          s.sh == start.sh && s.log == start.log && v == value && pos == start.sh.enqueuePos
        case EnqCas(v, pos) =>
          s.sh == start.sh && s.log == start.log && v == value && pos == start.sh.enqueuePos
          && pos < start.sh.dequeuePos + start.Cap()
        case EnqFull(pos) =>
          s.sh == start.sh && s.log == start.log && pos == start.sh.dequeuePos + start.Cap()
          && pos == start.sh.enqueuePos
        case _ =>
          (th.EnqWrite? || th.EnqPublish? || th.EnqCount? || th.EnqOk?)
          && s.sh.enqueuePos == start.sh.enqueuePos + 1 && s.log == start.log + [value]
          && start.sh.enqueuePos < start.sh.dequeuePos + start.Cap())
  }

  lemma SoloEnqueueStep(start: State, s: State, th: Thread, value: Ptr)
    requires Sound(s) && s.threads == map[0 := th] && !th.Finished()
    requires SoloEnqueue(start, s, th, value)
    ensures var s' := Advance(s, 0, false);
            && Sound(s') && s'.threads == map[0 := s'.threads[0]] && s'.returned == s.returned
            && SoloEnqueue(start, s', s'.threads[0], value)
            && EnqueueRank(s'.threads[0]) < EnqueueRank(th)
  {
    if th.EnqLoadSeq? {
      assert forall p :: !HasConsumer(s, p) && !HasProducer(s, p);
      SoloSlot(s);
    }
    SoloEnqueueMoves(start, s, th, value);
    AdvanceKeepsInv(s, 0, false);
    ApplyKeepsCounted(s, Act(0, false));
  }

  lemma SoloEnqueueResult(start: State, s: State, th: Thread, value: Ptr)
    requires Sound(s) && s.threads == map[0 := th] && th.Finished()
    requires SoloEnqueue(start, s, th, value)
    requires start.sh.dequeuePos <= start.sh.enqueuePos <= start.sh.dequeuePos + start.Cap()
    ensures th.EnqOk? <==> start.sh.enqueuePos - start.sh.dequeuePos < start.Cap()
    ensures s.log[s.sh.dequeuePos..s.sh.enqueuePos] ==
            start.log[start.sh.dequeuePos..start.sh.enqueuePos] + (if th.EnqOk? then [value] else [])
    ensures Sound(s.(threads := map[]))
  {
    ForgetFinished(s);
    NobodyPending(s);
  }

  lemma SoloEnqueueMoves(start: State, s: State, th: Thread, value: Ptr)
    requires s.threads == map[0 := th] && !th.Finished() && s.Cap() > 0
    requires SoloEnqueue(start, s, th, value)
    requires th.EnqLoadSeq? ==>
      && s.sh.enqueuePos <= s.sh.dequeuePos + s.Cap()
      && (s.sh.enqueuePos < s.sh.dequeuePos + s.Cap() ==> SeqAt(s, s.sh.enqueuePos) == s.sh.enqueuePos)
      && (s.sh.enqueuePos == s.sh.dequeuePos + s.Cap() ==> SeqAt(s, s.sh.enqueuePos) < s.sh.enqueuePos)
    ensures var s' := Advance(s, 0, false);
            && s'.threads == map[0 := s'.threads[0]] && s'.returned == s.returned
            && SoloEnqueue(start, s', s'.threads[0], value)
            && EnqueueRank(s'.threads[0]) < EnqueueRank(th)
  {
  }

  ghost predicate SoloDequeue(start: State, s: State, th: Thread) {
    && s.sh.enqueuePos == start.sh.enqueuePos && s.log == start.log && s.Cap() == start.Cap()
    && start.sh.enqueuePos == |start.log| && start.sh.dequeuePos <= start.sh.enqueuePos
    && (match th
        case DeqLoadPos => s == start
        case DeqLoadSeq(pos) => s.sh == start.sh && pos == start.sh.dequeuePos && s.returned == start.returned
        case DeqCas(pos) =>
          s.sh == start.sh && pos == start.sh.dequeuePos < start.sh.enqueuePos && s.returned == start.returned
        case DeqEmpty(pos) =>
          s.sh == start.sh && start.sh.dequeuePos == start.sh.enqueuePos && s.returned == start.returned
        case _ =>
          (th.DeqRead? || th.DeqRelease? || th.DeqCount? || th.DeqOk?)
          && start.sh.dequeuePos < start.sh.enqueuePos
          && th.pos == start.sh.dequeuePos && s.sh.dequeuePos == start.sh.dequeuePos + 1)
  }

  lemma SoloDequeueStep(start: State, s: State, th: Thread)
    requires Sound(s) && s.threads == map[0 := th] && !th.Finished()
    requires SoloDequeue(start, s, th)
    ensures var s' := Advance(s, 0, false);
            && Sound(s') && s'.threads == map[0 := s'.threads[0]] && s'.log == s.log
            && SoloDequeue(start, s', s'.threads[0])
            && DequeueRank(s'.threads[0]) < DequeueRank(th)
  {
    if th.DeqLoadSeq? {
      assert forall p :: !HasConsumer(s, p) && !HasProducer(s, p);
      SoloSlot(s);
    }
    SoloDequeueMoves(start, s, th);
    AdvanceKeepsInv(s, 0, false);
    ApplyKeepsCounted(s, Act(0, false));
  }

  lemma SoloDequeueMoves(start: State, s: State, th: Thread)
    requires s.threads == map[0 := th] && !th.Finished() && s.Cap() > 0
    requires SoloDequeue(start, s, th)
    requires th.DeqLoadSeq? ==>
      && (s.sh.dequeuePos < s.sh.enqueuePos ==> SeqAt(s, s.sh.dequeuePos) == s.sh.dequeuePos + 1)
      && (s.sh.dequeuePos == s.sh.enqueuePos ==> SeqAt(s, s.sh.dequeuePos) < s.sh.dequeuePos + 1)
    ensures var s' := Advance(s, 0, false);
            && s'.threads == map[0 := s'.threads[0]] && s'.log == s.log
            && SoloDequeue(start, s', s'.threads[0])
            && DequeueRank(s'.threads[0]) < DequeueRank(th)
  {
  }

  /** What the finished call returns. */
  lemma SoloDequeueResult(start: State, s: State, th: Thread)
    requires Sound(s) && s.threads == map[0 := th] && th.Finished()
    requires SoloDequeue(start, s, th)
    ensures th.DeqOk? <==> start.sh.dequeuePos < start.sh.enqueuePos
    ensures th.DeqOk? ==> th.value == start.log[start.sh.dequeuePos]
    ensures Sound(s.(threads := map[]))
  {
    assert ThreadOk(s, s.threads[0]);
    ForgetFinished(s);
    NobodyPending(s);
  }
}
