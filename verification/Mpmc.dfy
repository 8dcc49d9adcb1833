/** The bounded lock-free multi-producer multi-consumer ring as a transition system. */
module MpmcProtocol {
  import opened Bits

  // One step is one atomic action of one thread: a position load, a sequence load, a
  // compare-and-swap (which may also fail spuriously), a data access, a publishing
  // store, or a statistics increment.  Any number of threads may be inside a call.
  // Memory is sequentially consistent and positions are unbounded.

  /** A payload pointer; 0 is NULL. */
  type Ptr = nat

  datatype Slot = Slot(sequence: nat, data: Ptr)

  datatype Shared = Shared(
    enqueuePos: nat, dequeuePos: nat, slots: seq<Slot>,
    totalEnqueued: nat, totalDequeued: nat)

  /** Where a thread stands inside its current call, with its local variables. */
  datatype Thread =
    | EnqLoadPos(data: Ptr)
    | EnqLoadSeq(data: Ptr, pos: nat)
    | EnqCas(data: Ptr, pos: nat)
    | EnqWrite(data: Ptr, pos: nat)
    | EnqPublish(data: Ptr, pos: nat)
    | EnqCount(data: Ptr, pos: nat)
    | EnqOk(pos: nat)
    | EnqFull(pos: nat)
    | DeqLoadPos
    | DeqLoadSeq(pos: nat)
    | DeqCas(pos: nat)
    | DeqRead(pos: nat)
    | DeqRelease(pos: nat, value: Ptr)
    | DeqCount(pos: nat, value: Ptr)
    | DeqOk(pos: nat, value: Ptr)
    | DeqEmpty(pos: nat)
  {
    predicate Finished() {
      EnqOk? || EnqFull? || DeqOk? || DeqEmpty?
    }

    predicate Enqueues() {
      EnqLoadPos? || EnqLoadSeq? || EnqCas? || EnqWrite? || EnqPublish? || EnqCount? || EnqOk? || EnqFull?
    }

    /** Between winning a ticket and publishing it, a producer owns the ticket's slot. */
    predicate Produces(ticket: int) {
      (EnqWrite? || EnqPublish?) && pos == ticket
    }

    /** Between winning a ticket and releasing it, a consumer owns the ticket's slot. */
    predicate Consumes(ticket: int) {
      (DeqRead? || DeqRelease?) && pos == ticket
    }

    /** The producer has won its ticket and has not yet bumped the counter. */
    predicate UncountedEnq() {
      EnqWrite? || EnqPublish? || EnqCount?
    }

    predicate UncountedDeq() {
      DeqRead? || DeqRelease? || DeqCount?
    }
  }

  /** The slot a position maps to: `pos & mask` with `mask + 1` slots, see Bits.MaskIsMod. */
  function Index(pos: nat, n: nat): (i: nat)
    requires n > 0
    ensures i < n
  {
    pos % n
  }

  /** One atomic action of a thread that is inside a call. */
  function Step(sh: Shared, th: Thread, spurious: bool): (r: (Shared, Thread))
    requires |sh.slots| > 0
    ensures |r.0.slots| == |sh.slots|
  {
    var n := |sh.slots|;
    match th
    case EnqLoadPos(d) => (sh, EnqLoadSeq(d, sh.enqueuePos))
    case EnqLoadSeq(d, pos) =>
      var seqNo := sh.slots[Index(pos, n)].sequence;
      if seqNo == pos then (sh, EnqCas(d, pos))
      else if seqNo < pos then (sh, EnqFull(pos))
      else (sh, EnqLoadPos(d))
    case EnqCas(d, pos) =>
      if !spurious && sh.enqueuePos == pos
      then (sh.(enqueuePos := pos + 1), EnqWrite(d, pos))
      else (sh, EnqLoadSeq(d, sh.enqueuePos))
    case EnqWrite(d, pos) =>
      var i := Index(pos, n);
      (sh.(slots := sh.slots[i := sh.slots[i].(data := d)]), EnqPublish(d, pos))
    case EnqPublish(d, pos) =>
      var i := Index(pos, n);
      (sh.(slots := sh.slots[i := sh.slots[i].(sequence := pos + 1)]), EnqCount(d, pos))
    case EnqCount(d, pos) => (sh.(totalEnqueued := sh.totalEnqueued + 1), EnqOk(pos))
    case DeqLoadPos => (sh, DeqLoadSeq(sh.dequeuePos))
    case DeqLoadSeq(pos) =>
      var seqNo := sh.slots[Index(pos, n)].sequence;
      if seqNo == pos + 1 then (sh, DeqCas(pos))
      else if seqNo < pos + 1 then (sh, DeqEmpty(pos))
      else (sh, DeqLoadPos)
    case DeqCas(pos) =>
      if !spurious && sh.dequeuePos == pos
      then (sh.(dequeuePos := pos + 1), DeqRead(pos))
      else (sh, DeqLoadSeq(sh.dequeuePos))
    case DeqRead(pos) => (sh, DeqRelease(pos, sh.slots[Index(pos, n)].data))
    case DeqRelease(pos, v) =>
      var i := Index(pos, n);
      (sh.(slots := sh.slots[i := sh.slots[i].(sequence := pos + n)]), DeqCount(pos, v))
    case DeqCount(pos, v) => (sh.(totalDequeued := sh.totalDequeued + 1), DeqOk(pos, v))
    case EnqOk(_) => (sh, th)
    case EnqFull(_) => (sh, th)
    case DeqOk(_, _) => (sh, th)
    case DeqEmpty(_) => (sh, th)
  }

  /**
   The whole system: the shared ring, every thread that ever made a call, and two
   history variables.  `log[p]` is the value of the producer that won ticket `p`;
   `returned[p]` is the value the consumer of ticket `p` gives back to its caller.
   */
  datatype State = State(sh: Shared, threads: map<nat, Thread>, log: seq<Ptr>, returned: map<nat, Ptr>) {
    function Cap(): nat { |sh.slots| }
  }

  function SeqAt(s: State, ticket: nat): nat
    requires s.Cap() > 0
  {
    s.sh.slots[Index(ticket, s.Cap())].sequence
  }

  function DataAt(s: State, ticket: nat): Ptr
    requires s.Cap() > 0
  {
    s.sh.slots[Index(ticket, s.Cap())].data
  }

  function Advance(s: State, t: nat, spurious: bool): State
    requires s.Cap() > 0 && t in s.threads
  {
    var th := s.threads[t];
    var (sh', th') := Step(s.sh, th, spurious);
    State(sh', s.threads[t := th'],
          if th.EnqCas? && th'.EnqWrite? then s.log + [th.data] else s.log,
          if th.DeqRelease? then s.returned[th.pos := th.value] else s.returned)
  }

  datatype Event = Call(tid: nat, start: Thread) | Act(tid: nat, spurious: bool)

  /** A thread enters a call only when it is not already inside one. */
  ghost predicate Enabled(s: State, e: Event) {
    match e
    case Call(t, th) =>
      (th.EnqLoadPos? || th.DeqLoadPos?) && (t in s.threads ==> s.threads[t].Finished())
    case Act(t, _) => s.Cap() > 0 && t in s.threads
  }

  function Apply(s: State, e: Event): State
    requires Enabled(s, e)
  {
    match e
    case Call(t, th) => s.(threads := s.threads[t := th])
    case Act(t, spurious) => Advance(s, t, spurious)
  }

  ghost predicate Init(s: State) {
    && s.Cap() >= 2
    && s.sh.enqueuePos == 0 && s.sh.dequeuePos == 0
    && s.sh.totalEnqueued == 0 && s.sh.totalDequeued == 0
    && (forall i :: 0 <= i < s.Cap() ==> s.sh.slots[i].sequence == i)
    && s.threads == map[] && s.log == [] && s.returned == map[]
  }

  /** `run` is a finite execution: every event is enabled where it happens. */
  ghost predicate IsRun(s: State, events: seq<Event>, s': State)
    decreases |events|
  {
    if events == [] then s == s'
    else Enabled(s, events[0]) && IsRun(Apply(s, events[0]), events[1..], s')
  }

  ghost predicate Reachable(s: State) {
    exists s0, events :: Init(s0) && IsRun(s0, events, s)
  }

  // ---------------------------------------------------------------- invariant

  /** A slot of a ticket that is already won by a producer. */
  ghost predicate WonSlot(s: State, p: nat)
    requires s.Cap() > 0 && p < |s.log|
  {
    || SeqAt(s, p) == p
    || (SeqAt(s, p) == p + 1 && DataAt(s, p) == s.log[p])
  }

  /** A slot of a ticket no producer has won yet: free, or held by the previous lap's consumer. */
  ghost predicate FreeSlot(s: State, p: nat)
    requires s.Cap() > 0
  {
    || SeqAt(s, p) == p
    || (p >= s.Cap() && SeqAt(s, p) == p - s.Cap() + 1)
  }

  ghost predicate SlotsOk(s: State) {
    var e, d, n := s.sh.enqueuePos, s.sh.dequeuePos, s.Cap();
    && n >= 2
    && d <= e <= d + n
    && |s.log| == e
    && (forall p :: d <= p < e ==> WonSlot(s, p))
    && (forall p :: e <= p < d + n ==> FreeSlot(s, p))
  }

  ghost predicate ThreadOk(s: State, th: Thread)
    requires SlotsOk(s)
  {
    var e, d, n := s.sh.enqueuePos, s.sh.dequeuePos, s.Cap();
    match th
    case EnqLoadSeq(_, pos) => pos <= e
    case EnqCas(_, pos) => pos <= e && (pos == e ==> e < d + n && SeqAt(s, pos) == pos)
    case EnqWrite(v, pos) => d <= pos < e && SeqAt(s, pos) == pos && s.log[pos] == v
    case EnqPublish(v, pos) =>
      d <= pos < e && SeqAt(s, pos) == pos && s.log[pos] == v && DataAt(s, pos) == v
    case DeqLoadSeq(pos) => pos <= d
    case DeqCas(pos) => pos <= d && (pos == d ==> d < e && SeqAt(s, pos) == pos + 1)
    case DeqRead(pos) =>
      pos < d && e <= pos + n && SeqAt(s, pos + n) == pos + 1 && DataAt(s, pos + n) == s.log[pos]
      && pos !in s.returned
    case DeqRelease(pos, v) =>
      pos < d && e <= pos + n && SeqAt(s, pos + n) == pos + 1 && v == s.log[pos]
      && pos !in s.returned
    case DeqCount(pos, v) => pos < d && v == s.log[pos] && pos in s.returned
    case DeqOk(pos, v) => pos < d && v == s.log[pos] && pos in s.returned
    case _ => true
  }

  ghost predicate ThreadsOk(s: State)
    requires SlotsOk(s)
  {
    forall t :: t in s.threads ==> ThreadOk(s, s.threads[t])
  }

  /** No two threads own the same ticket between its CAS and its publication. */
  ghost predicate Exclusive(s: State) {
    && (forall t, u, p | t in s.threads && u in s.threads ::
          s.threads[t].Produces(p) && s.threads[u].Produces(p) ==> t == u)
    && (forall t, u, p | t in s.threads && u in s.threads ::
          s.threads[t].Consumes(p) && s.threads[u].Consumes(p) ==> t == u)
  }

  ghost predicate HasProducer(s: State, p: int) {
    exists t :: t in s.threads && s.threads[t].Produces(p)
  }

  ghost predicate HasConsumer(s: State, p: int) {
    exists t :: t in s.threads && s.threads[t].Consumes(p)
  }

  /** Nothing is lost: a won unpublished ticket has its producer, a taken unreturned one its consumer. */
  ghost predicate Accounted(s: State)
    requires SlotsOk(s)
  {
    var e, d, n := s.sh.enqueuePos, s.sh.dequeuePos, s.Cap();
    && (forall p :: d <= p < e && SeqAt(s, p) == p ==> HasProducer(s, p))
    && (forall p :: e <= p < d + n && p >= n && SeqAt(s, p) != p ==> HasConsumer(s, p - n))
    && (forall p: nat :: p < d ==> p in s.returned || HasConsumer(s, p))
    && (forall p :: p in s.returned ==> p < d && s.returned[p] == s.log[p])
  }

  ghost predicate Inv(s: State) {
    SlotsOk(s) && ThreadsOk(s) && Exclusive(s) && Accounted(s)
  }

  // ---------------------------------------------------------------- arithmetic

  lemma IndexShift(p: nat, n: nat)
    requires n > 0
    ensures Index(p + n, n) == Index(p, n)
  {
    assert p + n == n * (p / n + 1) + p % n;
    DivModUnique(p + n, n, p / n + 1, p % n);
  }

  /** Tickets less than one lap apart use different slots. */
  lemma IndexDistinct(p: nat, q: nat, n: nat)
    requires p < q < p + n
    ensures Index(p, n) != Index(q, n)
  {
    var k := q / n - p / n;
    assert q - p == n * k + (q % n - p % n) by {
      assert n * k == n * (q / n) - n * (p / n);
    }
    MulBounds(n, k);
  }

  /** Rewriting one slot is invisible to every other ticket within a lap of it. */
  lemma SlotFrame(s: State, s': State, p0: nat, slot: Slot, q: nat)
    requires s.Cap() > 0
    requires s'.sh.slots == s.sh.slots[Index(p0, s.Cap()) := slot]
    requires q != p0 && q < p0 + s.Cap() && p0 < q + s.Cap()
    ensures SeqAt(s', q) == SeqAt(s, q) && DataAt(s', q) == DataAt(s, q)
  {
    if q < p0 { IndexDistinct(q, p0, s.Cap()); } else { IndexDistinct(p0, q, s.Cap()); }
  }

  // ---------------------------------------------------------------- preservation

  /** What the slots of two states with the same ring say about every ticket. */
  lemma SameRing(s: State, s': State)
    requires SlotsOk(s)
    requires s'.sh.slots == s.sh.slots && s'.log == s.log
    requires s'.sh.enqueuePos == s.sh.enqueuePos && s'.sh.dequeuePos == s.sh.dequeuePos
    ensures SlotsOk(s')
    ensures forall th :: ThreadOk(s, th) && s'.returned == s.returned ==> ThreadOk(s', th)
  {
    forall p | s.sh.dequeuePos <= p < s.sh.enqueuePos ensures WonSlot(s', p) { assert WonSlot(s, p); }
    forall p | s.sh.enqueuePos <= p < s.sh.dequeuePos + s.Cap() ensures FreeSlot(s', p) { assert FreeSlot(s, p); }
  }

  /** Replacing one thread by one that owns the same tickets keeps every owner. */
  lemma SameOwners(s: State, s': State, t: nat, th: Thread)
    requires s'.threads == s.threads[t := th]
    requires forall p :: th.Produces(p) <==> (t in s.threads && s.threads[t].Produces(p))
    requires forall p :: th.Consumes(p) <==> (t in s.threads && s.threads[t].Consumes(p))
    ensures Exclusive(s) ==> Exclusive(s')
    ensures forall p :: HasProducer(s, p) ==> HasProducer(s', p)
    ensures forall p :: HasConsumer(s, p) ==> HasConsumer(s', p)
  {
    forall p | HasProducer(s, p) ensures HasProducer(s', p) {
      var u :| u in s.threads && s.threads[u].Produces(p);
      assert u in s'.threads && s'.threads[u].Produces(p);
    }
    forall p | HasConsumer(s, p) ensures HasConsumer(s', p) {
      var u :| u in s.threads && s.threads[u].Consumes(p);
      assert u in s'.threads && s'.threads[u].Consumes(p);
    }
  }

  /** An action that touches only the acting thread's own locals and owns the same slots. */
  lemma LocalStepKeepsInv(s: State, t: nat, th: Thread, s': State)
    requires Inv(s)
    requires s'.sh.slots == s.sh.slots && s'.log == s.log && s'.returned == s.returned
    requires s'.sh.enqueuePos == s.sh.enqueuePos && s'.sh.dequeuePos == s.sh.dequeuePos
    requires s'.threads == s.threads[t := th]
    requires ThreadOk(s, th)
    requires forall p :: th.Produces(p) <==> (t in s.threads && s.threads[t].Produces(p))
    requires forall p :: th.Consumes(p) <==> (t in s.threads && s.threads[t].Consumes(p))
    ensures Inv(s')
  {
    SameRing(s, s');
    SameOwners(s, s', t, th);
    assert ThreadsOk(s');
    assert forall p :: SeqAt(s', p) == SeqAt(s, p);
  }

  /** A producer wins the ticket `enqueuePos`. */
  lemma WinEnqueueKeepsInv(s: State, t: nat, d: Ptr, s': State)
    requires Inv(s) && t in s.threads
    requires s.threads[t] == EnqCas(d, s.sh.enqueuePos)
    requires s' == Advance(s, t, false)
    ensures Inv(s')
  {
    WinEnqueueSlots(s, t, d, s');
    WinEnqueueOwners(s, t, d, s');
    WinEnqueueThreads(s, t, d, s');
    assert forall p :: SeqAt(s', p) == SeqAt(s, p);
  }

  lemma WinEnqueueSlots(s: State, t: nat, d: Ptr, s': State)
    requires Inv(s) && t in s.threads
    requires s.threads[t] == EnqCas(d, s.sh.enqueuePos)
    requires s' == Advance(s, t, false)
    ensures SlotsOk(s')
  {
    var e := s.sh.enqueuePos;
    assert ThreadOk(s, s.threads[t]);
    forall p | s.sh.dequeuePos <= p < e + 1 ensures WonSlot(s', p) {
      if p < e { assert WonSlot(s, p); }
    }
    forall p | e + 1 <= p < s.sh.dequeuePos + s.Cap() ensures FreeSlot(s', p) { assert FreeSlot(s, p); }
  }

  lemma WinEnqueueThreads(s: State, t: nat, d: Ptr, s': State)
    requires Inv(s) && t in s.threads
    requires s.threads[t] == EnqCas(d, s.sh.enqueuePos)
    requires s' == Advance(s, t, false) && SlotsOk(s')
    ensures ThreadsOk(s')
  {
    assert ThreadOk(s, s.threads[t]);
    forall u | u in s'.threads ensures ThreadOk(s', s'.threads[u]) {
      if u != t { assert ThreadOk(s, s.threads[u]); }
    }
  }

  lemma WinEnqueueOwners(s: State, t: nat, d: Ptr, s': State)
    requires Inv(s) && t in s.threads
    requires s.threads[t] == EnqCas(d, s.sh.enqueuePos)
    requires s' == Advance(s, t, false)
    ensures Exclusive(s')
    ensures HasProducer(s', s.sh.enqueuePos)
    ensures forall p :: HasProducer(s, p) ==> HasProducer(s', p)
    ensures forall p :: HasConsumer(s, p) ==> HasConsumer(s', p)
  {
    forall u, p | u in s.threads && s.threads[u].Produces(p) ensures p < s.sh.enqueuePos {
      assert ThreadOk(s, s.threads[u]);
    }
    assert s'.threads[t].Produces(s.sh.enqueuePos);
    forall p | HasProducer(s, p) ensures HasProducer(s', p) {
      var u :| u in s.threads && s.threads[u].Produces(p);
      assert u in s'.threads && s'.threads[u].Produces(p);
    }
    forall p | HasConsumer(s, p) ensures HasConsumer(s', p) {
      var u :| u in s.threads && s.threads[u].Consumes(p);
      assert u in s'.threads && s'.threads[u].Consumes(p);
    }
  }

  /** A consumer wins the ticket `dequeuePos`. */
  lemma WinDequeueKeepsInv(s: State, t: nat, s': State)
    requires Inv(s) && t in s.threads
    requires s.threads[t] == DeqCas(s.sh.dequeuePos)
    requires s' == Advance(s, t, false)
    ensures Inv(s')
  {
    WinDequeueSlots(s, t, s');
    WinDequeueOwners(s, t, s');
    WinDequeueThreads(s, t, s');
    var d, n := s.sh.dequeuePos, s.Cap();
    assert forall p :: SeqAt(s', p) == SeqAt(s, p);
    forall p: nat | p < d + 1 ensures p in s'.returned || HasConsumer(s', p) {
      assert p < d ==> p in s.returned || HasConsumer(s, p);
    }
  }

  lemma WinDequeueSlots(s: State, t: nat, s': State)
    requires Inv(s) && t in s.threads
    requires s.threads[t] == DeqCas(s.sh.dequeuePos)
    requires s' == Advance(s, t, false)
    ensures SlotsOk(s')
    ensures s.sh.dequeuePos < s.sh.enqueuePos
    ensures SeqAt(s, s.sh.dequeuePos + s.Cap()) == s.sh.dequeuePos + 1
    ensures DataAt(s, s.sh.dequeuePos + s.Cap()) == s.log[s.sh.dequeuePos]
  {
    var e, d, n := s.sh.enqueuePos, s.sh.dequeuePos, s.Cap();
    assert ThreadOk(s, s.threads[t]);
    IndexShift(d, n);
    assert WonSlot(s, d);
    forall p | d + 1 <= p < e ensures WonSlot(s', p) { assert WonSlot(s, p); }
    forall p | e <= p < d + 1 + n ensures FreeSlot(s', p) {
      if p < d + n { assert FreeSlot(s, p); }
    }
  }

  lemma WinDequeueThreads(s: State, t: nat, s': State)
    requires Inv(s) && t in s.threads
    requires s.threads[t] == DeqCas(s.sh.dequeuePos)
    requires s' == Advance(s, t, false)
    requires SlotsOk(s')
    requires s.sh.dequeuePos < s.sh.enqueuePos
    requires SeqAt(s, s.sh.dequeuePos + s.Cap()) == s.sh.dequeuePos + 1
    requires DataAt(s, s.sh.dequeuePos + s.Cap()) == s.log[s.sh.dequeuePos]
    ensures ThreadsOk(s')
  {
    assert ThreadOk(s, s.threads[t]);
    assert ThreadOk(s', s'.threads[t]);
    forall u | u in s'.threads ensures ThreadOk(s', s'.threads[u]) {
      if u != t { assert ThreadOk(s, s.threads[u]); }
    }
  }

  lemma WinDequeueOwners(s: State, t: nat, s': State)
    requires Inv(s) && t in s.threads
    requires s.threads[t] == DeqCas(s.sh.dequeuePos)
    requires s' == Advance(s, t, false)
    ensures Exclusive(s')
    ensures HasConsumer(s', s.sh.dequeuePos)
    ensures forall p :: HasProducer(s, p) ==> HasProducer(s', p)
    ensures forall p :: HasConsumer(s, p) ==> HasConsumer(s', p)
  {
    forall u, p | u in s.threads && s.threads[u].Consumes(p) ensures p < s.sh.dequeuePos {
      assert ThreadOk(s, s.threads[u]);
    }
    assert s'.threads[t].Consumes(s.sh.dequeuePos);
    forall p | HasProducer(s, p) ensures HasProducer(s', p) {
      var u :| u in s.threads && s.threads[u].Produces(p);
      assert u in s'.threads && s'.threads[u].Produces(p);
    }
    forall p | HasConsumer(s, p) ensures HasConsumer(s', p) {
      var u :| u in s.threads && s.threads[u].Consumes(p);
      assert u in s'.threads && s'.threads[u].Consumes(p);
    }
  }

  /** Rewriting the slot of one live ticket leaves every other live ticket's slot alone. */
  lemma WindowFrame(s: State, s': State, p0: nat, slot: Slot)
    requires SlotsOk(s)
    requires s.sh.dequeuePos <= p0 < s.sh.dequeuePos + s.Cap()
    requires s'.sh.slots == s.sh.slots[Index(p0, s.Cap()) := slot]
    ensures SeqAt(s', p0) == slot.sequence && DataAt(s', p0) == slot.data
    ensures forall q :: s.sh.dequeuePos <= q < s.sh.dequeuePos + s.Cap() && q != p0 ==>
              SeqAt(s', q) == SeqAt(s, q) && DataAt(s', q) == DataAt(s, q)
  {
    forall q | s.sh.dequeuePos <= q < s.sh.dequeuePos + s.Cap() && q != p0
      ensures SeqAt(s', q) == SeqAt(s, q) && DataAt(s', q) == DataAt(s, q)
    {
      SlotFrame(s, s', p0, slot, q);
    }
  }

  /** `s'` is `s` after the owner `t` of live ticket `p0` rewrote that ticket's slot. */
  ghost predicate SlotStep(s: State, t: nat, p0: nat, slot: Slot, s': State) {
    && Inv(s) && t in s.threads
    && s.sh.dequeuePos <= p0 < s.sh.dequeuePos + s.Cap()
    && s'.sh.slots == s.sh.slots[Index(p0, s.Cap()) := slot]
    && s'.sh.enqueuePos == s.sh.enqueuePos && s'.sh.dequeuePos == s.sh.dequeuePos
    && s'.log == s.log
    && t in s'.threads && s'.threads == s.threads[t := s'.threads[t]]
    && (p0 < s.sh.enqueuePos ==>
          && s.threads[t].Produces(p0) && s'.returned == s.returned
          && (slot.sequence == p0 || (slot.sequence == p0 + 1 && slot.data == s.log[p0])))
    && (p0 >= s.sh.enqueuePos ==>
          && s.threads[t].Consumes(p0 - s.Cap()) && slot.sequence == p0
          && s'.returned == s.returned[(p0 - s.Cap()) := s.log[p0 - s.Cap()]])
  }

  lemma SlotStepSlots(s: State, t: nat, p0: nat, slot: Slot, s': State)
    requires SlotStep(s, t, p0, slot, s')
    ensures SlotsOk(s')
  {
    WindowFrame(s, s', p0, slot);
    forall p | s.sh.dequeuePos <= p < s.sh.enqueuePos ensures WonSlot(s', p) { assert WonSlot(s, p); }
    forall p | s.sh.enqueuePos <= p < s.sh.dequeuePos + s.Cap() ensures FreeSlot(s', p) { assert FreeSlot(s, p); }
  }

  /** The slot of a live ticket is rewritten: the frame both cases below start from. */
  ghost predicate Rewritten(s: State, p0: nat, slot: Slot, s': State) {
    && SlotsOk(s) && SlotsOk(s')
    && s.sh.dequeuePos <= p0 < s.sh.dequeuePos + s.Cap()
    && s'.sh.slots == s.sh.slots[Index(p0, s.Cap()) := slot]
    && s'.sh.enqueuePos == s.sh.enqueuePos && s'.sh.dequeuePos == s.sh.dequeuePos && s'.log == s.log
  }

  /** Rewritten by its producer, the slot matters to nobody who does not own the ticket. */
  lemma ProducerRewrites(s: State, p0: nat, slot: Slot, s': State, th: Thread)
    requires Rewritten(s, p0, slot, s') && p0 < s.sh.enqueuePos && s'.returned == s.returned
    requires slot.sequence == p0 || slot.sequence == p0 + 1
    requires ThreadOk(s, th) && !th.Produces(p0) && SeqAt(s, p0) == p0
    ensures ThreadOk(s', th)
  {
    WindowFrame(s, s', p0, slot);
  }

  /** Rewritten by the consumer of the lap before, likewise. */
  lemma ConsumerRewrites(s: State, p0: nat, slot: Slot, s': State, th: Thread)
    requires Rewritten(s, p0, slot, s') && p0 >= s.sh.enqueuePos && p0 >= s.Cap() && slot.sequence == p0
    requires s'.returned == s.returned[(p0 - s.Cap()) := s.log[p0 - s.Cap()]]
    requires ThreadOk(s, th) && !th.Consumes(p0 - s.Cap())
    ensures ThreadOk(s', th)
  {
    WindowFrame(s, s', p0, slot);
  }

  lemma SlotStepOther(s: State, t: nat, p0: nat, slot: Slot, s': State, u: nat)
    requires SlotStep(s, t, p0, slot, s') && SlotsOk(s')
    requires u in s.threads && u != t
    ensures ThreadOk(s', s.threads[u])
  {
    assert ThreadOk(s, s.threads[t]) && ThreadOk(s, s.threads[u]);
    if p0 < s.sh.enqueuePos {
      assert !s.threads[u].Produces(p0);
      ProducerRewrites(s, p0, slot, s', s.threads[u]);
    } else {
      assert !s.threads[u].Consumes(p0 - s.Cap());
      ConsumerRewrites(s, p0, slot, s', s.threads[u]);
    }
  }

  lemma SlotStepThreads(s: State, t: nat, p0: nat, slot: Slot, s': State)
    requires SlotStep(s, t, p0, slot, s') && SlotsOk(s')
    requires ThreadOk(s', s'.threads[t])
    ensures ThreadsOk(s')
  {
    forall u | u in s'.threads ensures ThreadOk(s', s'.threads[u]) {
      if u != t { SlotStepOther(s, t, p0, slot, s', u); }
    }
  }

  /** The winner stores its payload; nobody else looks at the slot meanwhile. */
  lemma WriteKeepsInv(s: State, t: nat, d: Ptr, pos: nat, s': State)
    requires Inv(s) && t in s.threads
    requires s.threads[t] == EnqWrite(d, pos)
    requires s' == Advance(s, t, false)
    ensures Inv(s')
  {
    assert ThreadOk(s, s.threads[t]);
    assert s.threads[t].Produces(pos);
    SlotStepSlots(s, t, pos, Slot(pos, d), s');
    WindowFrame(s, s', pos, Slot(pos, d));
    SlotStepThreads(s, t, pos, Slot(pos, d), s');
    SameOwners(s, s', t, EnqPublish(d, pos));
  }

  /** The winner publishes its ticket. */
  lemma PublishKeepsInv(s: State, t: nat, d: Ptr, pos: nat, s': State)
    requires Inv(s) && t in s.threads
    requires s.threads[t] == EnqPublish(d, pos)
    requires s' == Advance(s, t, false)
    ensures Inv(s')
  {
    assert ThreadOk(s, s.threads[t]);
    assert s.threads[t].Produces(pos);
    SlotStepSlots(s, t, pos, Slot(pos + 1, d), s');
    WindowFrame(s, s', pos, Slot(pos + 1, d));
    SlotStepThreads(s, t, pos, Slot(pos + 1, d), s');
    DroppedOwner(s, s', t, EnqCount(d, pos), pos);
  }

  /** The consumer hands its slot to the next lap's producer. */
  lemma ReleaseKeepsInv(s: State, t: nat, pos: nat, v: Ptr, s': State)
    requires Inv(s) && t in s.threads
    requires s.threads[t] == DeqRelease(pos, v)
    requires s' == Advance(s, t, false)
    ensures Inv(s')
  {
    var p0 := pos + s.Cap();
    assert ThreadOk(s, s.threads[t]);
    assert s.threads[t].Consumes(pos);
    IndexShift(pos, s.Cap());
    var slot := Slot(p0, DataAt(s, p0));
    SlotStepSlots(s, t, p0, slot, s');
    WindowFrame(s, s', p0, slot);
    SlotStepThreads(s, t, p0, slot, s');
    DroppedOwner(s, s', t, DeqCount(pos, v), pos);
  }

  /** A thread that gives up its ticket leaves every other ticket's owner in place. */
  lemma DroppedOwner(s: State, s': State, t: nat, th: Thread, pos: nat)
    requires t in s.threads && s'.threads == s.threads[t := th]
    requires th.EnqCount? || th.DeqCount?
    requires s.threads[t].Produces(pos) || s.threads[t].Consumes(pos)
    ensures Exclusive(s) ==> Exclusive(s')
    ensures forall p :: HasProducer(s, p) && (s.threads[t].Produces(p) ==> p != pos) ==> HasProducer(s', p)
    ensures forall p :: HasConsumer(s, p) && (s.threads[t].Consumes(p) ==> p != pos) ==> HasConsumer(s', p)
  {
    forall p | HasProducer(s, p) && (s.threads[t].Produces(p) ==> p != pos) ensures HasProducer(s', p) {
      var u :| u in s.threads && s.threads[u].Produces(p);
      assert u in s'.threads && s'.threads[u].Produces(p);
    }
    forall p | HasConsumer(s, p) && (s.threads[t].Consumes(p) ==> p != pos) ensures HasConsumer(s', p) {
      var u :| u in s.threads && s.threads[u].Consumes(p);
      assert u in s'.threads && s'.threads[u].Consumes(p);
    }
  }

  /** What the acting thread's next local state satisfies when the ring is untouched. */
  lemma EnqLoadsKeepThreadOk(s: State, th: Thread, spurious: bool)
    requires Inv(s) && ThreadOk(s, th)
    requires th.EnqLoadPos? || th.EnqLoadSeq? || th.EnqCas?
    requires th.EnqCas? ==> spurious || th.pos != s.sh.enqueuePos
    ensures ThreadOk(s, Step(s.sh, th, spurious).1)
  {
    if th.EnqLoadSeq? { EnqueueCasFacts(s, th.pos); }
  }

  lemma DeqLoadsKeepThreadOk(s: State, th: Thread, spurious: bool)
    requires Inv(s) && ThreadOk(s, th)
    requires th.DeqLoadPos? || th.DeqLoadSeq? || th.DeqCas?
    requires th.DeqCas? ==> spurious || th.pos != s.sh.dequeuePos
    ensures ThreadOk(s, Step(s.sh, th, spurious).1)
  {
    if th.DeqLoadSeq? { DequeueCasFacts(s, th.pos); }
  }

  lemma ReadKeepsThreadOk(s: State, th: Thread, spurious: bool)
    requires Inv(s) && ThreadOk(s, th) && th.DeqRead?
    ensures ThreadOk(s, Step(s.sh, th, spurious).1)
  {
    IndexShift(th.pos, s.Cap());
  }

  ghost predicate Quiet(s: State, th: Thread, spurious: bool) {
    && !th.EnqWrite? && !th.EnqPublish? && !th.DeqRelease?
    && (th.EnqCas? ==> spurious || th.pos != s.sh.enqueuePos)
    && (th.DeqCas? ==> spurious || th.pos != s.sh.dequeuePos)
  }

  /** Every action that leaves positions and slots alone only moves the thread's program counter. */
  lemma QuietActionKeepsInv(s: State, t: nat, spurious: bool)
    requires Inv(s) && t in s.threads && Quiet(s, s.threads[t], spurious)
    ensures Inv(Advance(s, t, spurious))
  {
    var th := s.threads[t];
    var s' := Advance(s, t, spurious);
    assert ThreadOk(s, th);
    QuietStepOk(s, th, spurious);
    LocalStepKeepsInv(s, t, s'.threads[t], s');
  }

  /** The thread's new place is as sound as its old one, and it owns what it owned. */
  lemma QuietStepOk(s: State, th: Thread, spurious: bool)
    requires Inv(s) && ThreadOk(s, th) && Quiet(s, th, spurious)
    ensures var th' := Step(s.sh, th, spurious).1;
            && ThreadOk(s, th')
            && (forall p :: th'.Produces(p) <==> th.Produces(p)) && (forall p :: th'.Consumes(p) <==> th.Consumes(p))
  {
    if th.EnqLoadPos? || th.EnqLoadSeq? || th.EnqCas? {
      EnqLoadsKeepThreadOk(s, th, spurious);
    } else if th.DeqLoadPos? || th.DeqLoadSeq? || th.DeqCas? {
      DeqLoadsKeepThreadOk(s, th, spurious);
    } else if th.DeqRead? {
      ReadKeepsThreadOk(s, th, spurious);
    }
  }

  /** One atomic action of any thread keeps the invariant. */
  lemma AdvanceKeepsInv(s: State, t: nat, spurious: bool)
    requires Inv(s) && t in s.threads
    ensures Inv(Advance(s, t, spurious))
  {
    var th := s.threads[t];
    var s' := Advance(s, t, spurious);
    if th.EnqWrite? {
      WriteKeepsInv(s, t, th.data, th.pos, s');
    } else if th.EnqPublish? {
      PublishKeepsInv(s, t, th.data, th.pos, s');
    } else if th.DeqRelease? {
      ReleaseKeepsInv(s, t, th.pos, th.value, s');
    } else if th.EnqCas? && !spurious && th.pos == s.sh.enqueuePos {
      WinEnqueueKeepsInv(s, t, th.data, s');
    } else if th.DeqCas? && !spurious && th.pos == s.sh.dequeuePos {
      WinDequeueKeepsInv(s, t, s');
    } else {
      QuietActionKeepsInv(s, t, spurious);
    }
  }

  /** A producer that sees its own ticket number in the slot has room, if its position is current. */
  lemma EnqueueCasFacts(s: State, pos: nat)
    requires SlotsOk(s)
    ensures pos == s.sh.enqueuePos && SeqAt(s, pos) == pos ==> pos < s.sh.dequeuePos + s.Cap()
  {
    IndexShift(s.sh.dequeuePos, s.Cap());
    assert s.sh.dequeuePos < s.sh.enqueuePos ==> WonSlot(s, s.sh.dequeuePos);
  }

  lemma DequeueCasFacts(s: State, pos: nat)
    requires SlotsOk(s)
    ensures pos == s.sh.dequeuePos && SeqAt(s, pos) == pos + 1 ==> pos < s.sh.enqueuePos
  {
    assert FreeSlot(s, s.sh.dequeuePos) || s.sh.dequeuePos < s.sh.enqueuePos;
  }

  lemma CallKeepsInv(s: State, t: nat, th: Thread)
    requires Inv(s) && Enabled(s, Call(t, th))
    ensures Inv(Apply(s, Call(t, th)))
  {
    LocalStepKeepsInv(s, t, th, Apply(s, Call(t, th)));
  }

  lemma InitInv(s: State)
    requires Init(s)
    ensures Inv(s)
  {
    forall p: nat | p < s.Cap() ensures FreeSlot(s, p) { assert SeqAt(s, p) == p; }
  }

  // ---------------------------------------------------------------- counters

  ghost function EnqPending(threads: map<nat, Thread>): set<nat> {
    set t | t in threads && threads[t].UncountedEnq()
  }

  ghost function DeqPending(threads: map<nat, Thread>): set<nat> {
    set t | t in threads && threads[t].UncountedDeq()
  }

  /** The statistics counters lag the positions by the threads still on their way to them. */
  ghost predicate Counted(s: State) {
    && s.sh.totalEnqueued + |EnqPending(s.threads)| == s.sh.enqueuePos
    && s.sh.totalDequeued + |DeqPending(s.threads)| == s.sh.dequeuePos
  }

  lemma MembershipChange(before: set<nat>, after: set<nat>, t: nat)
    requires forall u :: u != t ==> (u in before <==> u in after)
    ensures |after| - (if t in after then 1 else 0) == |before| - (if t in before then 1 else 0)
  {
    assert before - {t} == after - {t};
    assert t in before ==> before == (before - {t}) + {t};
    assert t in after ==> after == (after - {t}) + {t};
    assert t !in before ==> before == before - {t};
    assert t !in after ==> after == after - {t};
  }

  lemma PendingUpdate(threads: map<nat, Thread>, t: nat, th: Thread)
    ensures var was := t in threads && threads[t].UncountedEnq();
            |EnqPending(threads[t := th])| ==
              |EnqPending(threads)| - (if was then 1 else 0) + (if th.UncountedEnq() then 1 else 0)
    ensures var was := t in threads && threads[t].UncountedDeq();
            |DeqPending(threads[t := th])| ==
              |DeqPending(threads)| - (if was then 1 else 0) + (if th.UncountedDeq() then 1 else 0)
  {
    MembershipChange(EnqPending(threads), EnqPending(threads[t := th]), t);
    MembershipChange(DeqPending(threads), DeqPending(threads[t := th]), t);
  }

  lemma ApplyKeepsCounted(s: State, e: Event)
    requires Enabled(s, e) && Counted(s)
    ensures Counted(Apply(s, e))
  {
    match e {
      case Call(t, th) => PendingUpdate(s.threads, t, th);
      case Act(t, spurious) => PendingUpdate(s.threads, t, Apply(s, e).threads[t]);
    }
  }

  // ---------------------------------------------------------------- theorems

  lemma {:induction false} RunKeepsInv(s: State, events: seq<Event>, s': State)
    requires Inv(s) && Counted(s) && IsRun(s, events, s')
    ensures Inv(s') && Counted(s')
    decreases |events|
  {
    if events != [] {
      match events[0] {
        case Call(t, th) => CallKeepsInv(s, t, th);
        case Act(t, spurious) => AdvanceKeepsInv(s, t, spurious);
      }
      ApplyKeepsCounted(s, events[0]);
      RunKeepsInv(Apply(s, events[0]), events[1..], s');
    }
  }

  /** The invariant holds in every state of every interleaving of any number of threads. */
  lemma ReachableInv(s: State)
    requires Reachable(s)
    ensures Inv(s) && Counted(s)
  {
    var s0, events :| Init(s0) && IsRun(s0, events, s);
    InitInv(s0);
    assert EnqPending(s0.threads) == {} && DeqPending(s0.threads) == {};
    RunKeepsInv(s0, events, s);
  }

  /**
   Delivery.  A consumer that finished with ticket `pos` returned exactly the value
   the producer of ticket `pos` enqueued, and what has come back in ticket order is a
   prefix of what went in: nothing is invented, duplicated or reordered.
   */
  lemma TicketDelivery(s: State, t: nat)
    requires Reachable(s) && t in s.threads && s.threads[t].DeqOk?
    ensures var th := s.threads[t];
            && th.pos < |s.log| && th.value == s.log[th.pos]
            && th.pos in s.returned && s.returned[th.pos] == th.value
  {
    ReachableInv(s);
    assert ThreadOk(s, s.threads[t]);
  }

  /** The returned values of tickets 0 .. n-1. */
  function ReturnedPrefix(s: State, n: nat): (r: seq<Ptr>)
    requires forall p: nat :: p < n ==> p in s.returned
    ensures |r| == n
  {
    seq(n, p requires 0 <= p < n => s.returned[p])
  }

  lemma FifoPrefix(s: State, n: nat)
    requires Reachable(s) && forall p: nat :: p < n ==> p in s.returned
    ensures ReturnedPrefix(s, n) <= s.log
  {
    ReachableInv(s);
    if n > 0 { assert n - 1 in s.returned; }
    forall p: nat | p < n ensures s.returned[p] == s.log[p] { assert p in s.returned; }
  }

  /** A ticket is given back at most once: when its consumer releases it, it was not there before. */
  lemma ReturnedOnce(s: State, t: nat)
    requires Reachable(s) && t in s.threads && s.threads[t].DeqRelease?
    ensures s.threads[t].pos !in s.returned
    ensures forall u :: u in s.threads && u != t && (s.threads[u].DeqRead? || s.threads[u].DeqRelease?) ==>
              s.threads[u].pos != s.threads[t].pos
  {
    ReachableInv(s);
    assert ThreadOk(s, s.threads[t]);
    forall u | u in s.threads && u != t && (s.threads[u].DeqRead? || s.threads[u].DeqRelease?)
      ensures s.threads[u].pos != s.threads[t].pos
    {
      assert s.threads[t].Consumes(s.threads[t].pos) && s.threads[u].Consumes(s.threads[u].pos);
    }
  }

  /** The ticket's producer has not published yet: either nobody won it, or the winner still owns the slot. */
  ghost predicate Unpublished(s: State, ticket: nat)
    requires s.Cap() > 0
  {
    ticket >= s.sh.enqueuePos || HasProducer(s, ticket)
  }

  /**
   A dequeue answers "empty" exactly when, at its sequence load, its possibly stale
   position is still current and that ticket is unpublished.
   */
  lemma EmptyAnswer(s: State, t: nat, spurious: bool)
    requires Reachable(s) && t in s.threads && s.threads[t].DeqLoadSeq?
    ensures s.Cap() >= 2
    ensures var pos := s.threads[t].pos;
            Advance(s, t, spurious).threads[t].DeqEmpty? <==>
              (pos == s.sh.dequeuePos && Unpublished(s, pos))
  {
    ReachableInv(s);
    var pos := s.threads[t].pos;
    assert ThreadOk(s, s.threads[t]);
    SeqNeverBehind(s, pos);
    if pos == s.sh.dequeuePos {
      if pos < s.sh.enqueuePos {
        assert WonSlot(s, pos);
        ProducerSees(s, pos);
      } else {
        assert FreeSlot(s, pos);
      }
    }
  }

  lemma ProducerSees(s: State, p: nat)
    requires Inv(s) && s.sh.dequeuePos <= p < s.sh.enqueuePos
    ensures HasProducer(s, p) <==> SeqAt(s, p) == p
  {
    if HasProducer(s, p) {
      var t :| t in s.threads && s.threads[t].Produces(p);
      assert ThreadOk(s, s.threads[t]);
    }
  }

  /** A slot's sequence number never trails a position that another thread has moved past. */
  lemma SeqNeverBehind(s: State, pos: nat)
    requires SlotsOk(s)
    ensures pos < s.sh.dequeuePos ==> SeqAt(s, pos) > pos
    ensures pos < s.sh.enqueuePos ==> SeqAt(s, pos) >= pos
  {
    var d, n := s.sh.dequeuePos, s.Cap();
    if pos < d {
      // the live ticket that shares the slot
      var p := d + (pos - d) % n;
      SameSlot(pos, d, n);
      assert WonSlotOrFree(s, p);
    } else if pos < s.sh.enqueuePos {
      assert WonSlot(s, pos);
    }
  }

  ghost predicate WonSlotOrFree(s: State, p: nat)
    requires s.Cap() > 0
  {
    if p < |s.log| then WonSlot(s, p) else FreeSlot(s, p)
  }

  lemma SameSlot(pos: nat, d: nat, n: nat)
    requires n > 0 && pos < d
    ensures var p := d + (pos - d) % n;
            Index(p, n) == Index(pos, n) && pos + n <= p < d + n
  {
    var p := d + (pos - d) % n;
    var k := (pos - d) / n;
    assert pos - d == n * k + (pos - d) % n;
    MulBounds(n, k);
    MulBounds(n, k + 1);
    assert pos == n * (pos / n) + pos % n;
    assert p == n * (pos / n - k) + pos % n by {
      assert n * (pos / n - k) == n * (pos / n) - n * k;
    }
    DivModUnique(p, n, pos / n - k, pos % n);
  }

  /** The slot `ticket` needs is still taken by the ticket one lap earlier. */
  ghost predicate HeldByPreviousLap(s: State, ticket: nat) {
    ticket >= s.Cap() && (ticket - s.Cap() >= s.sh.dequeuePos || HasConsumer(s, ticket - s.Cap()))
  }

  /**
   An enqueue answers "full" exactly when, at its sequence load, its possibly stale
   position is still current and the slot is held by the ticket one lap earlier.
   */
  lemma FullAnswer(s: State, t: nat, spurious: bool)
    requires Reachable(s) && t in s.threads && s.threads[t].EnqLoadSeq?
    ensures s.Cap() >= 2
    ensures var pos := s.threads[t].pos;
            Advance(s, t, spurious).threads[t].EnqFull? <==>
              (pos == s.sh.enqueuePos && HeldByPreviousLap(s, pos))
  {
    ReachableInv(s);
    var pos := s.threads[t].pos;
    assert ThreadOk(s, s.threads[t]);
    SeqNeverBehind(s, pos);
    if pos == s.sh.enqueuePos { FullAtCurrent(s, pos); }
  }

  /** At the current position the sequence number trails exactly when the slot is still held. */
  lemma FullAtCurrent(s: State, pos: nat)
    requires Inv(s) && pos == s.sh.enqueuePos
    ensures SeqAt(s, pos) < pos <==> HeldByPreviousLap(s, pos)
  {
    if pos < s.sh.dequeuePos + s.Cap() {
      assert FreeSlot(s, pos);
      ConsumerSees(s, pos);
    } else {
      IndexShift(s.sh.dequeuePos, s.Cap());
      assert WonSlot(s, s.sh.dequeuePos);
    }
  }

  lemma ConsumerSees(s: State, p: nat)
    requires Inv(s) && s.sh.enqueuePos <= p < s.sh.dequeuePos + s.Cap()
    ensures p >= s.Cap() && HasConsumer(s, p - s.Cap()) <==> SeqAt(s, p) != p
  {
    assert FreeSlot(s, p);
    if p >= s.Cap() && HasConsumer(s, p - s.Cap()) {
      var t :| t in s.threads && s.threads[t].Consumes(p - s.Cap());
      assert ThreadOk(s, s.threads[t]);
    }
  }

  /** No slot ever has two owners, whatever mix of producers and consumers is inside. */
  lemma OneOwnerPerSlot(s: State, t: nat, u: nat, p: nat, q: nat)
    requires Reachable(s) && t in s.threads && u in s.threads
    requires s.threads[t].Produces(p) || s.threads[t].Consumes(p)
    requires s.threads[u].Produces(q) || s.threads[u].Consumes(q)
    requires s.Cap() > 0 && Index(p, s.Cap()) == Index(q, s.Cap())
    ensures t == u
  {
    ReachableInv(s);
    assert ThreadOk(s, s.threads[t]) && ThreadOk(s, s.threads[u]);
    var n := s.Cap();
    IndexShift(p, n);
    IndexShift(q, n);
    var p' := if s.threads[t].Produces(p) then p else p + n;
    var q' := if s.threads[u].Produces(q) then q else q + n;
    if p' < q' { IndexDistinct(p', q', n); } else if q' < p' { IndexDistinct(q', p', n); }
  }

  /** The abstract queue: won by a producer and not yet by a consumer, oldest first. */
  function Queue(s: State): seq<Ptr>
    requires s.sh.dequeuePos <= s.sh.enqueuePos <= |s.log|
  {
    s.log[s.sh.dequeuePos..s.sh.enqueuePos]
  }

  /** The producer whose CAS succeeds at this event. */
  ghost predicate WinsEnqueue(s: State, e: Event) {
    e.Act? && !e.spurious && e.tid in s.threads && s.threads[e.tid].EnqCas?
    && s.threads[e.tid].pos == s.sh.enqueuePos
  }

  ghost predicate WinsDequeue(s: State, e: Event) {
    e.Act? && !e.spurious && e.tid in s.threads && s.threads[e.tid].DeqCas?
    && s.threads[e.tid].pos == s.sh.dequeuePos
  }

  lemma PositionsMove(s: State, e: Event)
    requires Enabled(s, e)
    ensures var s' := Apply(s, e);
            && s'.sh.enqueuePos == s.sh.enqueuePos + (if WinsEnqueue(s, e) then 1 else 0)
            && s'.sh.dequeuePos == s.sh.dequeuePos + (if WinsDequeue(s, e) then 1 else 0)
            && s'.log == s.log + (if WinsEnqueue(s, e) then [s.threads[e.tid].data] else [])
  {
  }

  lemma WinnersHaveRoom(s: State, e: Event)
    requires Inv(s)
    ensures WinsEnqueue(s, e) ==> s.sh.enqueuePos < s.sh.dequeuePos + s.Cap()
    ensures WinsDequeue(s, e) ==> s.sh.dequeuePos < s.sh.enqueuePos
  {
    if e.Act? && e.tid in s.threads { assert ThreadOk(s, s.threads[e.tid]); }
  }

  /**
   Refinement.  Every atomic action is an action of a bounded first-in first-out
   queue or leaves it alone: a winning producer appends its own value and only when
   there is room, a winning consumer removes the oldest value.
   */
  lemma RefinesBoundedFifo(s: State, e: Event)
    requires Reachable(s) && Enabled(s, e)
    ensures SlotsOk(s) && SlotsOk(Apply(s, e)) && |Queue(s)| <= s.Cap()
    ensures WinsEnqueue(s, e) ==>
              && |Queue(s)| < s.Cap()
              && Queue(Apply(s, e)) == Queue(s) + [s.threads[e.tid].data]
    ensures WinsDequeue(s, e) ==>
              && Queue(s) != [] && Queue(Apply(s, e)) == Queue(s)[1..]
              && s.log[s.threads[e.tid].pos] == Queue(s)[0]
    ensures !WinsEnqueue(s, e) && !WinsDequeue(s, e) ==> Queue(Apply(s, e)) == Queue(s)
  {
    ReachableInv(s);
    ReachableNext(s, e);
    var s' := Apply(s, e);
    ReachableInv(s');
    WinnersHaveRoom(s, e);
    PositionsMove(s, e);
    QueueMoves(s.log, s.sh.dequeuePos, s.sh.enqueuePos);
  }

  lemma QueueMoves(log: seq<Ptr>, d: nat, e: nat)
    requires d <= e == |log|
    ensures forall x :: (log + [x])[d..e + 1] == log[d..e] + [x]
    ensures d < e ==> log[d + 1..e] == log[d..e][1..] && log[d..e][0] == log[d]
    ensures log + [] == log
  {
  }

  /** A genuine CAS failure means some other thread won the ticket. */
  lemma LostRaceMeansProgress(s: State, t: nat)
    requires Reachable(s) && t in s.threads
    requires s.threads[t].EnqCas? || s.threads[t].DeqCas?
    ensures s.Cap() >= 2
    ensures var th, th' := s.threads[t], Advance(s, t, false).threads[t];
            && (th.EnqCas? && !th'.EnqWrite? ==> s.sh.enqueuePos > th.pos)
            && (th.DeqCas? && !th'.DeqRead? ==> s.sh.dequeuePos > th.pos)
  {
    ReachableInv(s);
    assert ThreadOk(s, s.threads[t]);
  }

  /** So does a sequence ahead of the position: whenever a thread starts over, somebody has moved on past it. */
  lemma ReloadMeansProgress(s: State, t: nat)
    requires Reachable(s) && t in s.threads
    requires s.threads[t].EnqLoadSeq? || s.threads[t].DeqLoadSeq?
    ensures s.Cap() >= 2
    ensures var th, th' := s.threads[t], Advance(s, t, false).threads[t];
            && (th'.EnqLoadPos? ==> s.sh.enqueuePos > th.pos)
            && (th'.DeqLoadPos? ==> s.sh.dequeuePos > th.pos)
  {
    ReachableInv(s);
    assert ThreadOk(s, s.threads[t]);
    SeqAtPositions(s);
  }

  /** At either position itself the sequence is never ahead. */
  lemma SeqAtPositions(s: State)
    requires SlotsOk(s)
    ensures SeqAt(s, s.sh.enqueuePos) <= s.sh.enqueuePos
    ensures SeqAt(s, s.sh.dequeuePos) <= s.sh.dequeuePos + 1
  {
    var e, d, n := s.sh.enqueuePos, s.sh.dequeuePos, s.Cap();
    if d < e { assert WonSlot(s, d); } else { assert FreeSlot(s, d); }
    if e < d + n { assert FreeSlot(s, e); } else { IndexShift(d, n); }
  }

  /**
   With every call finished, the two counters differ by the number of queued values,
   all of them published, and everything that was taken out has been returned.
   */
  lemma QuiescentSize(s: State)
    requires Reachable(s) && forall t :: t in s.threads ==> s.threads[t].Finished()
    ensures s.sh.dequeuePos <= s.sh.enqueuePos <= |s.log|
    ensures s.sh.totalEnqueued - s.sh.totalDequeued == |Queue(s)|
    ensures forall p: nat :: p < s.sh.dequeuePos ==> p in s.returned && s.returned[p] == s.log[p]
    ensures s.Cap() > 0 && forall p :: s.sh.dequeuePos <= p < s.sh.enqueuePos ==>
              SeqAt(s, p) == p + 1 && DataAt(s, p) == s.log[p]
  {
    ReachableInv(s);
    assert EnqPending(s.threads) == {} && DeqPending(s.threads) == {};
    forall p | s.sh.dequeuePos <= p < s.sh.enqueuePos
      ensures SeqAt(s, p) == p + 1 && DataAt(s, p) == s.log[p]
    {
      assert WonSlot(s, p);
      assert !HasProducer(s, p);
    }
    forall p: nat | p < s.sh.dequeuePos ensures p in s.returned && s.returned[p] == s.log[p] {
      assert !HasConsumer(s, p);
    }
  }

  // ---------------------------------------------------------------- what "empty" does not mean

  lemma {:induction false} RunSnoc(s: State, events: seq<Event>, s': State, e: Event)
    requires IsRun(s, events, s') && Enabled(s', e)
    ensures IsRun(s, events + [e], Apply(s', e))
    decreases |events|
  {
    if events == [] {
      assert (events + [e])[1..] == [];
    } else {
      RunSnoc(Apply(s, events[0]), events[1..], s', e);
      assert (events + [e])[1..] == events[1..] + [e];
    }
  }

  lemma ReachableNext(s: State, e: Event)
    requires Reachable(s) && Enabled(s, e)
    ensures Reachable(Apply(s, e))
  {
    var s0, events :| Init(s0) && IsRun(s0, events, s);
    RunSnoc(s0, events, s, e);
  }

  /** A lone producer that has just called with value `d` loads, loads and wins in three actions. */
  lemma WinsTicket(s: State, t: nat, d: Ptr) returns (s': State)
    requires Reachable(s) && s.Cap() > 0
    requires t !in s.threads
    requires SeqAt(s, s.sh.enqueuePos) == s.sh.enqueuePos
    ensures Reachable(s')
    ensures s' == s.(sh := s.sh.(enqueuePos := s.sh.enqueuePos + 1),
                     threads := s.threads[t := EnqWrite(d, s.sh.enqueuePos)],
                     log := s.log + [d])
  {
    s' := s;
    ReachableNext(s', Call(t, EnqLoadPos(d))); s' := Apply(s', Call(t, EnqLoadPos(d)));
    ReachableNext(s', Act(t, false)); s' := Apply(s', Act(t, false));
    assert s'.threads == s.threads[t := EnqLoadSeq(d, s.sh.enqueuePos)];
    ReachableNext(s', Act(t, false)); s' := Apply(s', Act(t, false));
    assert s'.threads == s.threads[t := EnqCas(d, s.sh.enqueuePos)];
    ReachableNext(s', Act(t, false)); s' := Apply(s', Act(t, false));
    assert s'.threads == s.threads[t := EnqWrite(d, s.sh.enqueuePos)];
  }

  /** Producer 1 stalls on ticket 0 while producer 2 takes ticket 1. */
  lemma StalledProducer() returns (s: State)
    ensures Reachable(s) && s.Cap() == 2
    ensures s.sh.slots == [Slot(0, 0), Slot(1, 0)]
    ensures s.sh.enqueuePos == 2 && s.sh.dequeuePos == 0 && s.log == [7, 8]
    ensures s.threads == map[1 := EnqWrite(7, 0), 2 := EnqWrite(8, 1)]
    ensures s.returned == map[]
  {
    s := State(Shared(0, 0, [Slot(0, 0), Slot(1, 0)], 0, 0), map[], [], map[]);
    assert IsRun(s, [], s);
    s := WinsTicket(s, 1, 7);
    s := WinsTicket(s, 2, 8);
  }

  /** The second producer has completed while the first is still between its CAS and its publication. */
  lemma SecondProducerDone() returns (s: State)
    ensures Reachable(s) && s.Cap() == 2 && s.sh.enqueuePos == 2 && s.sh.dequeuePos == 0
    ensures s.sh.slots[0].sequence == 0 && 3 !in s.threads
    ensures 2 in s.threads && s.threads[2] == EnqOk(1) && s.log == [7, 8] && s.returned == map[]
  {
    s := StalledProducer();
    ReachableNext(s, Act(2, false)); s := Apply(s, Act(2, false));
    ReachableNext(s, Act(2, false)); s := Apply(s, Act(2, false));
    ReachableNext(s, Act(2, false)); s := Apply(s, Act(2, false));
  }

  /**
   A "nothing there" answer does not mean that every completed enqueue has been
   consumed: with producer 1 stalled between its CAS and its publication, the value 8
   is fully enqueued by producer 2, and a dequeue still answers "empty".
   */
  lemma EmptyDespiteCompletedEnqueue() returns (s: State)
    ensures Reachable(s) && s.Cap() == 2
    ensures 2 in s.threads && s.threads[2] == EnqOk(1) && s.log == [7, 8] && s.returned == map[]
    ensures 3 in s.threads && s.threads[3] == DeqEmpty(0)
  {
    s := SecondProducerDone();
    ReachableNext(s, Call(3, DeqLoadPos)); s := Apply(s, Call(3, DeqLoadPos));
    ReachableNext(s, Act(3, false)); s := Apply(s, Act(3, false));
    ReachableNext(s, Act(3, false)); s := Apply(s, Act(3, false));
  }

  /** The condition under which it does: no ticket is stuck between its CAS and its publication. */
  lemma EmptyMeansEmpty(s: State, t: nat, spurious: bool)
    requires Reachable(s) && t in s.threads && s.threads[t].DeqLoadSeq?
    ensures s.Cap() >= 2
    ensures Advance(s, t, spurious).threads[t].DeqEmpty? ==>
              (s.sh.dequeuePos == s.sh.enqueuePos <==> !HasProducer(s, s.sh.dequeuePos))
  {
    ReachableInv(s);
    EmptyAnswer(s, t, spurious);
    if HasProducer(s, s.sh.dequeuePos) {
      var u :| u in s.threads && s.threads[u].Produces(s.sh.dequeuePos);
      assert ThreadOk(s, s.threads[u]);
    }
  }
}
