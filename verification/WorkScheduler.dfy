/** The scheduler over the work rings. */
module WorkScheduler {

  import opened Wrappers
  import opened WorkStealing
  import Bits

  // Where a message is put, whom an idle worker robs, what a tick takes out and hands on,
  // and when everything queued is eventually taken out.

  /** One ring per worker and the overflow ring, oldest message first. */
  datatype World = World(locals: seq<seq<nat>>, global: seq<nat>)

  /** The order in which worker `id` looks at the others. */
  function Target(id: nat, n: nat, i: nat): (t: nat)
    requires n > 0
    ensures t < n
  {
    ((id + 1) % n + i) % n
  }

  predicate IsVictim(locals: seq<seq<nat>>, id: nat, i: nat)
    requires i < |locals|
  {
    var t := Target(id, |locals|, i);
    t != id && locals[t] != []
  }

  /** The first victim from position `i` on, or the number of workers. */
  function FirstVictim(locals: seq<seq<nat>>, id: nat, i: nat): (v: nat)
    requires i <= |locals|
    ensures i <= v <= |locals|
    ensures v < |locals| ==> IsVictim(locals, id, v)
    ensures forall k: nat :: i <= k < v ==> !IsVictim(locals, id, k)
    decreases |locals| - i
  {
    if i == |locals| || IsVictim(locals, id, i) then i else FirstVictim(locals, id, i + 1)
  }

  /** The cyclic order passes every worker. */
  lemma EveryTargetIsPassed(id: nat, n: nat, t: nat)
    requires t < n && id < n
    ensures exists i: nat :: i < n && Target(id, n, i) == t
  {
    var start := (id + 1) % n;
    var i: nat := if t >= start then t - start else t + n - start;
    Bits.DivModUnique(start + i, n, if t >= start then 0 else 1, t);
    assert Target(id, n, i) == t;
  }

  lemma VictimExistsIff(locals: seq<seq<nat>>, id: nat)
    requires id < |locals|
    ensures FirstVictim(locals, id, 0) == |locals|
            <==> forall t :: 0 <= t < |locals| && t != id ==> locals[t] == []
  {
    forall t | 0 <= t < |locals| && t != id && locals[t] != []
      ensures FirstVictim(locals, id, 0) < |locals|
    {
      EveryTargetIsPassed(id, |locals|, t);
      var i: nat :| i < |locals| && Target(id, |locals|, i) == t;
      assert IsVictim(locals, id, i);
    }
  }

  function PopNewest(q: seq<nat>): (r: (seq<nat>, Option<nat>)) {
    if q == [] then (q, None) else (q[..|q| - 1], Some(q[|q| - 1]))
  }

  /** Oldest of the first victim; else newest of the overflow ring; a lone worker takes nothing. */
  function Robbed(w: World, id: nat): (r: (World, Option<nat>))
    ensures |r.0.locals| == |w.locals|
  {
    var n := |w.locals|;
    if n <= 1 then (w, None)
    else
      var v := FirstVictim(w.locals, id, 0);
      if v < n then
        var t := Target(id, n, v);
        (w.(locals := w.locals[t := w.locals[t][1..]]), Some(w.locals[t][0]))
      else
        var (g, m) := PopNewest(w.global);
        (w.(global := g), m)
  }

  function Turn(w: World, id: nat): (r: (World, Option<nat>))
    requires id < |w.locals|
    ensures |r.0.locals| == |w.locals|
  {
    if w.locals[id] != [] then
      var (q, m) := PopNewest(w.locals[id]);
      (w.(locals := w.locals[id := q]), m)
    else Robbed(w, id)
  }

  /** The turns of workers `id` and up, and what they take out. */
  function Turns(w: World, id: nat): (r: (World, seq<nat>))
    requires id <= |w.locals|
    ensures |r.0.locals| == |w.locals|
    decreases |w.locals| - id
  {
    if id == |w.locals| then (w, [])
    else
      var (w1, m) := Turn(w, id);
      var (w2, rest) := Turns(w1, id + 1);
      (w2, OnlyIf(true, m) + rest)
  }

  function Tick(w: World): (r: (World, seq<nat>))
    ensures |r.0.locals| == |w.locals|
  {
    Turns(w, 0)
  }

  /**
   Of what the turns of workers `id` and up take out, what an actor handles: `running`
   says whether some actor is running at that worker's turn.  Without one the message is
   freed unhandled.
   */
  function Handled(w: World, id: nat, running: seq<bool>): seq<nat>
    requires id <= |w.locals| == |running|
    decreases |w.locals| - id
  {
    if id == |w.locals| then []
    else
      var (w1, m) := Turn(w, id);
      OnlyIf(running[id], m) + Handled(w1, id + 1, running)
  }

  function Dropped(w: World, id: nat, running: seq<bool>): seq<nat>
    requires id <= |w.locals| == |running|
    decreases |w.locals| - id
  {
    if id == |w.locals| then []
    else
      var (w1, m) := Turn(w, id);
      OnlyIf(!running[id], m) + Dropped(w1, id + 1, running)
  }

  /** Preferred worker first, overflow ring second; None when both are full. */
  function Placed(w: World, m: nat, preferred: int): Option<World> {
    if 0 <= preferred < |w.locals| && |w.locals[preferred]| < SLOTS
    then Some(w.(locals := w.locals[preferred := w.locals[preferred] + [m]]))
    else if |w.global| < SLOTS then Some(w.(global := w.global + [m]))
    else None
  }

  // ------------------------------------------------------------ properties

  predicate AllEmpty(w: World) {
    w.global == [] && forall t :: 0 <= t < |w.locals| ==> w.locals[t] == []
  }

  /** With several workers a thief leaves with nothing exactly when there is nothing to take; a lone one always does. */
  lemma NothingToStealIff(w: World, id: nat)
    requires id < |w.locals|
    ensures Robbed(w, id).1 == None <==>
              |w.locals| == 1 || (w.global == [] && forall t :: 0 <= t < |w.locals| && t != id ==> w.locals[t] == [])
  {
    VictimExistsIff(w.locals, id);
  }

  /** Which ring gains a message, and when none does. */
  lemma PlacedWhere(w: World, m: nat, preferred: int)
    ensures Placed(w, m, preferred) == None <==>
              |w.global| >= 64 && forall t :: 0 <= t < |w.locals| && t == preferred ==> |w.locals[t]| >= 64
    ensures match Placed(w, m, preferred)
            case None => true
            case Some(w') =>
              && |w'.locals| == |w.locals|
              && (forall t :: 0 <= t < |w.locals| ==>
                    w'.locals[t] == if t == preferred && |w.locals[t]| < 64 then w.locals[t] + [m] else w.locals[t])
              && w'.global == if exists t :: 0 <= t < |w.locals| && t == preferred && |w.locals[t]| < 64
                              then w.global else w.global + [m]
  {
  }

  /** `d` places behind `id` on a circle of `n`. */
  function Behind(id: nat, n: nat, d: nat): nat
    requires id < n && d <= n
  {
    if id + d < n then id + d else id + d - n
  }

  lemma TargetIs(id: nat, n: nat, i: nat)
    requires id < n && i < n
    ensures Target(id, n, i) == Behind(id, n, i + 1)
  {
    var s := id + 1 + i;
    if id + 1 == n {
      Bits.DivModUnique(n, n, 1, 0);
      Bits.DivModUnique(i, n, 0, i);
    } else {
      Bits.DivModUnique(id + 1, n, 0, id + 1);
      Bits.DivModUnique(s, n, if s < n then 0 else 1, if s < n then s else s - n);
    }
  }

  /** The message comes from the nearest ring behind the thief, round the circle, that has one: its oldest. */
  lemma RobsNearest(w: World, id: nat, d: nat)
    requires id < |w.locals| && 0 < d < |w.locals| && w.locals[Behind(id, |w.locals|, d)] != []
    requires forall e :: 0 < e < d ==> w.locals[Behind(id, |w.locals|, e)] == []
    ensures var t := Behind(id, |w.locals|, d);
            Robbed(w, id) == (w.(locals := w.locals[t := w.locals[t][1..]]), Some(w.locals[t][0]))
  {
    var n := |w.locals|;
    TargetIs(id, n, d - 1);
    assert IsVictim(w.locals, id, d - 1);
    var v := FirstVictim(w.locals, id, 0);
    assert v <= d - 1;
    TargetIs(id, n, v);
  }

  /** A worker serves its own newest message first; with nothing in the other rings a thief gets the overflow ring's newest. */
  lemma OwnThenOverflow(w: World, id: nat, q: seq<nat>, m: nat)
    requires id < |w.locals|
    ensures w.locals[id] == q + [m] ==> Turn(w, id) == (w.(locals := w.locals[id := q]), Some(m))
    ensures w.locals[id] == [] ==> Turn(w, id) == Robbed(w, id)
    ensures |w.locals| > 1 && w.global == q + [m] && (forall t :: 0 <= t < |w.locals| && t != id ==> w.locals[t] == []) ==>
              Robbed(w, id) == (w.(global := q), Some(m))
  {
    VictimExistsIff(w.locals, id);
  }

  function Times(w: World, m: nat): nat {
    Queued(w.locals, m) + multiset(w.global)[m]
  }

  function Gave(r: Option<nat>, m: nat): nat {
    if r == Some(m) then 1 else 0
  }

  lemma PopCounts(q: seq<nat>, m: nat)
    ensures multiset(q)[m] == multiset(PopNewest(q).0)[m] + Gave(PopNewest(q).1, m)
  {
    if q != [] { assert q == q[..|q| - 1] + [q[|q| - 1]]; }
  }

  lemma StealCounts(w: World, id: nat, m: nat)
    ensures Times(w, m) == Times(Robbed(w, id).0, m) + Gave(Robbed(w, id).1, m)
  {
    var v := FirstVictim(w.locals, id, 0);
    if |w.locals| > 1 && v < |w.locals| {
      var t := Target(id, |w.locals|, v);
      assert w.locals[t] == [w.locals[t][0]] + w.locals[t][1..];
      QueuedUpdate(w.locals, t, w.locals[t][1..], m);
    } else {
      PopCounts(w.global, m);
    }
  }

  lemma TurnCounts(w: World, id: nat, m: nat)
    requires id < |w.locals|
    ensures Times(w, m) == Times(Turn(w, id).0, m) + Gave(Turn(w, id).1, m)
  {
    if w.locals[id] != [] {
      PopCounts(w.locals[id], m);
      QueuedUpdate(w.locals, id, PopNewest(w.locals[id]).0, m);
    } else {
      StealCounts(w, id, m);
    }
  }

  /** A tick takes messages out of the rings one by one and changes nothing else there. */
  lemma {:induction false} TickConserves(w: World, id: nat, m: nat)
    requires id <= |w.locals|
    ensures Times(w, m) == Times(Turns(w, id).0, m) + multiset(Turns(w, id).1)[m]
    decreases |w.locals| - id
  {
    if id < |w.locals| {
      TurnCounts(w, id, m);
      var (w1, r) := Turn(w, id);
      TickConserves(w1, id + 1, m);
      if r.Some? { assert multiset([r.value] + Turns(w1, id + 1).1) == multiset{r.value} + multiset(Turns(w1, id + 1).1); }
      else { assert [] + Turns(w1, id + 1).1 == Turns(w1, id + 1).1; }
    }
  }

  /** What is taken out is handled or dropped, message for message. */
  lemma {:induction false} TakenIsHandledOrDropped(w: World, id: nat, running: seq<bool>)
    requires id <= |w.locals| == |running|
    ensures multiset(Turns(w, id).1) == multiset(Handled(w, id, running)) + multiset(Dropped(w, id, running))
    decreases |w.locals| - id
  {
    if id < |w.locals| {
      var (w1, m) := Turn(w, id);
      TakenIsHandledOrDropped(w1, id + 1, running);
      OneMoreTaken(m, running[id], Turns(w1, id + 1).1, Handled(w1, id + 1, running), Dropped(w1, id + 1, running));
    }
  }

  function OnlyIf(b: bool, m: Option<nat>): seq<nat> {
    if m.Some? && b then [m.value] else []
  }

  lemma OneMoreTaken(m: Option<nat>, runs: bool, taken: seq<nat>, kept: seq<nat>, lost: seq<nat>)
    requires multiset(taken) == multiset(kept) + multiset(lost)
    ensures multiset(OnlyIf(true, m) + taken) == multiset(OnlyIf(runs, m) + kept) + multiset(OnlyIf(!runs, m) + lost)
  {
  }

  /** So nothing is dropped from any content if and only if an actor is running at every turn. */
  lemma NothingDroppedIff(running: seq<bool>)
    requires running != []
    ensures (forall w: World :: |w.locals| == |running| ==> Dropped(w, 0, running) == [])
            <==> forall id :: 0 <= id < |running| ==> running[id]
  {
    if id :| 0 <= id < |running| && !running[id] {
      var w := SevenEach(|running|);
      OwnMessageDropped(w, 0, id, running);
    } else {
      forall w: World | |w.locals| == |running| ensures Dropped(w, 0, running) == [] {
        NoneDropped(w, 0, running);
      }
    }
  }

  function SevenEach(n: nat): (w: World)
    ensures |w.locals| == n && forall i :: 0 <= i < n ==> w.locals[i] != []
  {
    World(seq(n, i => [7]), [])
  }

  lemma {:induction false} NoneDropped(w: World, id: nat, running: seq<bool>)
    requires id <= |w.locals| == |running| && forall i :: 0 <= i < |running| ==> running[i]
    ensures Dropped(w, id, running) == []
    decreases |w.locals| - id
  {
    if id < |w.locals| { NoneDropped(Turn(w, id).0, id + 1, running); }
  }

  /** A worker with a message of its own and no running actor at its turn drops it. */
  lemma {:induction false} OwnMessageDropped(w: World, from: nat, id: nat, running: seq<bool>)
    requires from <= id < |w.locals| == |running| && !running[id]
    requires forall i :: from <= i < |w.locals| ==> w.locals[i] != []
    ensures Dropped(w, from, running) != []
    decreases id - from
  {
    if from < id { OwnMessageDropped(Turn(w, from).0, from + 1, id, running); }
  }

  function Total(locals: seq<seq<nat>>): nat {
    if locals == [] then 0 else Total(locals[..|locals| - 1]) + |locals[|locals| - 1]|
  }

  function Size(w: World): nat { Total(w.locals) + |w.global| }

  lemma {:induction false} TotalUpdate(locals: seq<seq<nat>>, q: nat, r: seq<nat>)
    requires q < |locals|
    ensures Total(locals[q := r]) + |locals[q]| == Total(locals) + |r|
    decreases |locals|
  {
    var n := |locals| - 1;
    var after := locals[q := r];
    if q < n {
      TotalUpdate(locals[..n], q, r);
      assert after[..n] == locals[..n][q := r];
    } else {
      assert after[..n] == locals[..n];
    }
  }

  lemma TurnShrinks(w: World, id: nat)
    requires id < |w.locals|
    ensures Size(Turn(w, id).0) == Size(w) - (if Turn(w, id).1.Some? then 1 else 0)
  {
    if w.locals[id] != [] {
      TotalUpdate(w.locals, id, PopNewest(w.locals[id]).0);
    } else if |w.locals| > 1 {
      var v := FirstVictim(w.locals, id, 0);
      if v < |w.locals| {
        var t := Target(id, |w.locals|, v);
        TotalUpdate(w.locals, t, w.locals[t][1..]);
      }
    }
  }

  lemma {:induction false} TurnsShrink(w: World, id: nat)
    requires id <= |w.locals|
    ensures Size(Turns(w, id).0) == Size(w) - |Turns(w, id).1|
    decreases |w.locals| - id
  {
    if id < |w.locals| {
      TurnShrinks(w, id);
      TurnsShrink(Turn(w, id).0, id + 1);
    }
  }

  lemma {:induction false} EmptyIsZero(locals: seq<seq<nat>>)
    ensures Total(locals) == 0 <==> forall t :: 0 <= t < |locals| ==> locals[t] == []
    decreases |locals|
  {
    if locals != [] {
      var n := |locals| - 1;
      EmptyIsZero(locals[..n]);
      assert forall t :: 0 <= t < n ==> locals[..n][t] == locals[t];
    }
  }

  /** With several workers, a tick takes out at least one message unless all rings are empty. */
  lemma TickMakesProgress(w: World)
    requires |w.locals| > 1
    ensures Size(Tick(w).0) == Size(w) - |Tick(w).1|
    ensures Tick(w).1 == [] <==> Size(w) == 0
  {
    TurnsShrink(w, 0);
    NothingToStealIff(w, 0);
    EmptyIsZero(w.locals);
    TurnsShrink(Turn(w, 0).0, 1);
    TurnShrinks(w, 0);
  }

  function Ticks(w: World, n: nat): World
    decreases n
  {
    if n == 0 then w else Ticks(Tick(w).0, n - 1)
  }

  /** Several workers empty every ring within as many ticks as there are messages. */
  lemma {:induction false} SeveralWorkersDrain(w: World, n: nat)
    requires |w.locals| > 1 && n >= Size(w)
    ensures AllEmpty(Ticks(w, n))
    decreases n
  {
    TickMakesProgress(w);
    if n == 0 {
      EmptyIsZero(w.locals);
    } else {
      SeveralWorkersDrain(Tick(w).0, n - 1);
    }
  }

  /** A lone worker never looks at the overflow ring: what overflowed stays there for ever. */
  lemma {:induction false} LoneWorkerStarvesOverflow(w: World, n: nat)
    requires |w.locals| == 1
    ensures Ticks(w, n).global == w.global
    decreases n
  {
    if n > 0 {
      LoneTurn(w);
      LoneWorkerStarvesOverflow(Tick(w).0, n - 1);
    }
  }

  lemma LoneTurn(w: World)
    requires |w.locals| == 1
    ensures Tick(w).0.global == w.global
  {
    var w1 := Turn(w, 0).0;
    assert Turns(w1, 1).0 == w1;
  }

  /** So the scheduler drains for every content exactly when it has more than one worker. */
  lemma DrainsIff(workers: nat)
    requires workers > 0
    ensures workers > 1 <==>
            forall w: World :: |w.locals| == workers ==> AllEmpty(Ticks(w, Size(w)))
  {
    if workers > 1 {
      forall w: World | |w.locals| == workers ensures AllEmpty(Ticks(w, Size(w))) {
        SeveralWorkersDrain(w, Size(w));
      }
    } else {
      var w := World([[]], [7]);
      LoneWorkerStarvesOverflow(w, Size(w));
      assert !AllEmpty(Ticks(w, Size(w)));
    }
  }

  // ------------------------------------------------------------ the scheduler

  class MNScheduler {
    var workers: seq<WorkDeque>
    var overflow: WorkDeque
    var delivered: nat
    ghost var view: World

    ghost predicate Valid()
      reads this, workers, overflow
    {
      && |view.locals| == |workers|
      && (forall i, j :: 0 <= i < j < |workers| ==> workers[i] != workers[j])
      && (forall i :: 0 <= i < |workers| ==> workers[i] != overflow)
      && (forall i :: 0 <= i < |workers| ==> workers[i].Valid() && workers[i].queue == view.locals[i])
      && overflow.Valid() && overflow.queue == view.global
    }

    constructor (count: int)
      ensures Valid() && AllEmpty(view)
      ensures |workers| == if count < 1 then 1 else if count > 16 then 16 else count
    {
      var n := if count < 1 then 1 else if count > 16 then 16 else count;
      var ws: seq<WorkDeque> := [];
      for i := 0 to n
        invariant |ws| == i
        invariant forall k :: 0 <= k < i ==> fresh(ws[k]) && ws[k].Valid() && ws[k].queue == []
        invariant forall k, l :: 0 <= k < l < i ==> ws[k] != ws[l]
      {
        var d := new WorkDeque();
        ws := ws + [d];
      }
      workers := ws;
      overflow := new WorkDeque();
      delivered := 0;
      view := World(seq(n, i => []), []);
    }

    method Enqueue(m: nat, preferred: int) returns (ok: bool)
      requires Valid()
      modifies this, workers, overflow
      ensures Valid() && workers == old(workers) && overflow == old(overflow)
      ensures match Placed(old(view), m, preferred)
              case Some(w) => ok && view == w
              case None => !ok && view == old(view)
    {
      if 0 <= preferred < |workers| {
        var put := workers[preferred].Push(m);
        if put {
          view := view.(locals := view.locals[preferred := view.locals[preferred] + [m]]);
          return true;
        }
      }
      ok := overflow.Push(m);
      if ok { view := view.(global := view.global + [m]); }
    }

    /** Robs the first worker behind `id` that has something, or takes from the overflow ring. */
    method Steal(id: nat) returns (r: Option<nat>)
      requires Valid() && id < |workers|
      modifies this, workers, overflow
      ensures Valid() && workers == old(workers) && overflow == old(overflow) && delivered == old(delivered)
      ensures (view, r) == Robbed(old(view), id)
    {
      var n := |workers|;
      if n <= 1 { return None; }
      var start := (id + 1) % n;
      for i := 0 to n
        invariant Valid() && view == old(view) && workers == old(workers) && overflow == old(overflow)
        invariant delivered == old(delivered)
        invariant FirstVictim(view.locals, id, 0) == FirstVictim(view.locals, id, i)
      {
        var target := (start + i) % n;
        assert target == Target(id, n, i);
        if target != id && workers[target].count > 0 {
          r := workers[target].StealFrom();
          view := view.(locals := view.locals[target := view.locals[target][1..]]);
          return;
        }
      }
      r := overflow.PopLocal();
      view := view.(global := PopNewest(view.global).0);
    }

    method WorkerTurn(id: nat) returns (r: Option<nat>)
      requires Valid() && id < |workers|
      modifies this, workers, overflow
      ensures Valid() && workers == old(workers) && overflow == old(overflow) && delivered == old(delivered)
      ensures (view, r) == Turn(old(view), id)
    {
      if workers[id].count > 0 {
        r := workers[id].PopLocal();
        view := view.(locals := view.locals[id := PopNewest(view.locals[id]).0]);
      } else {
        r := Steal(id);
      }
    }

    /**
     Every worker in turn: what was taken out, and what the first running actor was given
     of it.  `running[id]` is what the search for such an actor finds at that turn.
     */
    method RunTick(running: seq<bool>) returns (taken: seq<nat>, handled: seq<nat>)
      requires Valid() && |running| == |workers|
      modifies this, workers, overflow
      ensures Valid() && workers == old(workers) && overflow == old(overflow)
      ensures (view, taken) == Tick(old(view)) && handled == Handled(old(view), 0, running)
      ensures delivered == old(delivered) + |handled|
    {
      taken, handled := [], [];
      ghost var before := view;
      TickStarts(before, running);
      for id := 0 to |workers|
        invariant Valid() && workers == old(workers) && overflow == old(overflow)
        invariant Ticked(before, view, id, running, taken, handled) && delivered == old(delivered) + |handled|
      {
        taken, handled := WorkerStep(id, running, taken, handled, before);
      }
      TickEnds(before, view, running, taken, handled);
    }

    static function Note(ms: seq<nat>, b: bool, r: Option<nat>): (ns: seq<nat>)
      ensures |ns| == |ms| + |OnlyIf(b, r)|
    {
      if r.Some? && b then ms + [r.value] else ms
    }

    /** The turns before `id` have led from `before` to `w`. */
    static ghost predicate Ticked(before: World, w: World, id: nat, running: seq<bool>, taken: seq<nat>, handled: seq<nat>) {
      && id <= |w.locals| == |before.locals| == |running|
      && Tick(before).0 == Turns(w, id).0 && Tick(before).1 == taken + Turns(w, id).1
      && Handled(before, 0, running) == handled + Handled(w, id, running)
    }

    static lemma TickStarts(before: World, running: seq<bool>)
      requires |running| == |before.locals|
      ensures Ticked(before, before, 0, running, [], [])
    {
      assert [] + Turns(before, 0).1 == Turns(before, 0).1;
      assert [] + Handled(before, 0, running) == Handled(before, 0, running);
    }

    static lemma TickStep(before: World, w: World, r: Option<nat>, w1: World, id: nat, running: seq<bool>,
                          taken: seq<nat>, handled: seq<nat>)
      requires Ticked(before, w, id, running, taken, handled) && id < |w.locals| && (w1, r) == Turn(w, id)
      ensures Ticked(before, w1, id + 1, running, Note(taken, true, r), Note(handled, running[id], r))
    {
      TurnsStep(w, id, taken);
      HandledStep(w, id, running, handled);
    }

    static lemma TickEnds(before: World, w: World, running: seq<bool>, taken: seq<nat>, handled: seq<nat>)
      requires Ticked(before, w, |running|, running, taken, handled)
      ensures (w, taken) == Tick(before) && handled == Handled(before, 0, running)
    {
      assert taken + [] == taken && handled + [] == handled;
    }

    /** One worker's turn: what it took out is noted, and counted if an actor was given it. */
    method WorkerStep(id: nat, running: seq<bool>, taken: seq<nat>, handled: seq<nat>, ghost before: World)
      returns (taken': seq<nat>, handled': seq<nat>)
      requires Valid() && id < |workers| && Ticked(before, view, id, running, taken, handled)
      modifies this, workers, overflow
      ensures Valid() && workers == old(workers) && overflow == old(overflow)
      ensures Ticked(before, view, id + 1, running, taken', handled')
      ensures delivered == old(delivered) + |handled'| - |handled|
    {
      ghost var w := view;
      var r := WorkerTurn(id);
      TickStep(before, w, r, view, id, running, taken, handled);
      taken', handled' := Note(taken, true, r), Note(handled, running[id], r);
      if r.Some? && running[id] { delivered := delivered + 1; }
    }

    static lemma HandledStep(w: World, id: nat, running: seq<bool>, handled: seq<nat>)
      requires id < |w.locals| == |running|
      ensures var (w1, r) := Turn(w, id);
              var handled' := if r.Some? && running[id] then handled + [r.value] else handled;
              handled + Handled(w, id, running) == handled' + Handled(w1, id + 1, running)
    {
      var (w1, r) := Turn(w, id);
      var rest := Handled(w1, id + 1, running);
      assert [] + rest == rest;
      assert r.Some? ==> handled + ([r.value] + rest) == (handled + [r.value]) + rest;
    }

    static lemma TurnsStep(w: World, id: nat, given: seq<nat>)
      requires id < |w.locals|
      ensures var (w1, r) := Turn(w, id);
              var given' := if r.Some? then given + [r.value] else given;
              Turns(w, id).0 == Turns(w1, id + 1).0 && given + Turns(w, id).1 == given' + Turns(w1, id + 1).1
    {
      var (w1, r) := Turn(w, id);
      assert r.Some? ==> given + ([r.value] + Turns(w1, id + 1).1) == (given + [r.value]) + Turns(w1, id + 1).1;
      assert [] + Turns(w1, id + 1).1 == Turns(w1, id + 1).1;
    }
  }
}
