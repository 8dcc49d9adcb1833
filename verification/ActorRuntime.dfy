/**
 The actor runtime as it runs.  Message nodes live in an explicit memory, address by
 address, so that links, tail pointers and recycled nodes are the pointers they are in
 the program.  Each operation is proved to do what ActorModel says, and to keep free
 nodes, mailbox nodes and the node being handled apart.
 */
module ActorRuntime {
  import M = ActorModel

  const POOL_MAX: nat := 4096

  type Addr = nat
  const NULL: Addr := 0

  datatype Node = Node(next: Addr, id: nat, from: int, payload: M.Payload)

  type Memory = map<Addr, Node>

  datatype Actor = Actor(messages: Addr, tail: Addr, count: nat, limit: nat, state: M.ActorState,
                         nextId: nat, seen: seq<nat>)

  // ------------------------------------------------------------ where nodes are

  /** The one place a node is in; a slot is a position counted from a fixed end. */
  datatype Place = Free(slot: int) | Box(actor: nat, slot: int) | Flight

  type Places = map<Addr, Place>

  /** The nodes of `s` are chained in order from `head`, the last one to nothing. */
  ghost predicate Linked(mem: Memory, head: Addr, s: seq<Addr>) {
    && (if s == [] then head == NULL else head == s[0])
    && (forall k :: 0 <= k < |s| ==> s[k] != NULL && s[k] in mem)
    && (forall k :: 0 <= k < |s| - 1 ==> mem[s[k]].next == s[k + 1])
    && (s != [] ==> mem[s[|s| - 1]].next == NULL)
  }

  /** The list of actor `i`: linked from head to tail, its own nodes, holding `queue`. */
  ghost predicate BoxOk(mem: Memory, place: Places, a: Actor, i: nat, s: seq<Addr>, base: int, queue: seq<M.Envelope>) {
    && Linked(mem, a.messages, s)
    && (if s == [] then a.tail == NULL else a.tail == s[|s| - 1])
    && a.count == |s| == |queue|
    && (forall k :: 0 <= k < |s| ==> s[k] in place && place[s[k]] == Box(i, base + k))
    && (forall k :: 0 <= k < |s| ==> queue[k] == M.Envelope(mem[s[k]].id, mem[s[k]].from, mem[s[k]].payload))
  }

  /** The free list: a chain of at most 4096 nodes that belong to nobody. */
  ghost predicate PoolOk(mem: Memory, place: Places, pool: Addr, count: nat, s: seq<Addr>) {
    && Linked(mem, pool, s) && count == |s| <= POOL_MAX
    && forall k :: 0 <= k < |s| ==> s[k] in place && place[s[k]] == Free(|s| - 1 - k)
  }

  lemma LinkedTail(mem: Memory, head: Addr, s: seq<Addr>)
    requires Linked(mem, head, s) && s != []
    ensures Linked(mem, mem[head].next, s[1..])
  {
  }

  /** Memory that differs only outside `s` keeps the chain. */
  lemma LinkedElsewhere(mem: Memory, mem': Memory, head: Addr, s: seq<Addr>)
    requires Linked(mem, head, s)
    requires forall k :: 0 <= k < |s| ==> s[k] in mem' && mem'[s[k]] == mem[s[k]]
    ensures Linked(mem', head, s)
  {
  }

  lemma BoxElsewhere(mem: Memory, mem': Memory, place: Places, place': Places, a: Actor, i: nat,
                     s: seq<Addr>, base: int, queue: seq<M.Envelope>)
    requires BoxOk(mem, place, a, i, s, base, queue)
    requires forall x :: x in place && place[x].Box? && place[x].actor == i ==>
               x in mem' && x in place' && place'[x] == place[x] && (x in mem ==> mem'[x] == mem[x])
    ensures BoxOk(mem', place', a, i, s, base, queue)
  {
    LinkedElsewhere(mem, mem', a.messages, s);
  }

  lemma PoolElsewhere(mem: Memory, mem': Memory, place: Places, place': Places, pool: Addr, count: nat, s: seq<Addr>)
    requires PoolOk(mem, place, pool, count, s)
    requires forall x :: x in place && place[x].Free? ==>
               x in mem' && x in place' && place'[x] == place[x] && (x in mem ==> mem'[x] == mem[x])
    ensures PoolOk(mem', place', pool, count, s)
  {
    LinkedElsewhere(mem, mem', pool, s);
  }

  // ------------------------------------------------------------ list surgery

  function Linking(mem: Memory, tail: Addr, m: Addr): Memory {
    if tail != NULL && tail in mem then mem[tail := mem[tail].(next := m)] else mem
  }

  lemma AppendKeepsBox(mem: Memory, place: Places, a: Actor, i: nat, s: seq<Addr>, base: int,
                       queue: seq<M.Envelope>, m: Addr)
    requires BoxOk(mem, place, a, i, s, base, queue)
    requires m != NULL && m in mem && m in place && place[m] == Flight && mem[m].next == NULL
    ensures var a' := a.(messages := if a.tail != NULL then a.messages else m, tail := m, count := a.count + 1);
            BoxOk(Linking(mem, a.tail, m), place[m := Box(i, base + |s|)], a', i, s + [m], base,
                  queue + [M.Envelope(mem[m].id, mem[m].from, mem[m].payload)])
  {
    assert m !in s;
  }

  lemma TakeKeepsBox(mem: Memory, place: Places, a: Actor, i: nat, s: seq<Addr>, base: int, queue: seq<M.Envelope>)
    requires BoxOk(mem, place, a, i, s, base, queue) && a.messages != NULL
    ensures a.messages in mem && a.messages in place && place[a.messages] == Box(i, base) && queue != []
    ensures var next := mem[a.messages].next;
            var a' := a.(messages := next, tail := if next == NULL then NULL else a.tail, count := a.count - 1);
            BoxOk(mem, place[a.messages := Flight], a', i, s[1..], base + 1, queue[1..])
  {
    LinkedTail(mem, a.messages, s);
    assert a.messages == s[0];
    assert forall k :: 0 <= k < |s| - 1 ==> s[1..][k] == s[k + 1] && place[s[k + 1]] == Box(i, base + k + 1);
  }

  lemma PopKeepsPool(mem: Memory, place: Places, pool: Addr, count: nat, s: seq<Addr>)
    requires PoolOk(mem, place, pool, count, s) && pool != NULL
    ensures pool in mem && pool in place && place[pool] == Free(|s| - 1) && count > 0
    ensures PoolOk(mem[pool := mem[pool].(next := NULL)], place[pool := Flight], mem[pool].next, count - 1, s[1..])
  {
    LinkedTail(mem, pool, s);
    assert forall k :: 0 <= k < |s| - 1 ==> s[1..][k] == s[k + 1] && place[s[k + 1]] == Free(|s| - 2 - k);
    LinkedElsewhere(mem, mem[pool := mem[pool].(next := NULL)], mem[pool].next, s[1..]);
  }

  lemma PushKeepsPool(mem: Memory, place: Places, pool: Addr, count: nat, s: seq<Addr>, m: Addr, node: Node)
    requires PoolOk(mem, place, pool, count, s) && count < POOL_MAX
    requires m != NULL && m in place && place[m] == Flight && node.next == pool
    ensures PoolOk(mem[m := node], place[m := Free(|s|)], m, count + 1, [m] + s)
  {
    assert m !in s;
    LinkedElsewhere(mem, mem[m := node], pool, s);
  }

  // ------------------------------------------------------------ all actors

  ghost predicate Matches(a: Actor, v: M.Mailbox) {
    a.limit == v.limit && a.state == v.state && a.nextId == v.nextId && a.seen == v.seen
  }

  ghost predicate ActorOk(mem: Memory, place: Places, a: Actor, i: nat, s: seq<Addr>, base: int, v: M.Mailbox) {
    BoxOk(mem, place, a, i, s, base, v.queue) && Matches(a, v)
  }

  ghost predicate ActorsOk(mem: Memory, place: Places, actors: seq<Actor>, boxes: seq<seq<Addr>>, bases: seq<int>,
                           views: seq<M.Mailbox>) {
    && |actors| == |boxes| == |bases| == |views|
    && forall i :: 0 <= i < |actors| ==> ActorOk(mem, place, actors[i], i, boxes[i], bases[i], views[i])
  }

  /** Placed nodes, except those of actor `skip`, are what and where they were. */
  ghost predicate Kept(mem: Memory, mem': Memory, place: Places, place': Places, skip: int) {
    forall x :: x in place && place[x].Box? && place[x].actor != skip ==>
      x in mem' && x in place' && place'[x] == place[x] && (x in mem ==> mem'[x] == mem[x])
  }

  /** Replacing actor `i`'s record, box and view while the others' nodes stay put. */
  lemma ReplaceActor(mem: Memory, mem': Memory, place: Places, place': Places, actors: seq<Actor>,
                     boxes: seq<seq<Addr>>, bases: seq<int>, views: seq<M.Mailbox>,
                     i: nat, a: Actor, s: seq<Addr>, base: int, v: M.Mailbox)
    requires ActorsOk(mem, place, actors, boxes, bases, views) && i < |actors|
    requires Kept(mem, mem', place, place', i) && ActorOk(mem', place', a, i, s, base, v)
    ensures ActorsOk(mem', place', actors[i := a], boxes[i := s], bases[i := base], views[i := v])
  {
    forall j | 0 <= j < |actors| && j != i
      ensures ActorOk(mem', place', actors[j], j, boxes[j], bases[j], views[j])
    {
      BoxElsewhere(mem, mem', place, place', actors[j], j, boxes[j], bases[j], views[j].queue);
    }
  }

  lemma KeepActors(mem: Memory, mem': Memory, place: Places, place': Places, actors: seq<Actor>,
                   boxes: seq<seq<Addr>>, bases: seq<int>, views: seq<M.Mailbox>)
    requires ActorsOk(mem, place, actors, boxes, bases, views) && Kept(mem, mem', place, place', -1)
    ensures ActorsOk(mem', place', actors, boxes, bases, views)
  {
    forall j | 0 <= j < |actors|
      ensures ActorOk(mem', place', actors[j], j, boxes[j], bases[j], views[j])
    {
      BoxElsewhere(mem, mem', place, place', actors[j], j, boxes[j], bases[j], views[j].queue);
    }
  }

  // ------------------------------------------------------------ the whole state

  /** The runtime's fields, with the ghost account of where every node is. */
  datatype Sys = Sys(mem: Memory, brk: Addr, actors: seq<Actor>, pool: Addr, poolCount: nat,
                     ghost place: Places, ghost free: seq<Addr>, ghost boxes: seq<seq<Addr>>, ghost bases: seq<int>,
                     ghost views: seq<M.Mailbox>)

  ghost predicate Ok(s: Sys) {
    && s.place.Keys == s.mem.Keys && (forall x :: x in s.mem ==> NULL < x < s.brk) && NULL < s.brk
    && PoolOk(s.mem, s.place, s.pool, s.poolCount, s.free)
    && ActorsOk(s.mem, s.place, s.actors, s.boxes, s.bases, s.views)
  }

  /** No node is in two places: on the free list, in one mailbox at one position, or in flight. */
  lemma NodesApart(s: Sys, i: nat, j: nat, k: nat, l: nat)
    requires Ok(s) && i < |s.boxes| && k < |s.boxes[i]|
    ensures s.boxes[i][k] in s.place && s.boxes[i][k] !in s.free && s.place[s.boxes[i][k]] != Flight
    ensures j < |s.boxes| && l < |s.boxes[j]| && s.boxes[i][k] == s.boxes[j][l] ==> i == j && k == l
  {
    assert ActorOk(s.mem, s.place, s.actors[i], i, s.boxes[i], s.bases[i], s.views[i]);
    if j < |s.boxes| && l < |s.boxes[j]| {
      assert ActorOk(s.mem, s.place, s.actors[j], j, s.boxes[j], s.bases[j], s.views[j]);
    }
  }

  /** Popping the free list, or taking a fresh address when it is empty. */
  ghost function Got(s: Sys): (Sys, Addr) {
    if s.pool in s.mem && s.pool in s.place && s.poolCount > 0 && s.free != [] then
      var m := s.pool;
      (s.(pool := s.mem[m].next, poolCount := s.poolCount - 1, mem := s.mem[m := s.mem[m].(next := NULL)],
          place := s.place[m := Flight], free := s.free[1..]), m)
    else
      (s.(brk := s.brk + 1, mem := s.mem[s.brk := Node(NULL, 0, -1, M.Payload("", []))], place := s.place[s.brk := Flight]),
       s.brk)
  }

  lemma GotKeeps(s: Sys)
    requires Ok(s)
    ensures s.pool != NULL <==> s.pool in s.mem && s.pool in s.place && s.poolCount > 0 && s.free != []
    ensures var (t, m) := Got(s);
            && Ok(t) && t.views == s.views && |t.actors| == |s.actors| && m in t.mem && t.mem[m].next == NULL
            && t.place == s.place[m := Flight] && (m in s.place ==> s.place[m].Free?)
  {
    var (t, m) := Got(s);
    if s.pool != NULL {
      PopKeepsPool(s.mem, s.place, s.pool, s.poolCount, s.free);
    } else {
      PoolElsewhere(s.mem, t.mem, s.place, t.place, s.pool, s.poolCount, s.free);
    }
    KeepActors(s.mem, t.mem, s.place, t.place, s.actors, s.boxes, s.bases, s.views);
  }

  /** Clearing a node onto the free list, or freeing it when the list is full. */
  ghost function Put(s: Sys, m: Addr): Sys {
    if s.poolCount < POOL_MAX then
      s.(mem := s.mem[m := Node(s.pool, 0, -1, M.Payload("", []))], pool := m, poolCount := s.poolCount + 1,
         place := s.place[m := Free(|s.free|)], free := [m] + s.free)
    else s.(mem := s.mem - {m}, place := s.place - {m})
  }

  lemma PutKeeps(s: Sys, m: Addr)
    requires Ok(s) && m in s.mem && s.place[m] == Flight
    ensures Ok(Put(s, m)) && Put(s, m).views == s.views && |Put(s, m).actors| == |s.actors|
    ensures Put(s, m).poolCount == (if s.poolCount < 4096 then s.poolCount + 1 else s.poolCount)
    ensures m in Put(s, m).mem <==> s.poolCount < 4096
  {
    var t := Put(s, m);
    if s.poolCount < POOL_MAX {
      PushKeepsPool(s.mem, s.place, s.pool, s.poolCount, s.free, m, t.mem[m]);
    } else {
      PoolElsewhere(s.mem, t.mem, s.place, t.place, s.pool, s.poolCount, s.free);
    }
    KeepActors(s.mem, t.mem, s.place, t.place, s.actors, s.boxes, s.bases, s.views);
  }

  function Appended(a: Actor, m: Addr): Actor {
    a.(messages := if a.tail != NULL then a.messages else m, tail := m, count := a.count + 1, nextId := a.nextId + 1)
  }

  /** Filling a detached node and linking it behind actor `i`'s tail. */
  ghost function Append(s: Sys, i: nat, m: Addr, from: int, payload: M.Payload): Sys
    requires i < |s.actors| == |s.boxes| == |s.bases| == |s.views|
  {
    s.(mem := Linking(s.mem[m := Node(NULL, s.actors[i].nextId, from, payload)], s.actors[i].tail, m),
       actors := s.actors[i := Appended(s.actors[i], m)],
       place := s.place[m := Box(i, s.bases[i] + |s.boxes[i]|)],
       boxes := s.boxes[i := s.boxes[i] + [m]],
       views := s.views[i := M.Accept(s.views[i], from, payload)])
  }

  lemma AppendKeeps(s: Sys, i: nat, m: Addr, from: int, payload: M.Payload)
    requires Ok(s) && i < |s.actors| && m in s.mem && s.place[m] == Flight
    ensures Ok(Append(s, i, m, from, payload))
    ensures s.actors[i].tail != NULL ==> s.actors[i].tail in s.mem
  {
    var t := Append(s, i, m, from, payload);
    var a := s.actors[i];
    var filled := s.mem[m := Node(NULL, a.nextId, from, payload)];
    KeepActors(s.mem, filled, s.place, s.place, s.actors, s.boxes, s.bases, s.views);
    assert ActorOk(filled, s.place, a, i, s.boxes[i], s.bases[i], s.views[i]);
    AppendKeepsBox(filled, s.place, a, i, s.boxes[i], s.bases[i], s.views[i].queue, m);
    assert s.bases[i := s.bases[i]] == s.bases;
    ReplaceActor(filled, t.mem, s.place, t.place, s.actors, s.boxes, s.bases, s.views, i, Appended(a, m),
                 s.boxes[i] + [m], s.bases[i], M.Accept(s.views[i], from, payload));
    PoolElsewhere(s.mem, t.mem, s.place, t.place, s.pool, s.poolCount, s.free);
  }

  /** Detaching actor `i`'s head node, which is then in flight. */
  ghost function Take(s: Sys, i: nat): Sys
    requires i < |s.actors| == |s.boxes| == |s.bases| == |s.views|
    requires s.actors[i].messages in s.mem && s.actors[i].count > 0 && s.boxes[i] != [] && s.views[i].queue != []
  {
    var a := s.actors[i];
    var next := s.mem[a.messages].next;
    s.(actors := s.actors[i := a.(messages := next, tail := if next == NULL then NULL else a.tail, count := a.count - 1)],
       place := s.place[a.messages := Flight], boxes := s.boxes[i := s.boxes[i][1..]],
       bases := s.bases[i := s.bases[i] + 1],
       views := s.views[i := s.views[i].(queue := s.views[i].queue[1..])])
  }

  predicate Waiting(s: Sys, i: nat) {
    i < |s.actors| && s.actors[i].messages != NULL
  }

  lemma TakeKeeps(s: Sys, i: nat)
    requires Ok(s) && Waiting(s, i)
    ensures var a := s.actors[i];
            && a.messages in s.mem && a.count > 0 && s.boxes[i] != [] && s.views[i].queue != []
            && s.views[i].queue[0] == M.Envelope(s.mem[a.messages].id, s.mem[a.messages].from, s.mem[a.messages].payload)
            && Ok(Take(s, i)) && Take(s, i).place[a.messages] == Flight
  {
    var a := s.actors[i];
    assert ActorOk(s.mem, s.place, a, i, s.boxes[i], s.bases[i], s.views[i]);
    TakeKeepsBox(s.mem, s.place, a, i, s.boxes[i], s.bases[i], s.views[i].queue);
    var t := Take(s, i);
    ReplaceActor(s.mem, s.mem, s.place, t.place, s.actors, s.boxes, s.bases, s.views, i, t.actors[i],
                 t.boxes[i], t.bases[i], t.views[i]);
    PoolElsewhere(s.mem, s.mem, s.place, t.place, s.pool, s.poolCount, s.free);
  }

  /** Changing state, limit, seen ids and histories of one actor, the same way in record and view. */
  lemma RelabelKeeps(s: Sys, i: nat, a: Actor, v: M.Mailbox)
    requires Ok(s) && i < |s.actors| && Matches(a, v) && v.queue == s.views[i].queue
    requires a == s.actors[i].(state := a.state, limit := a.limit, seen := a.seen)
    ensures Ok(s.(actors := s.actors[i := a], views := s.views[i := v]))
  {
    assert ActorOk(s.mem, s.place, s.actors[i], i, s.boxes[i], s.bases[i], s.views[i]);
    ReplaceActor(s.mem, s.mem, s.place, s.place, s.actors, s.boxes, s.bases, s.views, i, a, s.boxes[i], s.bases[i], v);
    assert s.boxes[i := s.boxes[i]] == s.boxes && s.bases[i := s.bases[i]] == s.bases;
  }

  /** Changing only the states, the same way in records and views. */
  lemma RestateKeeps(s: Sys, actors: seq<Actor>, views: seq<M.Mailbox>)
    requires Ok(s) && |actors| == |s.actors| && |views| == |s.views|
    requires forall i :: 0 <= i < |actors| ==>
               actors[i] == s.actors[i].(state := actors[i].state) && views[i] == s.views[i].(state := actors[i].state)
    ensures Ok(s.(actors := actors, views := views))
  {
    forall i | 0 <= i < |actors|
      ensures ActorOk(s.mem, s.place, actors[i], i, s.boxes[i], s.bases[i], views[i])
    {
      assert ActorOk(s.mem, s.place, s.actors[i], i, s.boxes[i], s.bases[i], s.views[i]);
    }
  }

  lemma ViewLength(s: Sys)
    requires Ok(s)
    ensures |s.views| == |s.actors|
  {
  }

  class Runtime {
    var mem: Memory
    var brk: Addr
    var actors: seq<Actor>
    var pool: Addr
    var poolCount: nat
    var sent: nat
    var delivered: nat
    var ticks: nat
    ghost var place: Places
    ghost var free: seq<Addr>
    ghost var boxes: seq<seq<Addr>>
    ghost var bases: seq<int>
    ghost var views: seq<M.Mailbox>

    ghost function State(): Sys
      reads this
    {
      Sys(mem, brk, actors, pool, poolCount, place, free, boxes, bases, views)
    }

    ghost predicate Valid()
      reads this
    {
      Ok(State())
    }

    /** Valid as a single fact, for loops that only hand it on. */
    ghost predicate Intact()
      reads this
    {
      forall s :: s == State() ==> Ok(s)
    }

    ghost function View(): M.World
      reads this
    {
      M.World(views, sent, delivered, ticks)
    }

    constructor ()
      ensures Valid() && View() == M.Empty
    {
      mem, brk, actors, pool, poolCount := map[], 1, [], NULL, 0;
      sent, delivered, ticks := 0, 0, 0;
      place, free, boxes, bases, views := map[], [], [], [], [];
    }

    method NewActor() returns (i: nat)
      requires Valid()
      modifies this
      ensures Valid() && View() == M.Next(old(View()), M.New) && i == old(|actors|)
      ensures actors == old(actors) + [Actor(NULL, NULL, 0, 65536, M.Init, 1, [])]
    {
      i := |actors|;
      actors := actors + [Actor(NULL, NULL, 0, 65536, M.Init, 1, [])];
      boxes, bases, views := boxes + [[]], bases + [0], views + [M.NewMailbox];
    }

    /** Pops the free list, or allocates. */
    method GetNode() returns (m: Addr)
      requires Valid()
      modifies this
      ensures (State(), m) == Got(old(State())) && View() == old(View())
    {
      GotKeeps(State());
      if pool != NULL { m := PopNode(); } else { m := NewNode(); }
    }

    /** The head of the free list. */
    method PopNode() returns (m: Addr)
      requires pool in mem && pool in place && poolCount > 0 && free != []
      modifies this`pool, this`poolCount, this`mem, this`place, this`free
      ensures (State(), m) == Got(old(State()))
    {
      m := pool;
      pool := mem[m].next;
      poolCount := poolCount - 1;
      mem := mem[m := mem[m].(next := NULL)];
      place, free := place[m := Flight], free[1..];
    }

    /** A node that was never used. */
    method NewNode() returns (m: Addr)
      requires !(pool in mem && pool in place && poolCount > 0 && free != [])
      modifies this`brk, this`mem, this`place
      ensures (State(), m) == Got(old(State()))
    {
      m := brk;
      brk := brk + 1;
      mem := mem[m := Node(NULL, 0, -1, M.Payload("", []))];
      place := place[m := Flight];
    }

    /** Clears a node and pushes it on the free list; when that is full the node is freed. */
    method PutNode(m: Addr)
      requires m in mem
      modifies this
      ensures State() == Put(old(State()), m) && View() == old(View())
    {
      if poolCount < POOL_MAX {
        mem := mem[m := Node(pool, 0, -1, M.Payload("", []))];
        pool := m;
        poolCount := poolCount + 1;
        place, free := place[m := Free(|free|)], [m] + free;
      } else {
        mem := mem - {m};
        place := place - {m};
      }
    }

    /** Whether the target takes messages now. */
    method Check(to: int) returns (code: int)
      requires Valid()
      ensures code == M.Verdict(View(), to)
    {
      if to < 0 || to >= |actors| { return -1; }
      var a := actors[to];
      assert ActorOk(mem, place, a, to, boxes[to], bases[to], views[to]);
      if a.state == M.Crashed { return -7; }
      if a.state != M.Running && a.state != M.Init { return -2; }
      if a.count >= a.limit { return -3; }
      code := 0;
    }

    /** Fills a detached node under the actor's next id and links it behind the tail. */
    method Enqueue(i: nat, m: Addr, from: int, payload: M.Payload)
      requires i < |actors| == |boxes| == |bases| == |views| && (actors[i].tail != NULL ==> actors[i].tail in mem)
      modifies `mem, `actors, `place, `boxes, `views
      ensures State() == Append(old(State()), i, m, from, payload)
    {
      ghost var after := Append(State(), i, m, from, payload);
      var a := actors[i];
      var mem' := mem[m := Node(NULL, a.nextId, from, payload)];
      if a.tail != NULL {
        mem' := mem'[a.tail := mem'[a.tail].(next := m)];
      }
      mem := mem';
      a := a.(messages := if a.tail != NULL then a.messages else m, tail := m);
      actors := actors[i := a.(count := a.count + 1, nextId := a.nextId + 1)];
      place, boxes, views := after.place, after.boxes, after.views;
    }

    /** A send: refused with its code, or accepted behind everything accepted before. */
    method Send(from: int, to: int, payload: M.Payload) returns (code: int)
      requires Valid()
      modifies this
      ensures Valid() && code == M.Verdict(old(View()), to)
      ensures View() == M.Send(old(View()), M.SendOp(from, to, payload))
      ensures forall x :: x in old(place) && old(place)[x] == Flight ==> x in place && place[x] == Flight
    {
      code := Check(to);
      if code == 0 { Accept(to, from, payload); }
    }

    method Accept(to: nat, from: int, payload: M.Payload)
      requires Valid() && to < |actors|
      modifies this
      ensures Valid()
      ensures View() == old(View().(actors := views[to := M.Accept(views[to], from, payload)], sent := sent + 1))
      ensures forall x :: x in old(place) && old(place)[x] == Flight ==> x in place && place[x] == Flight
    {
      GotKeeps(State());
      var m := GetNode();
      AppendKeeps(State(), to, m, from, payload);
      Enqueue(to, m, from, payload);
      sent := sent + 1;
    }

    /** Detaches the head node of a mailbox. */
    method TakeHead(i: nat) returns (m: Addr)
      requires i < |actors| == |boxes| == |bases| == |views| && actors[i].messages in mem && actors[i].count > 0
      requires boxes[i] != [] && views[i].queue != []
      modifies `actors, `place, `boxes, `bases, `views
      ensures m == old(actors[i].messages) && State() == Take(old(State()), i)
    {
      ghost var after := Take(State(), i);
      var a := actors[i];
      m := a.messages;
      a := a.(messages := mem[m].next);
      if a.messages == NULL { a := a.(tail := NULL); }
      actors := actors[i := a.(count := a.count - 1)];
      place, boxes, bases, views := after.place, after.boxes, after.bases, after.views;
    }

    /** Was this id handed to the actor before?  If not, it is remembered, and `m` counts as handled. */
    method Delivered(i: nat, id: nat, ghost m: M.Envelope) returns (before: bool)
      requires Valid() && i < |actors|
      modifies this
      ensures Valid() && |actors| == old(|actors|) && mem == old(mem) && place == old(place)
      ensures before == (id in old(views[i]).seen)
      ensures View() == if before then old(View()) else
                old(View().(actors := views[i := views[i].(seen := views[i].seen + [id],
                                                           handled := views[i].handled + [m])]))
    {
      var a := actors[i];
      assert ActorOk(mem, place, a, i, boxes[i], bases[i], views[i]);
      for k := 0 to |a.seen|
        invariant Valid() && State() == old(State()) && View() == old(View())
        invariant id !in a.seen[..k]
      {
        if a.seen[k] == id { return true; }
        assert a.seen[..k + 1] == a.seen[..k] + [a.seen[k]];
      }
      assert a.seen[..|a.seen|] == a.seen;
      a := a.(seen := a.seen + [id]);
      ghost var v := views[i].(seen := a.seen, handled := views[i].handled + [m]);
      RelabelKeeps(State(), i, a, v);
      actors, views := actors[i := a], views[i := v];
      before := false;
    }

    /** What a behaviour sends while it runs, one send after the other. */
    method RunScript(script: seq<M.SendOp>)
      requires Valid()
      modifies this
      ensures Valid() && View() == M.SendAll(old(View()), script)
      ensures forall x :: x in old(place) && old(place)[x] == Flight ==> x in place && place[x] == Flight
    {
      for k := 0 to |script|
        invariant Valid() && M.SendAll(View(), script[k..]) == M.SendAll(old(View()), script)
        invariant forall x :: x in old(place) && old(place)[x] == Flight ==> x in place && place[x] == Flight
      {
        var op := script[k];
        assert script[k..][1..] == script[k + 1..];
        var code := Send(op.from, op.to, op.payload);
      }
    }

    /** Marks a message that carries no id as handled. */
    ghost method Handed(i: nat, m: M.Envelope)
      requires Valid() && i < |actors|
      modifies `views
      ensures Valid() && views == old(views)[i := old(views)[i].(handled := old(views)[i].handled + [m])]
    {
      assert ActorOk(mem, place, actors[i], i, boxes[i], bases[i], views[i]);
      var v := views[i].(handled := views[i].handled + [m]);
      RelabelKeeps(State(), i, actors[i], v);
      assert actors[i := actors[i]] == actors;
      views := views[i := v];
    }

    /** One actor's turn: at most one message, handed to the behaviour unless its id was seen before. */
    method Turn(i: nat, script: seq<M.SendOp>)
      requires Valid() && i < |actors|
      modifies this
      ensures Valid() && |actors| == old(|actors|) && View() == M.Turn(old(View()), i, script)
    {
      var a := actors[i];
      assert ActorOk(mem, place, a, i, boxes[i], bases[i], views[i]);
      if a.messages == NULL || a.state != M.Running { return; }
      var m, again := Receive(i);
      Finish(m, if again then [] else script);
    }

    /** Detaches the head message and looks its id up; it is then in flight. */
    method Receive(i: nat) returns (m: Addr, again: bool)
      requires Valid() && Waiting(State(), i)
      modifies this
      ensures Valid() && |actors| == old(|actors|) && m in mem && place[m] == Flight
      ensures i < |old(views)| && old(views)[i].queue != [] && again == M.Duplicate(old(views)[i])
      ensures View() == old(View()).(actors := old(views)[i := M.Take(old(views)[i])])
    {
      TakeKeeps(State(), i);
      ghost var head := views[i].queue[0];
      m := TakeHead(i);
      again := false;
      if mem[m].id > 0 {
        again := Delivered(i, mem[m].id, head);
      } else {
        Handed(i, head);
      }
    }

    /** Runs the behaviour, counts the delivery and recycles the node. */
    method Finish(m: Addr, script: seq<M.SendOp>)
      requires Valid() && m in mem && place[m] == Flight
      modifies this
      ensures Valid() && |actors| == old(|actors|)
      ensures var w := M.SendAll(old(View()), script); View() == w.(delivered := w.delivered + 1)
    {
      RunScript(script);
      delivered := delivered + 1;
      PutKeeps(State(), m);
      PutNode(m);
    }

    /** One pass over the actor list, newest actor first. */
    method Tick(scripts: M.Scripts)
      requires Valid()
      modifies this
      ensures Valid() && View() == M.Tick(old(View()), scripts)
    {
      AllTurns(scripts);
      assert Ok(State());
      ticks := ticks + 1;
    }

    method AllTurns(scripts: M.Scripts)
      requires Intact() && |views| == |actors|
      modifies this
      ensures Intact() && View() == M.Turns(old(View()), |old(views)|, scripts)
    {
      var n: nat := |actors|;
      ghost var goal := M.Turns(View(), n, scripts);
      while n > 0
        invariant Intact() && n <= |actors| == |views| && M.Turns(View(), n, scripts) == goal
      {
        n := n - 1;
        NextTurn(n, scripts);
      }
    }

    /** The turn of actor `i`: the turns of those before it are still to come. */
    method NextTurn(i: nat, scripts: M.Scripts)
      requires Intact() && i < |actors| == |views|
      modifies this
      ensures Intact() && |actors| == old(|actors|) == |views|
      ensures M.Turns(View(), i, scripts) == M.Turns(old(View()), i + 1, scripts)
    {
      assert Ok(State());
      ghost var w := M.OneTurn(View(), i, scripts);
      Turn(i, scripts(i));
      ViewLength(State());
      assert View() == w;
    }

    /** Sets one actor's state: starting, stopping, crashing, restarting. */
    method SetState(i: nat, state: M.ActorState)
      requires Valid() && i < |actors|
      modifies this
      ensures Valid() && |actors| == old(|actors|) && View() == M.Next(old(View()), M.SetState(i, state))
      ensures actors == old(actors)[i := old(actors)[i].(state := state)]
    {
      assert ActorOk(mem, place, actors[i], i, boxes[i], bases[i], views[i]);
      ghost var v := views[i].(state := state);
      RelabelKeeps(State(), i, actors[i].(state := state), v);
      actors, views := actors[i := actors[i].(state := state)], views[i := v];
    }

    method SetLimit(i: nat, limit: nat)
      requires Valid() && i < |actors|
      modifies this
      ensures Valid() && |actors| == old(|actors|) && View() == M.Next(old(View()), M.SetLimit(i, limit))
      ensures actors == old(actors)[i := old(actors)[i].(limit := if limit > 0 then limit else 65536)]
    {
      assert ActorOk(mem, place, actors[i], i, boxes[i], bases[i], views[i]);
      var n := if limit > 0 then limit else 65536;
      ghost var v := views[i].(limit := n);
      RelabelKeeps(State(), i, actors[i].(limit := n), v);
      actors, views := actors[i := actors[i].(limit := n)], views[i := v];
    }

    method Start()
      requires Valid()
      modifies this
      ensures Valid() && View() == M.Start(old(View()))
      ensures |actors| == |old(actors)|
      ensures forall i :: 0 <= i < |actors| ==> actors[i] == old(actors)[i].(state := M.Running)
    {
      ghost var s := State();
      ViewLength(s);
      for i := 0 to |actors|
        modifies `actors
        invariant |actors| == |s.actors|
        invariant forall j :: 0 <= j < i ==> actors[j] == s.actors[j].(state := M.Running)
        invariant forall j :: i <= j < |actors| ==> actors[j] == s.actors[j]
      {
        actors := actors[i := actors[i].(state := M.Running)];
      }
      views := M.Start(View()).actors;
      RestateKeeps(s, actors, views);
    }
  }
}
