/** The actor runtime on values: mailboxes, sends with their return codes, and ticks. */
module ActorModel {

  // A tick hands each running actor at most one message, and its handler may send.  What
  // a handler sends is an arbitrary script, so a statement over all scripts is a
  // statement over all handlers.

  datatype ActorState = Init | Running | Stopping | Stopped | Crashed | Restarting

  datatype Payload = Payload(name: string, arg: seq<int>)

  datatype Envelope = Envelope(id: nat, from: int, payload: Payload)

  /** `accepted` and `handled` are histories: what sends have put in, what the behaviour was given. */
  datatype Mailbox = Mailbox(state: ActorState, limit: nat, nextId: nat, queue: seq<Envelope>, seen: seq<nat>,
                             accepted: seq<Envelope>, handled: seq<Envelope>)

  datatype World = World(actors: seq<Mailbox>, sent: nat, delivered: nat, ticks: nat)

  const NewMailbox := Mailbox(Init, 65536, 1, [], [], [], [])

  datatype SendOp = SendOp(from: int, to: int, payload: Payload)

  /** The answer of a send: 0, or why the message was refused. */
  function Verdict(w: World, to: int): (code: int)
    ensures code == 0 <==> 0 <= to < |w.actors| && (w.actors[to].state == Running || w.actors[to].state == Init)
                           && |w.actors[to].queue| < w.actors[to].limit
  {
    if to < 0 || to >= |w.actors| then -1
    else
      var a := w.actors[to];
      if a.state == Crashed then -7
      else if a.state != Running && a.state != Init then -2
      else if |a.queue| >= a.limit then -3
      else 0
  }

  function Accept(a: Mailbox, from: int, p: Payload): Mailbox {
    var m := Envelope(a.nextId, from, p);
    a.(nextId := a.nextId + 1, queue := a.queue + [m], accepted := a.accepted + [m])
  }

  function Send(w: World, op: SendOp): (w': World)
    ensures |w'.actors| == |w.actors|
  {
    if Verdict(w, op.to) != 0 then w
    else w.(actors := w.actors[op.to := Accept(w.actors[op.to], op.from, op.payload)], sent := w.sent + 1)
  }

  function SendAll(w: World, script: seq<SendOp>): (w': World)
    ensures |w'.actors| == |w.actors|
    decreases script
  {
    if script == [] then w else SendAll(Send(w, script[0]), script[1..])
  }

  /** The head is taken; unless its id was delivered before, the behaviour gets it. */
  function Take(a: Mailbox): Mailbox
    requires a.queue != []
  {
    var m := a.queue[0];
    if m.id > 0 && m.id in a.seen then a.(queue := a.queue[1..])
    else if m.id > 0 then a.(queue := a.queue[1..], seen := a.seen + [m.id], handled := a.handled + [m])
    else a.(queue := a.queue[1..], handled := a.handled + [m])
  }

  predicate Due(a: Mailbox) {
    a.queue != [] && a.state == Running
  }

  predicate Duplicate(a: Mailbox) {
    a.queue != [] && a.queue[0].id > 0 && a.queue[0].id in a.seen
  }

  /** One actor's turn within a tick; `script` is what its behaviour sends meanwhile. */
  function Turn(w: World, i: nat, script: seq<SendOp>): (w': World)
    requires i < |w.actors|
    ensures |w'.actors| == |w.actors|
  {
    var a := w.actors[i];
    if !Due(a) then w
    else
      var w1 := w.(actors := w.actors[i := Take(a)]);
      var w2 := if Duplicate(a) then w1 else SendAll(w1, script);
      w2.(delivered := w2.delivered + 1)
  }

  type Scripts = nat -> seq<SendOp>

  /** The turns of actors `n - 1` down to 0: the actor list has the newest at its head. */
  function Turns(w: World, n: nat, scripts: Scripts): (w': World)
    requires n <= |w.actors|
    ensures |w'.actors| == |w.actors|
    decreases n
  {
    if n == 0 then w else Turns(Turn(w, n - 1, scripts(n - 1)), n - 1, scripts)
  }

  /** The first of the turns that are left, with the others still to come. */
  ghost function OneTurn(w: World, n: nat, scripts: Scripts): (w': World)
    requires n < |w.actors|
    ensures |w'.actors| == |w.actors| && w' == Turn(w, n, scripts(n))
    ensures Turns(w, n + 1, scripts) == Turns(w', n, scripts)
  {
    Turn(w, n, scripts(n))
  }

  function Tick(w: World, scripts: Scripts): (w': World)
    ensures |w'.actors| == |w.actors|
  {
    var w' := Turns(w, |w.actors|, scripts);
    w'.(ticks := w'.ticks + 1)
  }

  lemma {:induction false} SendsTakeNoTime(w: World, script: seq<SendOp>)
    ensures SendAll(w, script).ticks == w.ticks
    decreases script
  {
    if script != [] { SendsTakeNoTime(Send(w, script[0]), script[1..]); }
  }

  lemma {:induction false} TurnsTakeNoTime(w: World, n: nat, scripts: Scripts)
    requires n <= |w.actors|
    ensures Turns(w, n, scripts).ticks == w.ticks
    decreases n
  {
    if n > 0 {
      SendsTakeNoTime(w.(actors := w.actors[n - 1 := if Due(w.actors[n - 1]) then Take(w.actors[n - 1]) else w.actors[n - 1]]),
                      scripts(n - 1));
      TurnsTakeNoTime(Turn(w, n - 1, scripts(n - 1)), n - 1, scripts);
    }
  }

  /** The tick counter counts ticks. */
  lemma TicksCount(w: World, scripts: Scripts)
    ensures Tick(w, scripts).ticks == w.ticks + 1
  {
    TurnsTakeNoTime(w, |w.actors|, scripts);
  }

  /** Start sets every actor running. */
  function Start(w: World): (w': World)
    ensures |w'.actors| == |w.actors|
  {
    w.(actors := seq(|w.actors|, i requires 0 <= i < |w.actors| => w.actors[i].(state := Running)))
  }

  /** SetState covers stopping, crashing and every supervision strategy's restarts. */
  datatype Event =
    | New
    | Sends(op: SendOp)
    | Ticks(scripts: Scripts)
    | Starts
    | SetState(i: nat, state: ActorState)
    | SetLimit(i: nat, limit: nat)

  function Next(w: World, e: Event): World {
    match e
    case New => w.(actors := w.actors + [NewMailbox])
    case Sends(op) => Send(w, op)
    case Ticks(scripts) => Tick(w, scripts)
    case Starts => Start(w)
    case SetState(i, s) => if i < |w.actors| then w.(actors := w.actors[i := w.actors[i].(state := s)]) else w
    case SetLimit(i, n) =>
      if i < |w.actors| then w.(actors := w.actors[i := w.actors[i].(limit := if n > 0 then n else 65536)]) else w
  }

  const Empty := World([], 0, 0, 0)

  function Run(events: seq<Event>): World {
    if events == [] then Empty else Next(Run(events[..|events| - 1]), events[|events| - 1])
  }

  // ------------------------------------------------------------ the invariant

  /** Nothing lost, nothing repeated: ids count acceptances, and the seen list is exactly the handled ids. */
  ghost predicate MailboxOk(a: Mailbox) {
    && a.accepted == a.handled + a.queue
    && a.nextId == |a.accepted| + 1
    && (forall k :: 0 <= k < |a.accepted| ==> a.accepted[k].id == k + 1)
    && |a.seen| == |a.handled|
    && (forall k :: 0 <= k < |a.seen| ==> a.seen[k] == k + 1)
  }

  function TotalAccepted(actors: seq<Mailbox>): nat {
    if actors == [] then 0 else TotalAccepted(actors[..|actors| - 1]) + |actors[|actors| - 1].accepted|
  }

  function TotalHandled(actors: seq<Mailbox>): nat {
    if actors == [] then 0 else TotalHandled(actors[..|actors| - 1]) + |actors[|actors| - 1].handled|
  }

  function TotalQueued(actors: seq<Mailbox>): nat {
    if actors == [] then 0 else TotalQueued(actors[..|actors| - 1]) + |actors[|actors| - 1].queue|
  }

  ghost predicate Inv(w: World) {
    && (forall i :: 0 <= i < |w.actors| ==> MailboxOk(w.actors[i]))
    && w.sent == TotalAccepted(w.actors) && w.delivered == TotalHandled(w.actors)
  }

  lemma {:induction false} UpdateTotals(actors: seq<Mailbox>, i: nat, a: Mailbox)
    requires i < |actors|
    ensures TotalAccepted(actors[i := a]) == TotalAccepted(actors) - |actors[i].accepted| + |a.accepted|
    ensures TotalHandled(actors[i := a]) == TotalHandled(actors) - |actors[i].handled| + |a.handled|
    decreases |actors|
  {
    var n := |actors| - 1;
    if i < n {
      UpdateTotals(actors[..n], i, a);
      assert actors[i := a][..n] == actors[..n][i := a];
    } else {
      assert actors[i := a][..n] == actors[..n];
    }
  }

  lemma {:induction false} SameTotals(a: seq<Mailbox>, b: seq<Mailbox>)
    requires |a| == |b| && forall i :: 0 <= i < |a| ==> |a[i].accepted| == |b[i].accepted| && |a[i].handled| == |b[i].handled|
    ensures TotalAccepted(a) == TotalAccepted(b) && TotalHandled(a) == TotalHandled(b)
    decreases |a|
  {
    if a != [] { SameTotals(a[..|a| - 1], b[..|b| - 1]); }
  }

  /** In a sound mailbox the head was never delivered before: dedup has nothing to drop. */
  lemma NeverDuplicate(a: Mailbox)
    requires MailboxOk(a)
    ensures !Duplicate(a)
  {
    if a.queue != [] {
      assert a.accepted[|a.handled|] == a.queue[0];
    }
  }

  lemma AcceptKeeps(a: Mailbox, from: int, p: Payload)
    requires MailboxOk(a)
    ensures MailboxOk(Accept(a, from, p))
  {
    var m := Envelope(a.nextId, from, p);
    assert a.handled + (a.queue + [m]) == (a.handled + a.queue) + [m];
  }

  lemma TakeKeeps(a: Mailbox)
    requires MailboxOk(a) && a.queue != []
    ensures MailboxOk(Take(a)) && Take(a).accepted == a.accepted && Take(a).handled == a.handled + [a.queue[0]]
  {
    NeverDuplicate(a);
    assert a.accepted[|a.handled|] == a.queue[0];
    assert (a.handled + [a.queue[0]]) + a.queue[1..] == a.handled + a.queue;
  }

  lemma SendKeeps(w: World, op: SendOp)
    requires Inv(w)
    ensures Inv(Send(w, op))
  {
    if Verdict(w, op.to) == 0 {
      AcceptKeeps(w.actors[op.to], op.from, op.payload);
      UpdateTotals(w.actors, op.to, Accept(w.actors[op.to], op.from, op.payload));
    }
  }

  lemma {:induction false} SendAllKeeps(w: World, script: seq<SendOp>)
    requires Inv(w)
    ensures Inv(SendAll(w, script))
    decreases script
  {
    if script != [] {
      SendKeeps(w, script[0]);
      SendAllKeeps(Send(w, script[0]), script[1..]);
    }
  }

  lemma {:induction false} SendAllCounter(w: World, script: seq<SendOp>)
    ensures SendAll(w, script).(delivered := w.delivered + 1) == SendAll(w.(delivered := w.delivered + 1), script)
    ensures SendAll(w, script).delivered == w.delivered
    decreases script
  {
    if script != [] {
      SendAllCounter(Send(w, script[0]), script[1..]);
      assert Send(w.(delivered := w.delivered + 1), script[0])
             == Send(w, script[0]).(delivered := w.delivered + 1);
    }
  }

  lemma TurnKeeps(w: World, i: nat, script: seq<SendOp>)
    requires Inv(w) && i < |w.actors|
    ensures Inv(Turn(w, i, script))
  {
    var a := w.actors[i];
    if Due(a) {
      TakeKeeps(a);
      NeverDuplicate(a);
      var w1 := w.(actors := w.actors[i := Take(a)]);
      UpdateTotals(w.actors, i, Take(a));
      SendAllCounter(w1, script);
      SendAllKeeps(w1.(delivered := w1.delivered + 1), script);
    }
  }

  lemma {:induction false} TurnsKeep(w: World, n: nat, scripts: Scripts)
    requires Inv(w) && n <= |w.actors|
    ensures Inv(Turns(w, n, scripts))
    decreases n
  {
    if n > 0 {
      TurnKeeps(w, n - 1, scripts(n - 1));
      TurnsKeep(Turn(w, n - 1, scripts(n - 1)), n - 1, scripts);
    }
  }

  lemma NewKeeps(w: World)
    requires Inv(w)
    ensures Inv(Next(w, New))
  {
    var w' := Next(w, New);
    assert w'.actors[..|w'.actors| - 1] == w.actors;
  }

  /** Events that touch neither queues nor histories. */
  lemma QuietKeeps(w: World, w': World)
    requires Inv(w) && |w'.actors| == |w.actors| && w'.sent == w.sent && w'.delivered == w.delivered
    requires forall i :: 0 <= i < |w.actors| ==>
               w'.actors[i] == w.actors[i].(state := w'.actors[i].state, limit := w'.actors[i].limit)
    ensures Inv(w')
  {
    SameTotals(w.actors, w'.actors);
    forall i | 0 <= i < |w.actors| ensures MailboxOk(w'.actors[i]) {
      assert MailboxOk(w.actors[i]);
    }
  }

  lemma NextKeeps(w: World, e: Event)
    requires Inv(w)
    ensures Inv(Next(w, e))
  {
    match e {
      case New => NewKeeps(w);
      case Sends(op) => SendKeeps(w, op);
      case Ticks(scripts) => TurnsKeep(w, |w.actors|, scripts);
      case Starts => QuietKeeps(w, Start(w));
      case SetState(i, s) => QuietKeeps(w, Next(w, e));
      case SetLimit(i, n) => QuietKeeps(w, Next(w, e));
    }
  }

  /** Every run of actor creation, sends, ticks, starts, crashes, restarts and limit changes keeps the invariant. */
  lemma {:induction false} RunKeepsInv(events: seq<Event>)
    ensures Inv(Run(events))
    decreases |events|
  {
    if events != [] {
      RunKeepsInv(events[..|events| - 1]);
      NextKeeps(Run(events[..|events| - 1]), events[|events| - 1]);
    }
  }

  // ------------------------------------------------------------ what it means

  /**
   In every run each actor has been handed a prefix of what was accepted for it, in
   order, each message once, and the rest is in its mailbox; no message was ever taken
   for a duplicate.
   */
  lemma ExactlyOnceInOrder(events: seq<Event>, i: nat)
    requires i < |Run(events).actors|
    ensures var a := Run(events).actors[i];
            && a.handled <= a.accepted && a.accepted[|a.handled|..] == a.queue
            && !Duplicate(a)
            && forall j, k :: 0 <= j < k < |a.accepted| ==> a.accepted[j].id != a.accepted[k].id
  {
    RunKeepsInv(events);
    NeverDuplicate(Run(events).actors[i]);
  }

  // ------------------------------------------------------------ what was sent

  /** A send as its caller made it, with the answer it got. */
  datatype Attempt = Attempt(op: SendOp, code: int)

  /** What a handler sends, one after the other; an earlier send may fill the mailbox a later one finds. */
  function SentBy(w: World, script: seq<SendOp>): seq<Attempt>
    decreases script
  {
    if script == [] then []
    else [Attempt(script[0], Verdict(w, script[0].to))] + SentBy(Send(w, script[0]), script[1..])
  }

  /** What is sent in an actor's turn: its script, if it is handed a message. */
  function SentInTurn(w: World, i: nat, script: seq<SendOp>): seq<Attempt>
    requires i < |w.actors|
  {
    var a := w.actors[i];
    if a.queue == [] || a.state != Running || Duplicate(a) then []
    else SentBy(w.(actors := w.actors[i := Take(a)]), script)
  }

  /** What is sent in a tick, the newest actor first. */
  function SentInTurns(w: World, n: nat, scripts: Scripts): seq<Attempt>
    requires n <= |w.actors|
    decreases n
  {
    if n == 0 then []
    else
      SentInTurn(w, n - 1, scripts(n - 1)) + SentInTurns(Turn(w, n - 1, scripts(n - 1)), n - 1, scripts)
  }

  function SentIn(w: World, e: Event): seq<Attempt> {
    match e
    case Sends(op) => [Attempt(op, Verdict(w, op.to))]
    case Ticks(scripts) => SentInTurns(w, |w.actors|, scripts)
    case _ => []
  }

  /** Every send of a run in order, those of handlers included. */
  function Attempts(events: seq<Event>): seq<Attempt> {
    if events == [] then []
    else Attempts(events[..|events| - 1]) + SentIn(Run(events[..|events| - 1]), events[|events| - 1])
  }

  datatype Letter = Letter(from: int, payload: Payload)

  /** Sender and payload of the sends to `i` that were answered 0. */
  function Addressed(sends: seq<Attempt>, i: nat): seq<Letter> {
    if sends == [] then []
    else
      var s := sends[0];
      (if s.op.to == i && s.code == 0 then [Letter(s.op.from, s.op.payload)] else []) + Addressed(sends[1..], i)
  }

  /** What the messages say, and from whom. */
  function Letters(ms: seq<Envelope>): (r: seq<Letter>)
    ensures |r| == |ms|
  {
    seq(|ms|, k requires 0 <= k < |ms| => Letter(ms[k].from, ms[k].payload))
  }

  /** What actor `i` has accepted; nothing as long as there is no such actor. */
  function Got(w: World, i: nat): seq<Letter> {
    if i < |w.actors| then Letters(w.actors[i].accepted) else []
  }

  lemma {:induction false} AddressedConcat(a: seq<Attempt>, b: seq<Attempt>, i: nat)
    ensures Addressed(a + b, i) == Addressed(a, i) + Addressed(b, i)
  {
    if a == [] {
      assert a + b == b;
    } else {
      assert (a + b)[0] == a[0] && (a + b)[1..] == a[1..] + b;
      AddressedConcat(a[1..], b, i);
    }
  }

  lemma SendIsGot(w: World, op: SendOp, i: nat)
    ensures Got(Send(w, op), i) == Got(w, i) + Addressed([Attempt(op, Verdict(w, op.to))], i)
  {
    assert Addressed([Attempt(op, Verdict(w, op.to))][1..], i) == [];
  }

  lemma {:induction false} SentByIsGot(w: World, script: seq<SendOp>, i: nat)
    ensures Got(SendAll(w, script), i) == Got(w, i) + Addressed(SentBy(w, script), i)
    decreases script
  {
    if script != [] {
      SendIsGot(w, script[0], i);
      SentByIsGot(Send(w, script[0]), script[1..], i);
      AddressedConcat([Attempt(script[0], Verdict(w, script[0].to))], SentBy(Send(w, script[0]), script[1..]), i);
    }
  }

  lemma TurnIsGot(w: World, n: nat, script: seq<SendOp>, i: nat)
    requires n < |w.actors|
    ensures Got(Turn(w, n, script), i) == Got(w, i) + Addressed(SentInTurn(w, n, script), i)
  {
    var a := w.actors[n];
    if Due(a) && !Duplicate(a) { SentByIsGot(w.(actors := w.actors[n := Take(a)]), script, i); }
  }

  lemma {:induction false} TurnsAreGot(w: World, n: nat, scripts: Scripts, i: nat)
    requires n <= |w.actors|
    ensures Got(Turns(w, n, scripts), i) == Got(w, i) + Addressed(SentInTurns(w, n, scripts), i)
    decreases n
  {
    if n > 0 {
      var w' := Turn(w, n - 1, scripts(n - 1));
      TurnIsGot(w, n - 1, scripts(n - 1), i);
      TurnsAreGot(w', n - 1, scripts, i);
      AddressedConcat(SentInTurn(w, n - 1, scripts(n - 1)), SentInTurns(w', n - 1, scripts), i);
    }
  }

  lemma NextIsGot(w: World, e: Event, i: nat)
    ensures Got(Next(w, e), i) == Got(w, i) + Addressed(SentIn(w, e), i)
  {
    match e {
      case Sends(op) => SendIsGot(w, op, i);
      case Ticks(scripts) => TurnsAreGot(w, |w.actors|, scripts, i);
      case _ =>
    }
  }

  /**
   In every run: sender and payload of what an actor has accepted are, in order, those of
   the sends to it that were answered 0, by whomever and out of whatever handler; and what
   its behaviour was handed is a prefix of them.
   */
  lemma {:induction false} AcceptedIsSent(events: seq<Event>, i: nat)
    ensures Got(Run(events), i) == Addressed(Attempts(events), i)
    ensures i < |Run(events).actors| ==> Letters(Run(events).actors[i].handled) <= Addressed(Attempts(events), i)
    decreases |events|
  {
    if events != [] {
      var before := events[..|events| - 1];
      AcceptedIsSent(before, i);
      NextIsGot(Run(before), events[|events| - 1], i);
      AddressedConcat(Attempts(before), SentIn(Run(before), events[|events| - 1]), i);
    }
    if i < |Run(events).actors| {
      ExactlyOnceInOrder(events, i);
      var a := Run(events).actors[i];
      assert Letters(a.handled) == Letters(a.accepted)[..|a.handled|];
    }
  }

  lemma {:induction false} TotalsAddUp(actors: seq<Mailbox>)
    requires forall i :: 0 <= i < |actors| ==> MailboxOk(actors[i])
    ensures TotalAccepted(actors) == TotalHandled(actors) + TotalQueued(actors)
    decreases |actors|
  {
    if actors != [] { TotalsAddUp(actors[..|actors| - 1]); }
  }

  /** Conservation: the runtime's sent counter is its delivered counter plus what is queued. */
  lemma SentIsDeliveredPlusQueued(events: seq<Event>)
    ensures var w := Run(events); w.sent == w.delivered + TotalQueued(w.actors)
  {
    RunKeepsInv(events);
    TotalsAddUp(Run(events).actors);
  }

  // ------------------------------------------------------------ progress

  /** Later acceptances only extend what a mailbox holds. */
  ghost predicate Grown(a: Mailbox, b: Mailbox) {
    b.state == a.state && b.handled == a.handled && b.seen == a.seen && a.queue <= b.queue
  }

  lemma {:induction false} SendAllGrows(w: World, script: seq<SendOp>, i: nat)
    requires i < |w.actors|
    ensures Grown(w.actors[i], SendAll(w, script).actors[i])
    decreases script
  {
    if script != [] { SendAllGrows(Send(w, script[0]), script[1..], i); }
  }

  /** One turn: its own actor is handed the head of its mailbox, the others at most gain mail. */
  lemma TurnServes(w: World, n: nat, script: seq<SendOp>, i: nat)
    requires Inv(w) && n < |w.actors| && i < |w.actors|
    ensures var a, b := w.actors[i], Turn(w, n, script).actors[i];
            if i == n && Due(a) then b.state == Running && b.handled == a.handled + [a.queue[0]] && a.queue[1..] <= b.queue
            else Grown(a, b)
  {
    var a := w.actors[n];
    if Due(a) {
      TakeKeeps(a);
      NeverDuplicate(a);
      SendAllGrows(w.(actors := w.actors[n := Take(a)]), script, i);
    }
  }

  /** Turns of the others leave actor `i` what it had, and its own hands it the head of its mailbox. */
  lemma {:induction false} TurnsServe(w: World, n: nat, scripts: Scripts, i: nat)
    requires Inv(w) && n <= |w.actors| && i < |w.actors|
    ensures var a, b := w.actors[i], Turns(w, n, scripts).actors[i];
            if i < n && Due(a) then b.state == Running && b.handled == a.handled + [a.queue[0]] && a.queue[1..] <= b.queue
            else if i < n then b.state == a.state && (a.state != Running ==> b.handled == a.handled) && a.handled <= b.handled
            else Grown(a, b)
    decreases n
  {
    if n > 0 {
      var w' := Turn(w, n - 1, scripts(n - 1));
      TurnKeeps(w, n - 1, scripts(n - 1));
      TurnServes(w, n - 1, scripts(n - 1), i);
      TurnsServe(w', n - 1, scripts, i);
    }
  }

  /** A run of ticks and nothing else from `w`. */
  function TickRun(w: World, ticks: seq<Scripts>): World
    decreases |ticks|
  {
    if ticks == [] then w else TickRun(Tick(w, ticks[0]), ticks[1..])
  }

  /** `n` ticks hand a running actor the first `n` messages of its mailbox, whatever anyone sends meanwhile. */
  lemma {:induction false} TicksDrain(w: World, ticks: seq<Scripts>, i: nat)
    requires Inv(w) && i < |w.actors| && w.actors[i].state == Running && |ticks| <= |w.actors[i].queue|
    ensures i < |TickRun(w, ticks).actors|
    ensures TickRun(w, ticks).actors[i].handled == w.actors[i].handled + w.actors[i].queue[..|ticks|]
    decreases |ticks|
  {
    if ticks != [] {
      var a := w.actors[i];
      var w' := Tick(w, ticks[0]);
      TurnsServe(w, |w.actors|, ticks[0], i);
      TurnsKeep(w, |w.actors|, ticks[0]);
      TicksDrain(w', ticks[1..], i);
      var b := w'.actors[i];
      assert b.queue[..|ticks| - 1] == a.queue[1..][..|ticks| - 1];
      assert a.queue[..|ticks|] == [a.queue[0]] + a.queue[1..][..|ticks| - 1];
    }
  }

  /** A stopped, stopping, crashed or restarting actor accepts nothing and says which way it failed. */
  lemma RefusalCodes(w: World, op: SendOp)
    ensures Send(w, op) == w <==> Verdict(w, op.to) != 0
    ensures Verdict(w, op.to) == -1 <==> !(0 <= op.to < |w.actors|)
    ensures Verdict(w, op.to) == -7 <==> 0 <= op.to < |w.actors| && w.actors[op.to].state == Crashed
    ensures Verdict(w, op.to) == -2 <==>
              0 <= op.to < |w.actors| && w.actors[op.to].state in {Stopping, Stopped, Restarting}
    ensures Verdict(w, op.to) == -3 <==> 0 <= op.to < |w.actors| && |w.actors[op.to].queue| >= w.actors[op.to].limit
                                         && (w.actors[op.to].state == Running || w.actors[op.to].state == Init)
  {
  }
}
