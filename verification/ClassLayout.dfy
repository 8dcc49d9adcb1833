/** Function indices of class methods, recorded by one traversal and filled by another. */
module ClassLayout {

  // The collector records an index for each method before any code exists, the emitter
  // later appends bodies by its own traversal; calls are right only if the two agree.

  const IMPORTS: nat := 14
  const RUNTIME_BODIES: nat := 22
  const BASE: nat := IMPORTS + RUNTIME_BODIES
  const MAX_CLASSES: nat := 16
  const MAX_METHODS: nat := 64

  datatype Kind = FieldDecl | Fun | New | Be | OtherMember

  datatype Member = Member(kind: Kind, name: string)

  datatype Top = Actor(name: string, members: seq<Member>) | OtherTop

  datatype Method = Method(name: string, isCtor: bool, fn: nat)

  datatype Class = Class(name: string, methods: seq<Method>)

  /** An emitted body: which table entry it is compiled for, and the actor and member it comes from. */
  datatype Body = Body(ci: nat, mi: nat, owner: string, name: string)

  /** Table names hold 63 characters. */
  function Stored(x: string): (r: string)
    ensures |r| <= 63
    ensures r == x <==> |x| <= 63
  {
    if |x| <= 63 then x else x[..63]
  }

  predicate IsMethod(m: Member) {
    m.kind == Fun || m.kind == New || m.kind == Be
  }

  /** The entry point of the main actor is function 0 and in no table. */
  predicate IsEntry(isMain: bool, m: Member) {
    isMain && ((m.kind == Fun && m.name == "main") || (m.kind == New && m.name == "create"))
  }

  // ------------------------------------------------------------ the two traversals

  function Collect(members: seq<Member>, isMain: bool, fn: nat, taken: nat): seq<Method> {
    if members == [] then []
    else
      var m := members[0];
      if !IsEntry(isMain, m) && IsMethod(m) && taken < MAX_METHODS
      then [Method(Stored(m.name), m.kind == New, fn)] + Collect(members[1..], isMain, fn + 1, taken + 1)
      else Collect(members[1..], isMain, fn, taken)
  }

  function CollectAll(tops: seq<Top>, fn: nat, room: nat): seq<Class> {
    if tops == [] || room == 0 then []
    else
      match tops[0]
      case OtherTop => CollectAll(tops[1..], fn, room)
      case Actor(name, members) =>
        var ms := Collect(members, name == "main", fn, 0);
        [Class(Stored(name), ms)] + CollectAll(tops[1..], fn + |ms|, room - 1)
  }

  function Bodies(owner: string, members: seq<Member>, ci: nat, mi: nat, n: nat): seq<Body> {
    if members == [] || mi >= n then []
    else
      var m := members[0];
      if !IsMethod(m) || IsEntry(owner == "main", m) then Bodies(owner, members[1..], ci, mi, n)
      else [Body(ci, mi, owner, m.name)] + Bodies(owner, members[1..], ci, mi + 1, n)
  }

  /** The first class of that name, or the number of classes. */
  function FindClass(classes: seq<Class>, name: string): (i: nat)
    ensures i <= |classes|
    ensures i < |classes| ==> classes[i].name == name
    ensures forall k :: 0 <= k < i ==> classes[k].name != name
  {
    if classes == [] || classes[0].name == name then 0
    else
      var i := FindClass(classes[1..], name);
      assert forall k :: 1 <= k < i + 1 ==> classes[k] == classes[1..][k - 1];
      i + 1
  }

  /** The bodies of one actor, compiled for the class its name finds. */
  function BodiesOf(name: string, members: seq<Member>, classes: seq<Class>): seq<Body> {
    var ci := FindClass(classes, name);
    if ci == |classes| then [] else Bodies(name, members, ci, 0, |classes[ci].methods|)
  }

  function BodiesAll(tops: seq<Top>, classes: seq<Class>): seq<Body> {
    if tops == [] then []
    else
      (match tops[0] case OtherTop => [] case Actor(name, members) => BodiesOf(name, members, classes))
      + BodiesAll(tops[1..], classes)
  }

  /** What the section headers count. */
  function MethodCount(classes: seq<Class>): nat {
    if classes == [] then 0 else |classes[0].methods| + MethodCount(classes[1..])
  }

  // ------------------------------------------------------------ agreement inside a class

  /** Method `j` of the table is the `j`-th body, with consecutive indices. */
  ghost predicate Agree(ms: seq<Method>, bs: seq<Body>, owner: string, ci: nat, mi: nat, fn: nat) {
    |bs| == |ms| && forall j :: 0 <= j < |ms| ==>
      && bs[j].ci == ci && bs[j].mi == mi + j && bs[j].owner == owner
      && ms[j].fn == fn + j && ms[j].name == Stored(bs[j].name)
  }

  lemma AgreeCons(m: Method, b: Body, ms: seq<Method>, bs: seq<Body>, owner: string, ci: nat, mi: nat, fn: nat)
    requires Agree(ms, bs, owner, ci, mi + 1, fn + 1)
    requires b.ci == ci && b.mi == mi && b.owner == owner && m.fn == fn && m.name == Stored(b.name)
    ensures Agree([m] + ms, [b] + bs, owner, ci, mi, fn)
  {
  }

  lemma {:induction false} ClassAgrees(owner: string, members: seq<Member>, ci: nat, fn: nat, taken: nat)
    ensures var ms := Collect(members, owner == "main", fn, taken);
            Agree(ms, Bodies(owner, members, ci, taken, taken + |ms|), owner, ci, taken, fn)
    decreases |members|
  {
    if members != [] {
      var m, isMain := members[0], owner == "main";
      if !IsEntry(isMain, m) && IsMethod(m) && taken < MAX_METHODS {
        ClassAgrees(owner, members[1..], ci, fn + 1, taken + 1);
        var rest := Collect(members[1..], isMain, fn + 1, taken + 1);
        AgreeCons(Method(Stored(m.name), m.kind == New, fn), Body(ci, taken, owner, m.name), rest,
                  Bodies(owner, members[1..], ci, taken + 1, taken + 1 + |rest|), owner, ci, taken, fn);
      } else {
        ClassAgrees(owner, members[1..], ci, fn, taken);
        if IsMethod(m) && !IsEntry(isMain, m) { Full(members, isMain, fn, taken); }
      }
    }
  }

  lemma {:induction false} Full(members: seq<Member>, isMain: bool, fn: nat, taken: nat)
    requires taken >= MAX_METHODS
    ensures Collect(members, isMain, fn, taken) == []
  {
    if members != [] { Full(members[1..], isMain, fn, taken); }
  }

  // ------------------------------------------------------------ what a program declares

  type ActorDecl = t: Top | t.Actor? witness Actor("", [])

  function Actors(tops: seq<Top>): seq<ActorDecl> {
    if tops == [] then []
    else (if tops[0].Actor? then [tops[0]] else []) + Actors(tops[1..])
  }

  function Methods(members: seq<Member>, isMain: bool): nat {
    if members == [] then 0
    else (if IsMethod(members[0]) && !IsEntry(isMain, members[0]) then 1 else 0) + Methods(members[1..], isMain)
  }

  function Min(a: nat, b: nat): nat { if a <= b then a else b }

  /** The methods an actor declares, the entry point excepted. */
  function Declared(a: ActorDecl): nat { Methods(a.members, a.name == "main") }

  /** How many of them the table records. */
  function Recorded(a: ActorDecl): nat { Min(Declared(a), MAX_METHODS) }

  /** How many actors the table records. */
  function Classes(actors: seq<ActorDecl>): nat { Min(|actors|, MAX_CLASSES) }

  /** The methods recorded before those of actor `k`. */
  function Offset(actors: seq<ActorDecl>, k: nat): nat
    requires k <= |actors|
  {
    if k == 0 then 0 else Offset(actors, k - 1) + Recorded(actors[k - 1])
  }

  /** The first recorded actor, from `j` on, whose stored name is `name`. */
  function Home(actors: seq<ActorDecl>, name: string, j: nat): (h: nat)
    requires j <= Classes(actors)
    ensures h <= Classes(actors)
    ensures h < Classes(actors) ==> Stored(actors[h].name) == name
    ensures forall i :: j <= i < h ==> Stored(actors[i].name) != name
    decreases Classes(actors) - j
  {
    if j == Classes(actors) || Stored(actors[j].name) == name then j else Home(actors, name, j + 1)
  }

  /** The methods recorded for the class that actor `k` is compiled for. */
  function Served(actors: seq<ActorDecl>, k: nat): nat
    requires k < |actors|
  {
    var h := Home(actors, actors[k].name, 0);
    if h == Classes(actors) then 0 else Recorded(actors[h])
  }

  /**
   Actor `k` is compiled for its own entry, or has nothing to be compiled: a recorded
   actor is the first of its name, one behind the 16th finds no entry to be compiled for.
   */
  predicate InPlace(actors: seq<ActorDecl>, k: nat)
    requires k < |actors|
  {
    if k < Classes(actors)
    then Recorded(actors[k]) == 0 || Home(actors, actors[k].name, 0) == k
    else Declared(actors[k]) == 0 || Served(actors, k) == 0
  }

  /** A body that comes from the actor and the method recorded with that index. */
  predicate RightAt(actors: seq<ActorDecl>, classes: seq<Class>, b: Body, fn: nat)
    requires |classes| <= |actors|
  {
    && b.ci < |classes| && b.mi < |classes[b.ci].methods|
    && classes[b.ci].methods[b.mi].fn == fn
    && classes[b.ci].methods[b.mi].name == Stored(b.name)
    && actors[b.ci].name == b.owner
  }

  /** As many bodies as were counted, each right at its index. */
  ghost predicate Laid(actors: seq<ActorDecl>, classes: seq<Class>, bs: seq<Body>, fn: nat, count: nat)
    requires |classes| <= |actors|
  {
    |bs| == count && forall p :: 0 <= p < |bs| ==> RightAt(actors, classes, bs[p], fn + p)
  }

  // ------------------------------------------------------------ the table, class by class

  lemma ActorsStep(tops: seq<Top>)
    requires tops != []
    ensures tops[0].OtherTop? ==> Actors(tops) == Actors(tops[1..])
    ensures tops[0].Actor? ==> Actors(tops) != [] && Actors(tops)[0] == tops[0] && Actors(tops)[1..] == Actors(tops[1..])
  {
  }

  /** Other declarations make no difference to the collector ... */
  lemma {:induction false} CollectsActors(tops: seq<Top>, fn: nat, room: nat)
    ensures CollectAll(tops, fn, room) == CollectAll(Actors(tops), fn, room)
    decreases |tops|
  {
    if tops != [] {
      ActorsStep(tops);
      match tops[0] {
        case OtherTop => CollectsActors(tops[1..], fn, room);
        case Actor(name, members) =>
          if room > 0 { CollectsActors(tops[1..], fn + |Collect(members, name == "main", fn, 0)|, room - 1); }
      }
    }
  }

  /** ... nor to the emitter. */
  lemma {:induction false} EmitsActors(tops: seq<Top>, classes: seq<Class>)
    ensures BodiesAll(tops, classes) == BodiesAll(Actors(tops), classes)
    decreases |tops|
  {
    if tops != [] {
      ActorsStep(tops);
      EmitsActors(tops[1..], classes);
    }
  }

  lemma {:induction false} CollectCounts(members: seq<Member>, isMain: bool, fn: nat, taken: nat)
    requires taken <= MAX_METHODS
    ensures |Collect(members, isMain, fn, taken)| == Min(Methods(members, isMain), MAX_METHODS - taken)
    ensures forall j :: 0 <= j < |Collect(members, isMain, fn, taken)| ==> Collect(members, isMain, fn, taken)[j].fn == fn + j
    decreases |members|
  {
    if members != [] {
      var m := members[0];
      if !IsEntry(isMain, m) && IsMethod(m) && taken < MAX_METHODS {
        CollectCounts(members[1..], isMain, fn + 1, taken + 1);
      } else {
        CollectCounts(members[1..], isMain, fn, taken);
      }
    }
  }

  lemma {:induction false} BodiesCount(owner: string, members: seq<Member>, ci: nat, mi: nat, n: nat)
    requires mi <= n
    ensures |Bodies(owner, members, ci, mi, n)| == Min(Methods(members, owner == "main"), n - mi)
    ensures forall b :: b in Bodies(owner, members, ci, mi, n) ==> b.ci == ci && b.owner == owner
    decreases |members|
  {
    if members != [] && mi < n {
      if IsMethod(members[0]) && !IsEntry(owner == "main", members[0]) {
        BodiesCount(owner, members[1..], ci, mi + 1, n);
      } else {
        BodiesCount(owner, members[1..], ci, mi, n);
      }
    }
  }

  function ClassOf(actors: seq<ActorDecl>, k: nat): Class
    requires k < |actors|
  {
    var a := actors[k];
    Class(Stored(a.name), Collect(a.members, a.name == "main", BASE + Offset(actors, k), 0))
  }

  /** The table of a program, entry by entry. */
  function Table(actors: seq<ActorDecl>): (r: seq<Class>)
    ensures |r| == Classes(actors)
    ensures forall k :: 0 <= k < |r| ==> r[k] == ClassOf(actors, k)
  {
    seq(Classes(actors), k requires 0 <= k < Classes(actors) => ClassOf(actors, k))
  }

  lemma RecordedMethods(actors: seq<ActorDecl>, k: nat)
    requires k < |actors|
    ensures |ClassOf(actors, k).methods| == Recorded(actors[k])
    ensures forall j :: 0 <= j < Recorded(actors[k]) ==> ClassOf(actors, k).methods[j].fn == BASE + Offset(actors, k) + j
  {
    CollectCounts(actors[k].members, actors[k].name == "main", BASE + Offset(actors, k), 0);
  }

  lemma {:induction false} CollectedFrom(actors: seq<ActorDecl>, k: nat)
    requires k <= Classes(actors)
    ensures CollectAll(actors[k..], BASE + Offset(actors, k), MAX_CLASSES - k) == Table(actors)[k..]
    decreases |actors| - k
  {
    if k < Classes(actors) {
      CollectedFrom(actors, k + 1);
      CollectStep(actors, k);
      assert Table(actors)[k..] == [ClassOf(actors, k)] + Table(actors)[k + 1..];
    }
  }

  lemma CollectStep(actors: seq<ActorDecl>, k: nat)
    requires k < Classes(actors)
    ensures CollectAll(actors[k..], BASE + Offset(actors, k), MAX_CLASSES - k)
            == [ClassOf(actors, k)] + CollectAll(actors[k + 1..], BASE + Offset(actors, k + 1), MAX_CLASSES - (k + 1))
  {
    RecordedMethods(actors, k);
    assert actors[k..][0] == actors[k] && actors[k..][1..] == actors[k + 1..];
  }

  lemma {:induction false} CountedFrom(actors: seq<ActorDecl>, k: nat)
    requires k <= Classes(actors)
    ensures MethodCount(Table(actors)[k..]) == Offset(actors, Classes(actors)) - Offset(actors, k)
    decreases |actors| - k
  {
    if k < Classes(actors) {
      CountedFrom(actors, k + 1);
      RecordedMethods(actors, k);
      var t := Table(actors)[k..];
      assert t[0] == ClassOf(actors, k) && t[1..] == Table(actors)[k + 1..];
    }
  }

  /** Looking a name up in the table is looking for its home. */
  lemma FoundAtHome(actors: seq<ActorDecl>, name: string)
    ensures FindClass(Table(actors), name) == Home(actors, name, 0)
  {
    var i, h := FindClass(Table(actors), name), Home(actors, name, 0);
    assert i < |Table(actors)| ==> Table(actors)[i].name == Stored(actors[i].name);
    assert h < |Table(actors)| ==> Table(actors)[h].name == name;
  }

  /** How many bodies actor `k` brings, and what they say of themselves. */
  lemma BroughtBy(actors: seq<ActorDecl>, k: nat)
    requires k < |actors|
    ensures var own := BodiesOf(actors[k].name, actors[k].members, Table(actors));
            && |own| == Min(Declared(actors[k]), Served(actors, k))
            && forall b :: b in own ==> b.owner == actors[k].name && b.ci == Home(actors, actors[k].name, 0)
  {
    var h := Home(actors, actors[k].name, 0);
    FoundAtHome(actors, actors[k].name);
    if h < Classes(actors) {
      RecordedMethods(actors, h);
      BodiesCount(actors[k].name, actors[k].members, h, 0, Recorded(actors[h]));
    }
  }

  lemma BodiesBehind(actors: seq<ActorDecl>, k: nat)
    requires k < |actors|
    ensures BodiesAll(actors[k..], Table(actors))
            == BodiesOf(actors[k].name, actors[k].members, Table(actors)) + BodiesAll(actors[k + 1..], Table(actors))
  {
    assert actors[k..][0] == actors[k] && actors[k..][1..] == actors[k + 1..];
  }

  /** Every body is compiled for the home of its owner's name. */
  lemma {:induction false} BodiesAtHome(actors: seq<ActorDecl>, k: nat)
    requires k <= |actors|
    ensures forall b :: b in BodiesAll(actors[k..], Table(actors)) ==> b.ci == Home(actors, b.owner, 0)
    decreases |actors| - k
  {
    if k < |actors| {
      BodiesAtHome(actors, k + 1);
      BodiesBehind(actors, k);
      BroughtBy(actors, k);
    }
  }

  lemma {:induction false} OffsetGrows(actors: seq<ActorDecl>, i: nat, j: nat)
    requires i <= j <= |actors|
    ensures Offset(actors, i) <= Offset(actors, j)
    ensures i < j ==> Offset(actors, i) + Recorded(actors[i]) <= Offset(actors, j)
    decreases j - i
  {
    if i < j { OffsetGrows(actors, i, j - 1); }
  }

  // ------------------------------------------------------------ agreement of whole programs

  /** The bodies of the actors from `k` on are laid out behind those before. */
  ghost predicate LaidFrom(actors: seq<ActorDecl>, k: nat)
    requires k <= |actors|
  {
    var c := Min(k, Classes(actors));
    OffsetGrows(actors, c, Classes(actors));
    Laid(actors, Table(actors), BodiesAll(actors[k..], Table(actors)), BASE + Offset(actors, c),
         Offset(actors, Classes(actors)) - Offset(actors, c))
  }

  lemma {:induction false} LaidFromIff(actors: seq<ActorDecl>, k: nat)
    requires k <= |actors|
    ensures LaidFrom(actors, k) <==> RestInPlace(actors, k)
    decreases |actors| - k
  {
    if k < |actors| {
      LaidFromIff(actors, k + 1);
      LaidStep(actors, k);
      OneMoreInPlace(actors, k);
    }
  }

  /** All actors from `k` on are in place. */
  ghost predicate RestInPlace(actors: seq<ActorDecl>, k: nat) {
    forall i :: k <= i < |actors| ==> InPlace(actors, i)
  }

  lemma OneMoreInPlace(actors: seq<ActorDecl>, k: nat)
    requires k < |actors|
    ensures RestInPlace(actors, k) <==> InPlace(actors, k) && RestInPlace(actors, k + 1)
  {
  }

  lemma LaidStep(actors: seq<ActorDecl>, k: nat)
    requires k < |actors|
    ensures LaidFrom(actors, k) <==> InPlace(actors, k) && LaidFrom(actors, k + 1)
  {
    if InPlace(actors, k) { InPlaceStep(actors, k); } else { OutOfPlace(actors, k); }
  }

  /** An actor in place brings exactly its own bodies, right behind those before. */
  lemma InPlaceStep(actors: seq<ActorDecl>, k: nat)
    requires k < |actors| && InPlace(actors, k)
    ensures LaidFrom(actors, k) <==> LaidFrom(actors, k + 1)
  {
    BodiesBehind(actors, k);
    BroughtBy(actors, k);
    if Min(Declared(actors[k]), Served(actors, k)) == 0 {
      BringsNothing(actors, k);
    } else {
      BringsItsOwn(actors, k);
    }
  }

  lemma BringsNothing(actors: seq<ActorDecl>, k: nat)
    requires k < |actors| && InPlace(actors, k) && Min(Declared(actors[k]), Served(actors, k)) == 0
    requires BodiesAll(actors[k..], Table(actors)) == [] + BodiesAll(actors[k + 1..], Table(actors))
    ensures LaidFrom(actors, k) <==> LaidFrom(actors, k + 1)
  {
    var rest := BodiesAll(actors[k + 1..], Table(actors));
    assert [] + rest == rest;
    assert k < Classes(actors) ==> Offset(actors, k + 1) == Offset(actors, k);
  }

  lemma BringsItsOwn(actors: seq<ActorDecl>, k: nat)
    requires k < Classes(actors) && Home(actors, actors[k].name, 0) == k
    requires var own := BodiesOf(actors[k].name, actors[k].members, Table(actors));
             BodiesAll(actors[k..], Table(actors)) == own + BodiesAll(actors[k + 1..], Table(actors))
    ensures LaidFrom(actors, k) <==> LaidFrom(actors, k + 1)
  {
    var t, c := Table(actors), Classes(actors);
    var own, rest := BodiesOf(actors[k].name, actors[k].members, t), BodiesAll(actors[k + 1..], t);
    OwnAgrees(actors, k);
    OffsetGrows(actors, k + 1, c);
    var fn, left := BASE + Offset(actors, k), Offset(actors, c) - Offset(actors, k + 1);
    JoinLaid(actors, t, own, rest, k, fn, left);
    assert LaidFrom(actors, k) <==> Laid(actors, t, own + rest, fn, |own| + left);
    assert LaidFrom(actors, k + 1) <==> Laid(actors, t, rest, fn + |own|, left);
  }

  lemma OwnAgrees(actors: seq<ActorDecl>, k: nat)
    requires k < Classes(actors) && Home(actors, actors[k].name, 0) == k
    ensures var own := BodiesOf(actors[k].name, actors[k].members, Table(actors));
            Agree(Table(actors)[k].methods, own, actors[k].name, k, 0, BASE + Offset(actors, k))
            && |own| == Recorded(actors[k])
  {
    FoundAtHome(actors, actors[k].name);
    RecordedMethods(actors, k);
    ClassAgrees(actors[k].name, actors[k].members, k, BASE + Offset(actors, k), 0);
  }

  lemma JoinLaid(actors: seq<ActorDecl>, classes: seq<Class>, own: seq<Body>, rest: seq<Body>, k: nat, fn: nat, count: nat)
    requires k < |classes| <= |actors| && Agree(classes[k].methods, own, actors[k].name, k, 0, fn)
    ensures Laid(actors, classes, own + rest, fn, |own| + count)
            <==> Laid(actors, classes, rest, fn + |own|, count)
  {
    AgreeIsRight(actors, classes, own, k, fn);
    RightBehind(actors, classes, own, rest, fn);
  }

  lemma AgreeIsRight(actors: seq<ActorDecl>, classes: seq<Class>, own: seq<Body>, k: nat, fn: nat)
    requires k < |classes| <= |actors| && Agree(classes[k].methods, own, actors[k].name, k, 0, fn)
    ensures forall p :: 0 <= p < |own| ==> RightAt(actors, classes, own[p], fn + p)
  {
  }

  lemma RightBehind(actors: seq<ActorDecl>, classes: seq<Class>, own: seq<Body>, rest: seq<Body>, fn: nat)
    requires |classes| <= |actors| && forall p :: 0 <= p < |own| ==> RightAt(actors, classes, own[p], fn + p)
    ensures (forall p :: 0 <= p < |own + rest| ==> RightAt(actors, classes, (own + rest)[p], fn + p))
            <==> (forall p :: 0 <= p < |rest| ==> RightAt(actors, classes, rest[p], fn + |own| + p))
  {
    var bs := own + rest;
    if forall p :: 0 <= p < |bs| ==> RightAt(actors, classes, bs[p], fn + p) {
      forall p | 0 <= p < |rest| ensures RightAt(actors, classes, rest[p], fn + |own| + p) {
        assert RightAt(actors, classes, bs[|own| + p], fn + (|own| + p));
      }
    }
  }

  /** One out of place leaves a wrong body at its index, or too many bodies. */
  lemma OutOfPlace(actors: seq<ActorDecl>, k: nat)
    requires k < |actors| && !InPlace(actors, k)
    ensures !LaidFrom(actors, k)
  {
    var n, t := Classes(actors), Table(actors);
    BodiesBehind(actors, k);
    BroughtBy(actors, k);
    if k < n && LaidFrom(actors, k) {
      OffsetGrows(actors, k, n);
      BodiesAtHome(actors, k);
      var b := BodiesAll(actors[k..], t)[0];
      RecordedMethods(actors, b.ci);
      SameIndexSameClass(actors, b.ci, b.mi, k);
      assert false;
    }
  }

  lemma SameIndexSameClass(actors: seq<ActorDecl>, c: nat, j: nat, k: nat)
    requires c < |actors| && k < |actors| && j < Recorded(actors[c]) && Recorded(actors[k]) > 0
    requires Offset(actors, c) + j == Offset(actors, k)
    ensures c == k
  {
    if c < k { OffsetGrows(actors, c, k); } else { OffsetGrows(actors, k, c); }
  }

  /**
   The emitted module is laid out as recorded, for every program: as many bodies as the
   function section declares, each from the actor and method whose recorded index it has,
   if and only if every actor is in place.
   */
  lemma LayoutAgreesIff(tops: seq<Top>)
    ensures var actors, classes := Actors(tops), CollectAll(tops, BASE, MAX_CLASSES);
            && |classes| <= |actors|
            && (Laid(actors, classes, BodiesAll(tops, classes), BASE, MethodCount(classes))
                <==> forall k :: 0 <= k < |actors| ==> InPlace(actors, k))
  {
    WholeTable(tops);
    LaidFromIff(Actors(tops), 0);
    LaidFromStart(Actors(tops));
  }

  lemma LaidFromStart(actors: seq<ActorDecl>)
    ensures LaidFrom(actors, 0) <==>
            Laid(actors, Table(actors), BodiesAll(actors[0..], Table(actors)), BASE, Offset(actors, Classes(actors)))
  {
  }

  lemma WholeTable(tops: seq<Top>)
    ensures var actors := Actors(tops);
            && CollectAll(tops, BASE, MAX_CLASSES) == Table(actors)
            && BodiesAll(tops, Table(actors)) == BodiesAll(actors[0..], Table(actors))
            && MethodCount(Table(actors)) == Offset(actors, Classes(actors))
  {
    var actors := Actors(tops);
    CollectsActors(tops, BASE, MAX_CLASSES);
    EmitsActors(tops, Table(actors));
    assert actors[0..] == actors;
    WholeActors(actors);
  }

  lemma WholeActors(actors: seq<ActorDecl>)
    ensures CollectAll(actors, BASE, MAX_CLASSES) == Table(actors)
    ensures MethodCount(Table(actors)) == Offset(actors, Classes(actors))
  {
    CollectedFrom(actors, 0);
    CountedFrom(actors, 0);
    assert actors[0..] == actors && Table(actors)[0..] == Table(actors);
  }

  /** Bodies the recorded actors fall short by. */
  function Missing(actors: seq<ActorDecl>, k: nat): nat
    requires k <= Classes(actors)
    decreases Classes(actors) - k
  {
    if k == Classes(actors) then 0
    else Recorded(actors[k]) - Min(Recorded(actors[k]), Served(actors, k)) + Missing(actors, k + 1)
  }

  /** Bodies that actors behind the 16th add under a recorded name. */
  function Extra(actors: seq<ActorDecl>, k: nat): nat
    requires Classes(actors) <= k <= |actors|
    decreases |actors| - k
  {
    if k == |actors| then 0 else Min(Declared(actors[k]), Served(actors, k)) + Extra(actors, k + 1)
  }

  lemma {:induction false} ExtraBodies(actors: seq<ActorDecl>, k: nat)
    requires Classes(actors) <= k <= |actors|
    ensures |BodiesAll(actors[k..], Table(actors))| == Extra(actors, k)
    decreases |actors| - k
  {
    if k < |actors| {
      ExtraBodies(actors, k + 1);
      BodiesBehind(actors, k);
      BroughtBy(actors, k);
    }
  }

  lemma {:induction false} BodiesFrom(actors: seq<ActorDecl>, k: nat)
    requires k <= Classes(actors)
    ensures |BodiesAll(actors[k..], Table(actors))| + Missing(actors, k) + Offset(actors, k)
            == Offset(actors, Classes(actors)) + Extra(actors, Classes(actors))
    decreases Classes(actors) - k
  {
    if k == Classes(actors) {
      ExtraBodies(actors, k);
    } else {
      BodiesFrom(actors, k + 1);
      BodiesBehind(actors, k);
      BroughtBy(actors, k);
    }
  }

  lemma {:induction false} NothingMissing(actors: seq<ActorDecl>, k: nat)
    requires k <= Classes(actors)
    ensures Missing(actors, k) == 0 <==> forall i :: k <= i < Classes(actors) ==> Recorded(actors[i]) <= Served(actors, i)
    decreases Classes(actors) - k
  {
    if k < Classes(actors) { NothingMissing(actors, k + 1); }
  }

  /**
   Declared and emitted functions are equally many if and only if what recorded actors
   lose to an earlier actor of their name is what later ones add; up to 16 actors, if and
   only if no actor records more methods than the first of its name.
   */
  lemma CountsAgreeIff(tops: seq<Top>)
    ensures var actors, classes := Actors(tops), CollectAll(tops, BASE, MAX_CLASSES);
            var agree := |BodiesAll(tops, classes)| == MethodCount(classes);
            && (agree <==> Missing(actors, 0) == Extra(actors, Classes(actors)))
            && (|actors| <= MAX_CLASSES ==>
                  (agree <==> forall k :: 0 <= k < |actors| ==> Recorded(actors[k]) <= Served(actors, k)))
  {
    var actors := Actors(tops);
    WholeTable(tops);
    BodiesFrom(actors, 0);
    NothingMissing(actors, 0);
  }

  /** Names that fit and differ are enough. */
  lemma DistinctNamesAreLaidOut(tops: seq<Top>)
    requires var actors := Actors(tops);
             && (forall i :: 0 <= i < |actors| ==> |actors[i].name| <= 63)
             && (forall i, j :: 0 <= i < j < |actors| ==> actors[i].name != actors[j].name)
    ensures var classes := CollectAll(tops, BASE, MAX_CLASSES);
            && |classes| <= |Actors(tops)|
            && Laid(Actors(tops), classes, BodiesAll(tops, classes), BASE, MethodCount(classes))
  {
    var actors := Actors(tops);
    LayoutAgreesIff(tops);
    forall k | 0 <= k < |actors| ensures InPlace(actors, k) {
      var h := Home(actors, actors[k].name, 0);
      assert h < Classes(actors) ==> actors[h].name == actors[k].name;
    }
  }

  // ------------------------------------------------------------ which members these are

  /** `ps` lists, in order, the first `max` of the positions below `n` that are wanted: each of them, and no other. */
  ghost predicate Picks(ps: seq<nat>, n: nat, max: nat, wanted: nat -> bool) {
    && |ps| <= max
    && (forall j :: 0 <= j < |ps| ==> ps[j] < n && wanted(ps[j]))
    && (forall i, j :: 0 <= i < j < |ps| ==> ps[i] < ps[j])
    && (forall q :: 0 <= q < n && wanted(q) ==> q in ps || (|ps| == max && forall j :: 0 <= j < |ps| ==> ps[j] < q))
  }

  predicate Taken(members: seq<Member>, isMain: bool, q: nat) {
    q < |members| && IsMethod(members[q]) && !IsEntry(isMain, members[q])
  }

  /** The positions the member loop records from `p` on. */
  function Positions(members: seq<Member>, isMain: bool, p: nat, taken: nat): seq<nat>
    requires p <= |members|
    decreases |members| - p
  {
    if p == |members| then []
    else if Taken(members, isMain, p) && taken < MAX_METHODS then [p] + Positions(members, isMain, p + 1, taken + 1)
    else Positions(members, isMain, p + 1, taken)
  }

  /** With `taken` recorded before, `ps` are the positions recorded from `p` on. */
  ghost predicate PickedFrom(members: seq<Member>, isMain: bool, p: nat, taken: nat, ps: seq<nat>) {
    && |ps| + taken <= MAX_METHODS
    && (forall j :: 0 <= j < |ps| ==> p <= ps[j] < |members| && Taken(members, isMain, ps[j]))
    && (forall i, j :: 0 <= i < j < |ps| ==> ps[i] < ps[j])
    && (forall q :: p <= q < |members| && Taken(members, isMain, q) ==> Reached(ps, taken, q))
  }

  ghost predicate Reached(ps: seq<nat>, taken: nat, q: nat) {
    q in ps || (|ps| + taken == MAX_METHODS && forall j :: 0 <= j < |ps| ==> ps[j] < q)
  }

  lemma PickCons(members: seq<Member>, isMain: bool, p: nat, taken: nat, rest: seq<nat>)
    requires PickedFrom(members, isMain, p + 1, taken + 1, rest) && Taken(members, isMain, p)
    ensures PickedFrom(members, isMain, p, taken, [p] + rest)
  {
    var ps := [p] + rest;
    forall q | p <= q < |members| && Taken(members, isMain, q) ensures Reached(ps, taken, q) {
      if q > p {
        assert Reached(rest, taken + 1, q);
        assert q in rest ==> q in ps;
      }
    }
  }

  lemma {:induction false} PositionsPick(members: seq<Member>, isMain: bool, p: nat, taken: nat)
    requires p <= |members| && taken <= MAX_METHODS
    ensures PickedFrom(members, isMain, p, taken, Positions(members, isMain, p, taken))
    decreases |members| - p
  {
    if p < |members| {
      if Taken(members, isMain, p) && taken < MAX_METHODS {
        PositionsPick(members, isMain, p + 1, taken + 1);
        PickCons(members, isMain, p, taken, Positions(members, isMain, p + 1, taken + 1));
      } else {
        PositionsPick(members, isMain, p + 1, taken);
        if taken == MAX_METHODS { NoneLeft(members, isMain, p); }
      }
    }
  }

  lemma {:induction false} NoneLeft(members: seq<Member>, isMain: bool, p: nat)
    requires p <= |members|
    ensures Positions(members, isMain, p, MAX_METHODS) == []
    decreases |members| - p
  {
    if p < |members| { NoneLeft(members, isMain, p + 1); }
  }

  /** The table entry and the body of the member at each of these positions. */
  ghost predicate From(members: seq<Member>, ps: seq<nat>, ms: seq<Method>, bs: seq<Body>, owner: string, ci: nat,
                       mi: nat, fn: nat) {
    && |ms| == |ps| == |bs|
    && forall j :: 0 <= j < |ps| ==>
         && ps[j] < |members|
         && ms[j] == Method(Stored(members[ps[j]].name), members[ps[j]].kind == New, fn + j)
         && bs[j] == Body(ci, mi + j, owner, members[ps[j]].name)
  }

  lemma FromCons(members: seq<Member>, p: nat, ps: seq<nat>, ms: seq<Method>, bs: seq<Body>, owner: string, ci: nat,
                 mi: nat, fn: nat)
    requires From(members, ps, ms, bs, owner, ci, mi + 1, fn + 1) && p < |members|
    ensures From(members, [p] + ps, [Method(Stored(members[p].name), members[p].kind == New, fn)] + ms,
                 [Body(ci, mi, owner, members[p].name)] + bs, owner, ci, mi, fn)
  {
  }

  lemma {:induction false} LoopsFrom(owner: string, members: seq<Member>, p: nat, ci: nat, fn: nat, taken: nat)
    requires p <= |members| && taken <= MAX_METHODS
    ensures var ps := Positions(members, owner == "main", p, taken);
            From(members, ps, Collect(members[p..], owner == "main", fn, taken),
                 Bodies(owner, members[p..], ci, taken, taken + |ps|), owner, ci, taken, fn)
    decreases |members| - p
  {
    if p < |members| {
      var isMain := owner == "main";
      assert members[p..][0] == members[p] && members[p..][1..] == members[p + 1..];
      if Taken(members, isMain, p) && taken < MAX_METHODS {
        LoopsFrom(owner, members, p + 1, ci, fn + 1, taken + 1);
        var ps := Positions(members, isMain, p + 1, taken + 1);
        FromCons(members, p, ps, Collect(members[p + 1..], isMain, fn + 1, taken + 1),
                 Bodies(owner, members[p + 1..], ci, taken + 1, taken + 1 + |ps|), owner, ci, taken, fn);
      } else {
        LoopsFrom(owner, members, p + 1, ci, fn, taken);
        if taken == MAX_METHODS { NoneLeft(members, isMain, p); }
      }
    }
  }

  lemma {:induction false} CountSplits(cs: seq<Class>, k: nat)
    requires k <= |cs|
    ensures MethodCount(cs) == MethodCount(cs[..k]) + MethodCount(cs[k..])
  {
    if k > 0 {
      CountSplits(cs[1..], k - 1);
      assert cs[..k][1..] == cs[1..][..k - 1] && cs[k..] == cs[1..][k - 1..];
    } else {
      assert cs[0..] == cs;
    }
  }

  /** Where all actors are in place, the bodies of the actors from `k` on begin at `k`'s offset. */
  lemma {:induction false} BodiesBegin(actors: seq<ActorDecl>, k: nat)
    requires k <= Classes(actors) && RestInPlace(actors, 0)
    ensures var all := BodiesAll(actors, Table(actors));
            Offset(actors, k) <= |all| && all[Offset(actors, k)..] == BodiesAll(actors[k..], Table(actors))
  {
    if k == 0 {
      var all := BodiesAll(actors, Table(actors));
      assert actors[0..] == actors && all[0..] == all;
    } else {
      BodiesBegin(actors, k - 1);
      BeginNext(actors, k - 1, BodiesAll(actors, Table(actors)));
    }
  }

  lemma BeginNext(actors: seq<ActorDecl>, k: nat, all: seq<Body>)
    requires k < Classes(actors) && InPlace(actors, k) && Offset(actors, k) <= |all|
    requires all[Offset(actors, k)..] == BodiesAll(actors[k..], Table(actors))
    ensures Offset(actors, k + 1) <= |all| && all[Offset(actors, k + 1)..] == BodiesAll(actors[k + 1..], Table(actors))
  {
    BodiesBehind(actors, k);
    OwnInPlace(actors, k, Recorded(actors[k]));
    Back(all, Offset(actors, k), BodiesOf(actors[k].name, actors[k].members, Table(actors)),
         BodiesAll(actors[k + 1..], Table(actors)));
  }

  lemma OwnBodies(actors: seq<ActorDecl>, k: nat, n: nat)
    requires k < Classes(actors) && n == Recorded(actors[k]) && RestInPlace(actors, 0)
    ensures var at, all := Offset(actors, k), BodiesAll(actors, Table(actors));
            && at + n <= |all|
            && all[at..at + n] == Bodies(actors[k].name, actors[k].members, k, 0, n)
  {
    BodiesBegin(actors, k);
    BodiesBehind(actors, k);
    OwnInPlace(actors, k, n);
    Front(BodiesAll(actors, Table(actors)), Offset(actors, k), BodiesOf(actors[k].name, actors[k].members, Table(actors)),
          BodiesAll(actors[k + 1..], Table(actors)));
  }

  lemma OwnInPlace(actors: seq<ActorDecl>, k: nat, n: nat)
    requires k < Classes(actors) && n == Recorded(actors[k]) && InPlace(actors, k)
    ensures var own := BodiesOf(actors[k].name, actors[k].members, Table(actors));
            |own| == n && own == Bodies(actors[k].name, actors[k].members, k, 0, n)
  {
    BroughtBy(actors, k);
    FoundAtHome(actors, actors[k].name);
    RecordedMethods(actors, k);
    BodiesCount(actors[k].name, actors[k].members, k, 0, n);
  }

  lemma Front(all: seq<Body>, at: nat, own: seq<Body>, rest: seq<Body>)
    requires at <= |all| && all[at..] == own + rest
    ensures at + |own| <= |all| && all[at..at + |own|] == own
  {
    assert |all[at..]| == |own| + |rest|;
    assert all[at..at + |own|] == all[at..][..|own|];
  }

  lemma Back(all: seq<Body>, at: nat, own: seq<Body>, rest: seq<Body>)
    requires at <= |all| && all[at..] == own + rest
    ensures at + |own| <= |all| && all[at + |own|..] == rest
  {
    assert |all[at..]| == |own| + |rest|;
    assert all[at + |own|..] == all[at..][|own|..];
  }

  /** Entry `j` of class `k`, and the body at its index. */
  ghost predicate EntryOk(actors: seq<ActorDecl>, k: nat, ps: seq<nat>, j: nat, ms: seq<Method>, at: nat, bs: seq<Body>)
    requires k < |actors| && j < |ps|
  {
    && ps[j] < |actors[k].members| && j < |ms|
    && ms[j] == Method(Stored(actors[k].members[ps[j]].name), actors[k].members[ps[j]].kind == New, 36 + at + j)
    && (RestInPlace(actors, 0) ==>
          at + j < |bs| && bs[at + j] == Body(k, j, actors[k].name, actors[k].members[ps[j]].name))
  }

  lemma EntriesOk(actors: seq<ActorDecl>, k: nat, j: nat)
    requires k < Classes(actors)
    requires j < |Positions(actors[k].members, actors[k].name == "main", 0, 0)|
    ensures var ps := Positions(actors[k].members, actors[k].name == "main", 0, 0);
            EntryOk(actors, k, ps, j, Table(actors)[k].methods, Offset(actors, k), BodiesAll(actors, Table(actors)))
  {
    var a := actors[k];
    var ps := Positions(a.members, a.name == "main", 0, 0);
    var ms, own := Table(actors)[k].methods, Bodies(a.name, a.members, k, 0, |ps|);
    OwnFrom(actors, k);
    assert ms[j] == Method(Stored(a.members[ps[j]].name), a.members[ps[j]].kind == New, BASE + Offset(actors, k) + j);
    assert own[j] == Body(k, j, a.name, a.members[ps[j]].name);
    if RestInPlace(actors, 0) {
      OwnBodies(actors, k, |ps|);
      At(BodiesAll(actors, Table(actors)), Offset(actors, k), |ps|, own, j);
    }
  }

  lemma At(all: seq<Body>, at: nat, n: nat, own: seq<Body>, j: nat)
    requires at + n <= |all| && all[at..at + n] == own && j < n
    ensures all[at + j] == own[j]
  {
    assert all[at..at + n][j] == all[at + j];
  }

  lemma OwnFrom(actors: seq<ActorDecl>, k: nat)
    requires k < Classes(actors)
    ensures var a := actors[k];
            var ps := Positions(a.members, a.name == "main", 0, 0);
            && From(a.members, ps, Table(actors)[k].methods, Bodies(a.name, a.members, k, 0, |ps|), a.name, k, 0,
                    BASE + Offset(actors, k))
            && |ps| == Recorded(a)
  {
    var a := actors[k];
    assert a.members[0..] == a.members;
    LoopsFrom(a.name, a.members, 0, k, BASE + Offset(actors, k), 0);
    RecordedMethods(actors, k);
  }

  lemma EntryCount(actors: seq<ActorDecl>, k: nat)
    requires k < Classes(actors)
    ensures |Table(actors)[k].methods| == |Positions(actors[k].members, actors[k].name == "main", 0, 0)|
    ensures MethodCount(Table(actors)[..k]) == Offset(actors, k)
  {
    OwnFrom(actors, k);
    CountSplits(Table(actors), k);
    CountedFrom(actors, k);
    CountedFrom(actors, 0);
    assert Table(actors)[0..] == Table(actors);
  }

  /** The recorded positions, kinds and entry rule written out. */
  lemma PositionsAre(members: seq<Member>, main: bool)
    ensures Picks(Positions(members, main, 0, 0), |members|, 64, q =>
              0 <= q < |members|
              && (members[q].kind == Fun || members[q].kind == New || members[q].kind == Be)
              && !(main && members[q].kind == Fun && members[q].name == "main")
              && !(main && members[q].kind == New && members[q].name == "create"))
  {
    PositionsPick(members, main, 0, 0);
    var ps := Positions(members, main, 0, 0);
    var wanted: nat -> bool := q =>
      0 <= q < |members|
      && (members[q].kind == Fun || members[q].kind == New || members[q].kind == Be)
      && !(main && members[q].kind == Fun && members[q].name == "main")
      && !(main && members[q].kind == New && members[q].name == "create");
    forall q: nat ensures wanted(q) <==> Taken(members, main, q) {
    }
    assert Picks(ps, |members|, 64, wanted);
  }

  /**
   Every member once: for the `k`-th of the first 16 actors, the table has exactly one
   entry for each of its first 64 `fun`, `new` and `be` members other than the entry point
   of `main`, in their order, with consecutive indices that begin at 36 for the first
   actor; and where every actor is in place exactly one body, at that index.
   */
  lemma EveryMethodOnce(tops: seq<Top>, k: nat) returns (ps: seq<nat>)
    requires k < 16 && k < |Actors(tops)|
    ensures var actors, classes := Actors(tops), CollectAll(tops, 36, 16);
            var members, main := actors[k].members, actors[k].name == "main";
            && |classes| == (if |actors| < 16 then |actors| else 16)
            && |classes[k].methods| == |ps|
            && Picks(ps, |members|, 64, q =>
                 0 <= q < |members|
                 && (members[q].kind == Fun || members[q].kind == New || members[q].kind == Be)
                 && !(main && members[q].kind == Fun && members[q].name == "main")
                 && !(main && members[q].kind == New && members[q].name == "create"))
            && (forall j :: 0 <= j < |ps| ==>
                  EntryOk(actors, k, ps, j, classes[k].methods, MethodCount(classes[..k]), BodiesAll(tops, classes)))
            && (RestInPlace(actors, 0) ==> |BodiesAll(tops, classes)| == MethodCount(classes))
  {
    var actors := Actors(tops);
    WholeTable(tops);
    assert actors[0..] == actors;
    ps := Positions(actors[k].members, actors[k].name == "main", 0, 0);
    PositionsAre(actors[k].members, actors[k].name == "main");
    EntryCount(actors, k);
    forall j | 0 <= j < |ps|
      ensures EntryOk(actors, k, ps, j, Table(actors)[k].methods, Offset(actors, k), BodiesAll(actors, Table(actors)))
    {
      EntriesOk(actors, k, j);
    }
    AllLaid(tops);
  }

  lemma AllLaid(tops: seq<Top>)
    ensures RestInPlace(Actors(tops), 0) ==>
              |BodiesAll(tops, CollectAll(tops, 36, 16))| == MethodCount(CollectAll(tops, 36, 16))
  {
    LayoutAgreesIff(tops);
  }

  /** The actors are the program's, each once and in their order. */
  lemma {:induction false} ActorsPicked(tops: seq<Top>, p: nat) returns (ps: seq<nat>)
    requires p <= |tops|
    ensures |Actors(tops[p..])| == |ps|
    ensures forall j :: 0 <= j < |ps| ==> p <= ps[j] < |tops| && tops[ps[j]].Actor? && Actors(tops[p..])[j] == tops[ps[j]]
    ensures forall i, j :: 0 <= i < j < |ps| ==> ps[i] < ps[j]
    ensures forall q :: p <= q < |tops| && tops[q].Actor? ==> q in ps
    decreases |tops| - p
  {
    ps := [];
    if p < |tops| {
      assert tops[p..][0] == tops[p] && tops[p..][1..] == tops[p + 1..];
      var rest := ActorsPicked(tops, p + 1);
      if tops[p].Actor? {
        ps := [p] + rest;
        ActorFirst(tops, p, rest);
      } else {
        ps := rest;
        assert Actors(tops[p..]) == Actors(tops[p + 1..]);
      }
    }
  }

  lemma ActorFirst(tops: seq<Top>, p: nat, rest: seq<nat>)
    requires p < |tops| && tops[p].Actor? && tops[p..][0] == tops[p] && tops[p..][1..] == tops[p + 1..]
    requires |Actors(tops[p + 1..])| == |rest|
    requires forall j :: 0 <= j < |rest| ==> rest[j] < |tops| && Actors(tops[p + 1..])[j] == tops[rest[j]]
    ensures var ps := [p] + rest;
            |Actors(tops[p..])| == |ps| && forall j :: 0 <= j < |ps| ==> Actors(tops[p..])[j] == tops[ps[j]]
  {
    assert Actors(tops[p..]) == [tops[p]] + Actors(tops[p + 1..]);
  }

  // ------------------------------------------------------------ programs that break the layout

  const F := Member(Fun, "f")
  const G := Member(Fun, "g")

  lemma TwoActors(a: ActorDecl, b: ActorDecl)
    ensures Actors([a, b]) == [a, b]
    ensures Offset([a, b], 2) == Recorded(a) + Recorded(b)
  {
    var tops: seq<Top> := [a, b];
    assert tops[1..] == [b] && tops[1..][1..] == [];
    assert Actors(tops[1..]) == [b] + Actors(tops[1..][1..]);
    assert Offset([a, b], 1) == Offset([a, b], 0) + Recorded(a);
  }

  lemma FewMethods(isMain: bool)
    ensures Methods([F], isMain) == 1 && Methods([G], isMain) == 1 && Methods([F, G], isMain) == 2
  {
    assert [F][1..] == [] && [G][1..] == [] && [F, G][1..] == [G];
  }

  /**
   Two actors of one name: with one method and then two, three functions are declared and
   two bodies emitted; with one each the counts agree and the second body is misplaced.
   */
  lemma DuplicateNamesBreakTheModule()
    ensures var tops := [Actor("A", [F]), Actor("A", [F, G])];
            var classes := CollectAll(tops, BASE, MAX_CLASSES);
            MethodCount(classes) == 3 && |BodiesAll(tops, classes)| == 2
    ensures var tops := [Actor("A", [F]), Actor("A", [G])];
            var classes := CollectAll(tops, BASE, MAX_CLASSES);
            && |BodiesAll(tops, classes)| == MethodCount(classes) && |classes| <= |Actors(tops)|
            && !Laid(Actors(tops), classes, BodiesAll(tops, classes), BASE, MethodCount(classes))
  {
    FewMethods(false);
    SecondOfItsName(Actor("A", [F]), Actor("A", [F, G]));
    SecondOfItsName(Actor("A", [F]), Actor("A", [G]));
  }

  lemma SecondOfItsName(a: ActorDecl, b: ActorDecl)
    requires a.name == b.name && |a.name| <= 63 && Recorded(b) > 0
    ensures var classes := CollectAll([a, b], BASE, MAX_CLASSES);
            var bs := BodiesAll([a, b], classes);
            && MethodCount(classes) == Recorded(a) + Recorded(b)
            && |bs| == Recorded(a) + Min(Recorded(b), Recorded(a))
            && |classes| <= |Actors([a, b])|
            && !Laid(Actors([a, b]), classes, bs, BASE, MethodCount(classes))
  {
    var actors: seq<ActorDecl> := [a, b];
    TwoActors(a, b);
    WholeTable(actors);
    LayoutAgreesIff(actors);
    assert Home(actors, a.name, 0) == 0;
    assert !InPlace(actors, 1);
    BodiesFrom(actors, 0);
    assert Missing(actors, 2) == 0 && Missing(actors, 1) == Recorded(b) - Min(Recorded(b), Recorded(a));
    assert Missing(actors, 0) == Missing(actors, 1);
  }

  /** An actor with a name the table cuts short: its methods are declared and never emitted. */
  lemma LongNameBreaksTheModule(name: string)
    requires |name| > 63
    ensures var classes := CollectAll([Actor(name, [F])], BASE, MAX_CLASSES);
            MethodCount(classes) == 1 && BodiesAll([Actor(name, [F])], classes) == []
  {
    var a: ActorDecl := Actor(name, [F]);
    var actors := [a];
    assert [Actor(name, [F])][1..] == [] && Actors([Actor(name, [F])]) == actors;
    WholeTable([Actor(name, [F])]);
    FewMethods(name == "main");
    assert Offset(actors, 1) == Offset(actors, 0) + Recorded(a);
    BodiesFrom(actors, 0);
    assert Home(actors, name, 0) == 1;
    assert Missing(actors, 0) == 1 + Missing(actors, 1);
  }

  // ------------------------------------------------------------ the traversals as loops

  lemma Shift<T>(a: seq<T>, x: T, rest: seq<T>)
    ensures a + ([x] + rest) == (a + [x]) + rest
  {
  }

  class ClassTable {
    var classes: seq<Class>
    var nextFn: nat

    constructor (fnBase: nat)
      ensures classes == [] && nextFn == fnBase
    {
      classes, nextFn := [], fnBase;
    }

    /** The member loop of one actor. */
    method CollectMembers(members: seq<Member>, isMain: bool) returns (ms: seq<Method>)
      modifies `nextFn
      ensures ms == Collect(members, isMain, old(nextFn), 0) && nextFn == old(nextFn) + |ms|
    {
      ms := [];
      for i := 0 to |members|
        invariant nextFn == old(nextFn) + |ms|
        invariant ms + Collect(members[i..], isMain, nextFn, |ms|) == Collect(members, isMain, old(nextFn), 0)
      {
        var m := members[i];
        assert members[i..][0] == m && members[i..][1..] == members[i + 1..];
        if !IsEntry(isMain, m) && IsMethod(m) && |ms| < MAX_METHODS {
          Shift(ms, Method(Stored(m.name), m.kind == New, nextFn),
                Collect(members[i + 1..], isMain, nextFn + 1, |ms| + 1));
          ms := ms + [Method(Stored(m.name), m.kind == New, nextFn)];
          nextFn := nextFn + 1;
        }
      }
      assert ms + [] == ms;
    }

    method CollectClasses(tops: seq<Top>)
      requires classes == []
      modifies this
      ensures classes == CollectAll(tops, old(nextFn), MAX_CLASSES)
    {
      ghost var all := CollectAll(tops, nextFn, MAX_CLASSES);
      var i := 0;
      while i < |tops| && |classes| < MAX_CLASSES
        invariant i <= |tops| && |classes| <= MAX_CLASSES
        invariant classes + CollectAll(tops[i..], nextFn, MAX_CLASSES - |classes|) == all
      {
        assert tops[i..][0] == tops[i] && tops[i..][1..] == tops[i + 1..];
        match tops[i] {
          case OtherTop =>
          case Actor(name, members) =>
            ghost var fn, before := nextFn, classes;
            var ms := CollectMembers(members, name == "main");
            Shift(before, Class(Stored(name), ms), CollectAll(tops[i + 1..], nextFn, MAX_CLASSES - |before| - 1));
            classes := classes + [Class(Stored(name), ms)];
        }
        i := i + 1;
      }
      assert classes + [] == classes;
    }

    method Find(name: string) returns (i: nat)
      ensures i == FindClass(classes, name)
    {
      i := 0;
      while i < |classes| && classes[i].name != name
        invariant i <= |classes| && forall k :: 0 <= k < i ==> classes[k].name != name
      {
        i := i + 1;
      }
    }

    /** The member loop of the emitter: bodies for the table's methods, in the members' order. */
    method EmitMembers(owner: string, members: seq<Member>, ci: nat) returns (bs: seq<Body>)
      requires ci < |classes|
      ensures bs == Bodies(owner, members, ci, 0, |classes[ci].methods|)
    {
      bs := [];
      var n := |classes[ci].methods|;
      var i := 0;
      while i < |members| && |bs| < n
        invariant i <= |members| && |bs| <= n
        invariant bs + Bodies(owner, members[i..], ci, |bs|, n) == Bodies(owner, members, ci, 0, n)
      {
        var m := members[i];
        assert members[i..][0] == m && members[i..][1..] == members[i + 1..];
        if IsMethod(m) && !IsEntry(owner == "main", m) {
          Shift(bs, Body(ci, |bs|, owner, m.name), Bodies(owner, members[i + 1..], ci, |bs| + 1, n));
          bs := bs + [Body(ci, |bs|, owner, m.name)];
        }
        i := i + 1;
      }
      assert bs + [] == bs;
    }

    method EmitBodies(tops: seq<Top>) returns (bs: seq<Body>)
      ensures bs == BodiesAll(tops, classes)
    {
      bs := [];
      for i := 0 to |tops|
        invariant bs + BodiesAll(tops[i..], classes) == BodiesAll(tops, classes)
      {
        assert tops[i..][0] == tops[i] && tops[i..][1..] == tops[i + 1..];
        ghost var rest := BodiesAll(tops[i + 1..], classes);
        match tops[i] {
          case OtherTop => assert [] + rest == rest;
          case Actor(name, members) =>
            var ci := Find(name);
            if ci < |classes| {
              var own := EmitMembers(name, members, ci);
              assert bs + (own + rest) == (bs + own) + rest;
              bs := bs + own;
            } else {
              assert [] + rest == rest;
            }
        }
      }
      assert bs + [] == bs;
    }
  }
}
