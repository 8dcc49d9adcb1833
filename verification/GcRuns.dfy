/** Whole runs of a program over the collector: allocations, writes and any number of collections. */
module GcRuns {
  import opened GcModel
  import opened GcTheorems

  /** The table of the half in use, and where the halves lie. */
  datatype Heap = Heap(objs: seq<Obj>, fb: nat, tb: nat, size: nat)

  datatype Event =
    | Allocate(words: seq<nat>)            // and fill with these words
    | Write(i: nat, k: nat, value: nat)
    | Collection(marks: seq<bool>)

  ghost predicate Sound(h: Heap) {
    Tiled(h.objs, h.fb) && TotalBytes(h.objs) <= h.size && Apart(h.fb, h.tb, h.size)
  }

  ghost predicate Outside(h: Heap, w: nat) {
    !(h.fb <= w < h.fb + h.size) && !(h.tb <= w < h.tb + h.size)
  }

  /** The program stores only data pointers of objects older than the one it stores into, or plain data. */
  ghost predicate MayStore(h: Heap, i: nat, w: nat) {
    HeaderOf(h.objs, w) < i || Outside(h, w)
  }

  ghost predicate Enabled(h: Heap, e: Event) {
    match e
    case Allocate(ws) =>
      ws != [] && TotalBytes(h.objs) + 8 + 8 * |ws| <= h.size
      && forall k :: 0 <= k < |ws| ==> MayStore(h, |h.objs|, ws[k])
    case Write(i, k, w) => i < |h.objs| && k < |h.objs[i].words| && MayStore(h, i, w)
    case Collection(marks) => Collecting(h.objs, marks, h.fb, h.tb, h.size)
  }

  function Apply(h: Heap, e: Event): Heap
    requires Enabled(h, e)
  {
    match e
    case Allocate(ws) => h.(objs := h.objs + [Obj(h.fb + TotalBytes(h.objs), ws)])
    case Write(i, k, w) => h.(objs := h.objs[i := Obj(h.objs[i].addr, h.objs[i].words[k := w])])
    case Collection(marks) => Heap(Copies(h.objs, marks, h.tb, |h.objs|), h.tb, h.fb, h.size)
  }

  ghost predicate IsRun(hs: seq<Heap>, es: seq<Event>) {
    && |hs| == |es| + 1 && hs[0].objs == [] && Apart(hs[0].fb, hs[0].tb, hs[0].size)
    && forall n :: 0 <= n < |es| ==> Enabled(hs[n], es[n]) && hs[n + 1] == Apply(hs[n], es[n])
  }

  ghost predicate Disciplined(h: Heap) {
    Sound(h) && AllClean(h.objs, h.fb, h.tb, h.size)
  }

  /** An object found before is found after, where it was. */
  lemma SameHeader(objs: seq<Obj>, after: seq<Obj>, w: nat)
    requires |objs| <= |after| && forall i :: 0 <= i < |objs| ==> after[i].Data() == objs[i].Data()
    ensures HeaderOf(objs, w) < |objs| ==> HeaderOf(after, w) == HeaderOf(objs, w)
  {
    var a, b := HeaderOf(objs, w), HeaderOf(after, w);
    assert a < |objs| ==> after[a].Data() == w;
    assert b < |objs| ==> objs[b].Data() == w;
  }

  /** Storing into `i` what may be stored there, with every object in its place, keeps it clean. */
  lemma StaysClean(h: Heap, after: seq<Obj>, i: nat)
    requires |h.objs| <= |after| && i < |after| && i <= |h.objs|
    requires forall j :: 0 <= j < |h.objs| ==> after[j].Data() == h.objs[j].Data()
    requires forall k :: 0 <= k < |after[i].words| ==> MayStore(h, i, after[i].words[k])
    ensures Clean(after, h.fb, h.tb, h.size, i)
  {
    forall k | 0 <= k < |after[i].words|
      ensures HeaderOf(after, after[i].words[k]) < i || Outside(h, after[i].words[k])
    {
      SameHeader(h.objs, after, after[i].words[k]);
    }
  }

  lemma MayKeep(h: Heap, i: nat)
    requires i < |h.objs| && Clean(h.objs, h.fb, h.tb, h.size, i)
    ensures forall k :: 0 <= k < |h.objs[i].words| ==> MayStore(h, i, h.objs[i].words[k])
  {
  }

  lemma AllocateKeeps(h: Heap, ws: seq<nat>)
    requires Disciplined(h) && Enabled(h, Allocate(ws))
    ensures Disciplined(Apply(h, Allocate(ws)))
  {
    var o, h' := Obj(h.fb + TotalBytes(h.objs), ws), Apply(h, Allocate(ws));
    assert h'.objs == h.objs + [o];
    assert Sound(h') by { AppendTiled(h.objs, h.fb, o); }
    assert AllClean(h'.objs, h.fb, h.tb, h.size) by { AppendClean(h, o); }
  }

  lemma AppendClean(h: Heap, o: Obj)
    requires AllClean(h.objs, h.fb, h.tb, h.size)
    requires forall k :: 0 <= k < |o.words| ==> MayStore(h, |h.objs|, o.words[k])
    ensures AllClean(h.objs + [o], h.fb, h.tb, h.size)
  {
    var after := h.objs + [o];
    forall i | 0 <= i < |after| ensures Clean(after, h.fb, h.tb, h.size, i) {
      if i < |h.objs| { MayKeep(h, i); }
      StaysClean(h, after, i);
    }
  }

  lemma WriteKeeps(h: Heap, i: nat, k: nat, w: nat)
    requires Disciplined(h) && Enabled(h, Write(i, k, w))
    ensures Disciplined(Apply(h, Write(i, k, w)))
  {
    var after := Apply(h, Write(i, k, w)).objs;
    WriteTiled(h.objs, after, h.fb);
    forall j | 0 <= j < |after| ensures Clean(after, h.fb, h.tb, h.size, j) {
      MayKeep(h, j);
      StaysClean(h, after, j);
    }
  }

  lemma WriteTiled(objs: seq<Obj>, after: seq<Obj>, base: nat)
    requires Tiled(objs, base) && |after| == |objs|
    requires forall j :: 0 <= j < |objs| ==> after[j].addr == objs[j].addr && |after[j].words| == |objs[j].words|
    ensures Tiled(after, base) && TotalBytes(after) == TotalBytes(objs)
  {
    SameSizes(after, objs);
    forall j | 0 <= j < |after| ensures after[j].addr == base + TotalBytes(after[..j]) && after[j].words != [] {
      SameSizes(after[..j], objs[..j]);
    }
  }

  lemma CollectionKeeps(h: Heap, marks: seq<bool>)
    requires Disciplined(h) && Enabled(h, Collection(marks))
    ensures Disciplined(Apply(h, Collection(marks)))
  {
    CollectionKeepsClean(h.objs, marks, h.fb, h.tb, h.size);
    CopiesShape(h.objs, marks, h.tb, |h.objs|);
    assert h.objs[..|h.objs|] == h.objs;
  }

  /** Every heap of every run is sound and clean. */
  lemma {:induction false} RunKeepsDiscipline(hs: seq<Heap>, es: seq<Event>, n: nat)
    requires IsRun(hs, es) && n <= |es|
    ensures Disciplined(hs[n])
  {
    if n > 0 {
      RunKeepsDiscipline(hs, es, n - 1);
      match es[n - 1] {
        case Allocate(ws) => AllocateKeeps(hs[n - 1], ws);
        case Write(i, k, w) => WriteKeeps(hs[n - 1], i, k, w);
        case Collection(marks) => CollectionKeeps(hs[n - 1], marks);
      }
    }
  }

  /**
   So in every run every collection leaves no stale pointer and keeps the graph, however
   many came before it.
   */
  lemma EveryCollectionKeepsTheGraph(hs: seq<Heap>, es: seq<Event>, n: nat)
    requires IsRun(hs, es) && n < |es| && es[n].Collection?
    ensures var objs, marks, tb := hs[n].objs, es[n].marks, hs[n].tb;
            && |marks| == |objs|
            && (forall i :: 0 <= i < |objs| && marks[i] ==> NoStaleWord(CopyOf(objs, marks, tb, i), objs, hs[n].fb))
            && forall i: nat, j: nat :: i < |objs| && j < |objs| && marks[i] && marks[j] ==>
                 (PointsInto(hs[n + 1].objs, Rank(marks, i), Rank(marks, j)) <==> PointsInto(objs, i, j))
  {
    var h, marks := hs[n], es[n].marks;
    RunKeepsDiscipline(hs, es, n);
    CleanIsDisciplined(h.objs, marks, h.fb, h.tb, h.size);
    NoStaleIffPointsBack(h.objs, marks, h.fb, h.tb, h.size);
    forall i: nat, j: nat | i < |h.objs| && j < |h.objs| && marks[i] && marks[j]
      ensures PointsInto(hs[n + 1].objs, Rank(marks, i), Rank(marks, j)) <==> PointsInto(h.objs, i, j)
    {
      GraphPreserved(h.objs, marks, h.fb, h.tb, h.size, i, j);
    }
  }
}
