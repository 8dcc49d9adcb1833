/** The worklist invariant of the mark phase. */
module GcMarking {
  import opened GcModel

  /** Marked objects are exactly the enqueued ones, each enqueued once, all of them reachable. */
  ghost predicate Worklist(objs: seq<Obj>, roots: seq<nat>, marks: seq<bool>, queue: seq<nat>) {
    && |marks| == |objs|
    && (forall a :: 0 <= a < |queue| ==> queue[a] < |objs| && marks[queue[a]])
    && (forall a, b :: 0 <= a < b < |queue| ==> queue[a] != queue[b])
    && (forall i: nat :: i < |objs| && marks[i] ==> i in queue)
    && (forall i: nat :: i < |objs| && marks[i] ==> Reachable(objs, roots, i))
  }

  ghost predicate Grows(marks: seq<bool>, marks': seq<bool>) {
    |marks'| == |marks| && forall i :: 0 <= i < |marks| && marks[i] ==> marks'[i]
  }

  /** Every object the first `n` words of `i` point into is marked. */
  ghost predicate Scanned(objs: seq<Obj>, marks: seq<bool>, i: nat, n: nat)
    requires i < |objs| == |marks| && n <= |objs[i].words|
  {
    forall k, j | 0 <= k < n && 0 <= j < |objs| :: objs[j].Contains(objs[i].words[k]) ==> marks[j]
  }

  /** The first `n` enqueued objects have been scanned. */
  ghost predicate Drained(objs: seq<Obj>, marks: seq<bool>, queue: seq<nat>, n: nat) {
    && |marks| == |objs| && n <= |queue|
    && forall a :: 0 <= a < n ==> queue[a] < |objs| && Scanned(objs, marks, queue[a], |objs[queue[a]].words|)
  }

  lemma EnqueueKeepsWorklist(objs: seq<Obj>, roots: seq<nat>, marks: seq<bool>, queue: seq<nat>, j: nat)
    requires Worklist(objs, roots, marks, queue)
    requires j < |objs| && !marks[j] && Reachable(objs, roots, j)
    ensures Worklist(objs, roots, marks[j := true], queue + [j])
    ensures Grows(marks, marks[j := true])
  {
    var marks', queue' := marks[j := true], queue + [j];
    assert queue'[|queue|] == j;
    forall i: nat | i < |objs| && marks'[i] ensures i in queue' {
      if i != j { assert i in queue; }
    }
  }

  /** Marking the one object that word `k` of object `i` points into extends the scan by that word. */
  lemma ScanWord(objs: seq<Obj>, roots: seq<nat>, marks: seq<bool>, queue: seq<nat>, i: nat, k: nat, j: nat)
    requires Worklist(objs, roots, marks, queue)
    requires i < |objs| && marks[i] && k < |objs[i].words| && j <= |objs|
    requires forall m :: 0 <= m < |objs| && objs[m].Contains(objs[i].words[k]) ==> m == j
    requires j < |objs| ==> objs[j].Contains(objs[i].words[k])
    requires Scanned(objs, marks, i, k)
    ensures var found := j < |objs| && !marks[j];
            var marks', queue' := if found then marks[j := true] else marks, if found then queue + [j] else queue;
            Worklist(objs, roots, marks', queue') && Grows(marks, marks') && Scanned(objs, marks', i, k + 1)
  {
    if j < |objs| && !marks[j] {
      assert PointsInto(objs, i, j);
      StepReachable(objs, roots, i, j);
      EnqueueKeepsWorklist(objs, roots, marks, queue, j);
    }
  }

  lemma GrowthKeepsDrained(objs: seq<Obj>, marks: seq<bool>, marks': seq<bool>,
                           queue: seq<nat>, queue': seq<nat>, n: nat)
    requires Drained(objs, marks, queue, n) && Grows(marks, marks') && queue <= queue'
    ensures Drained(objs, marks', queue', n)
  {
  }

  /** Distinct table indices: the queue never outgrows the table. */
  lemma QueueBounded(queue: seq<nat>, n: nat)
    requires forall a :: 0 <= a < |queue| ==> queue[a] < n
    requires forall a, b :: 0 <= a < b < |queue| ==> queue[a] != queue[b]
    ensures |queue| <= n
  {
    DistinctInSet(queue, Below(n));
  }

  ghost function Below(n: nat): (s: set<nat>)
    ensures |s| == n && forall i: nat :: i in s <==> i < n
  {
    if n == 0 then {} else Below(n - 1) + {n - 1}
  }

  lemma {:induction false} DistinctInSet(queue: seq<nat>, s: set<nat>)
    requires forall a :: 0 <= a < |queue| ==> queue[a] in s
    requires forall a, b :: 0 <= a < b < |queue| ==> queue[a] != queue[b]
    ensures |queue| <= |s|
    decreases |queue|
  {
    if queue != [] {
      var last := queue[|queue| - 1];
      DistinctInSet(queue[..|queue| - 1], s - {last});
    }
  }

  /** With the roots marked and the queue drained, marked means reachable. */
  lemma DrainedMeansReachable(objs: seq<Obj>, roots: seq<nat>, marks: seq<bool>, queue: seq<nat>)
    requires Worklist(objs, roots, marks, queue) && Drained(objs, marks, queue, |queue|)
    requires forall j: nat :: IsRoot(objs, roots, j) ==> marks[j]
    ensures forall j: nat :: j < |objs| ==> (marks[j] <==> Reachable(objs, roots, j))
    ensures forall i: nat, j: nat :: PointsInto(objs, i, j) && marks[i] ==> marks[j]
  {
    forall i: nat, j: nat | PointsInto(objs, i, j) && marks[i] ensures marks[j] {
      assert i in queue;
      var a :| 0 <= a < |queue| && queue[a] == i;
      assert Scanned(objs, marks, queue[a], |objs[queue[a]].words|);
    }
    forall j: nat | j < |objs| && Reachable(objs, roots, j) ensures marks[j] {
      var path :| IsPath(objs, roots, path) && path[|path| - 1] == j;
      ClosedHoldsPath(objs, roots, marks, path);
    }
  }
}
