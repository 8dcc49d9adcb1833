/**
 The semispace collector.  The two spaces are tables of objects with their addresses
 and words; the mark half of each header is a separate column.  `Collect` marks from
 exact roots by a worklist, copies marked objects in table order while patching the
 pointers of from-space in place, relocates the roots by content, and flips.
 */
module Gc {
  import opened GcModel
  import opened GcTheorems
  import opened GcMarking

  /** The words an allocation request occupies. */
  function AlignedWords(size: nat): (n: nat)
    ensures 8 * n - 8 < size <= 8 * n
  {
    (size + 7) / 8
  }

  class GCHeap {
    var fromBase: nat
    var toBase: nat
    const spaceSize: nat
    var fromObjects: seq<Obj>
    var fromMarks: seq<bool>
    var toObjects: seq<Obj>
    var fromUsed: nat
    var toUsed: nat
    var generations: nat
    var totalAlloc: nat
    var totalFreed: nat

    /** The table tiles the used part of from-space; every byte is allocated, freed, or in use. */
    ghost predicate Valid()
      reads this
    {
      && Apart(fromBase, toBase, spaceSize)
      && |fromMarks| == |fromObjects|
      && Tiled(fromObjects, fromBase)
      && fromUsed == TotalBytes(fromObjects) <= spaceSize
      && toUsed == 0 && toObjects == []
      && fromUsed + totalFreed == totalAlloc
    }

    /** `size` is the requested size of one half; zero means 64 KiB, and it is rounded up to a page. */
    constructor (size: nat, first: nat, second: nat)
      requires Apart(first, second, PageAlign(if size == 0 then 65536 else size))
      ensures Valid() && fromObjects == [] && totalAlloc == 0
      ensures spaceSize % 4096 == 0 && (size == 0 ==> spaceSize == 65536)
      ensures size > 0 ==> size <= spaceSize < size + 4096
    {
      spaceSize := PageAlign(if size == 0 then 65536 else size);
      fromBase, toBase := first, second;
      fromObjects, fromMarks, toObjects := [], [], [];
      fromUsed, toUsed, generations, totalAlloc, totalFreed := 0, 0, 0, 0, 0;
    }

    /** The data pointer's object in the space that holds it; `|table|` stands for NULL. */
    method ObjHeader(d: nat) returns (inFrom: bool, j: nat)
      requires fromUsed == TotalBytes(fromObjects) && toUsed == TotalBytes(toObjects)
      ensures inFrom <==> fromBase <= d < fromBase + TotalBytes(fromObjects)
      ensures inFrom ==> j == HeaderOf(fromObjects, d)
      ensures !inFrom && toBase <= d < toBase + TotalBytes(toObjects) ==> j == HeaderOf(toObjects, d)
      ensures !inFrom && !(toBase <= d < toBase + TotalBytes(toObjects)) ==> j == |toObjects|
    {
      inFrom := fromBase <= d < fromBase + fromUsed;
      var objects := if inFrom then fromObjects else toObjects;
      j := 0;
      if !inFrom && !(toBase <= d < toBase + toUsed) {
        j := |toObjects|;
        return;
      }
      while j < |objects| && objects[j].Data() != d
        invariant j <= |objects|
        invariant forall i :: 0 <= i < j ==> objects[i].Data() != d
      {
        j := j + 1;
      }
    }

    /**
     Bump allocation.  Returns NULL exactly when the rounded request and its header do not
     fit; the data words hold whatever the space held before.
     */
    method Alloc(size: nat) returns (p: nat, ghost left: seq<nat>)
      requires Valid()
      modifies this`fromObjects, this`fromMarks, this`fromUsed, this`totalAlloc
      ensures Valid()
      ensures |left| == AlignedWords(if size == 0 then 1 else size)
      ensures p == 0 <==> old(fromUsed) + 8 + 8 * |left| > spaceSize
      ensures p == 0 ==> fromObjects == old(fromObjects) && fromMarks == old(fromMarks)
      ensures p == 0 ==> totalAlloc == old(totalAlloc)
      ensures p != 0 ==> p == fromBase + old(fromUsed) + 8
      ensures p != 0 ==> fromObjects == old(fromObjects) + [Obj(fromBase + old(fromUsed), left)]
      ensures p != 0 ==> fromMarks == old(fromMarks) + [false]
      ensures p != 0 ==> totalAlloc == old(totalAlloc) + 8 + 8 * |left|
    {
      var n := AlignedWords(if size == 0 then 1 else size);
      var words := Leftovers(n);
      left := words;
      p := 0;
      if fromUsed + 8 + 8 * n <= spaceSize {
        p := fromBase + fromUsed + 8;
        Record(Obj(fromBase + fromUsed, words));
      }
    }

    /** Whatever the space held before. */
    method Leftovers(n: nat) returns (words: seq<nat>)
      ensures |words| == n
    {
      ghost var filler := seq(n, _ => 0);
      assert |filler| == n;
      words :| |words| == n;
    }

    /** The new object goes to the end of the table and the space. */
    method Record(o: Obj)
      requires Valid()
      requires o.addr == fromBase + fromUsed && o.words != [] && fromUsed + o.Bytes() <= spaceSize
      modifies this`fromObjects, this`fromMarks, this`fromUsed, this`totalAlloc
      ensures Valid()
      ensures fromObjects == old(fromObjects) + [o] && fromMarks == old(fromMarks) + [false]
      ensures totalAlloc == old(totalAlloc) + o.Bytes()
    {
      AppendTiled(fromObjects, fromBase, o);
      fromObjects := fromObjects + [o];
      fromMarks := fromMarks + [false];
      fromUsed := fromUsed + o.Bytes();
      totalAlloc := totalAlloc + o.Bytes();
    }

    /** The first object one of whose bytes `p` addresses, or `|fromObjects|`. */
    method FindInto(p: nat) returns (j: nat)
      requires Valid()
      ensures j <= |fromObjects|
      ensures j < |fromObjects| ==> fromObjects[j].Contains(p)
      ensures forall i :: 0 <= i < |fromObjects| && fromObjects[i].Contains(p) ==> i == j
    {
      j := |fromObjects|;
      if fromBase <= p < fromBase + fromUsed {
        j := 0;
        while j < |fromObjects| && !fromObjects[j].Contains(p)
          invariant j <= |fromObjects|
          invariant forall i :: 0 <= i < j ==> !fromObjects[i].Contains(p)
        {
          j := j + 1;
        }
        forall i | 0 <= i < |fromObjects| && fromObjects[i].Contains(p) ensures i == j {
          TiledDisjoint(fromObjects, fromBase, i, j, p);
        }
      } else {
        forall i | 0 <= i < |fromObjects| ensures !fromObjects[i].Contains(p) {
          TiledBounds(fromObjects, fromBase, i);
        }
      }
    }

    /** Conservative scan of one object: marks and enqueues every object its words point into. */
    method ScanObject(i: nat, queue: seq<nat>, ghost roots: seq<nat>) returns (queue': seq<nat>)
      requires Valid() && Worklist(fromObjects, roots, fromMarks, queue)
      requires i < |fromObjects| && fromMarks[i]
      modifies this`fromMarks
      ensures Valid() && Worklist(fromObjects, roots, fromMarks, queue')
      ensures queue <= queue' && Grows(old(fromMarks), fromMarks)
      ensures Scanned(fromObjects, fromMarks, i, |fromObjects[i].words|)
    {
      queue' := queue;
      for k := 0 to |fromObjects[i].words|
        invariant |fromMarks| == |fromObjects| && Worklist(fromObjects, roots, fromMarks, queue')
        invariant queue <= queue' && Grows(old(fromMarks), fromMarks)
        invariant Scanned(fromObjects, fromMarks, i, k)
      {
        queue' := ScanWordOf(i, k, queue', roots);
      }
    }

    method ScanWordOf(i: nat, k: nat, queue: seq<nat>, ghost roots: seq<nat>) returns (queue': seq<nat>)
      requires Valid() && Worklist(fromObjects, roots, fromMarks, queue)
      requires i < |fromObjects| && fromMarks[i] && k < |fromObjects[i].words|
      requires Scanned(fromObjects, fromMarks, i, k)
      modifies this`fromMarks
      ensures Worklist(fromObjects, roots, fromMarks, queue')
      ensures queue <= queue' && Grows(old(fromMarks), fromMarks)
      ensures Scanned(fromObjects, fromMarks, i, k + 1)
    {
      var j := FindInto(fromObjects[i].words[k]);
      ScanWord(fromObjects, roots, fromMarks, queue, i, k, j);
      queue' := Enqueue(j, queue);
    }

    /** Marks and enqueues object `j` unless it is already marked or there is none. */
    method Enqueue(j: nat, queue: seq<nat>) returns (queue': seq<nat>)
      requires |fromMarks| == |fromObjects|
      modifies this`fromMarks
      ensures var found := j < |fromObjects| && !old(fromMarks)[j];
              && fromMarks == (if found then old(fromMarks)[j := true] else old(fromMarks))
              && queue' == (if found then queue + [j] else queue)
    {
      queue' := queue;
      if j < |fromObjects| && !fromMarks[j] {
        fromMarks := fromMarks[j := true];
        queue' := queue' + [j];
      }
    }

    /** Marks and enqueues the objects the roots address exactly. */
    method MarkRoots(roots: seq<nat>) returns (queue: seq<nat>)
      requires Valid()
      modifies this`fromMarks
      ensures Valid() && Worklist(fromObjects, roots, fromMarks, queue)
      ensures forall j: nat :: IsRoot(fromObjects, roots, j) ==> fromMarks[j]
    {
      fromMarks := seq(|fromObjects|, _ => false);
      queue := [];
      for r := 0 to |roots|
        invariant Valid() && Worklist(fromObjects, roots, fromMarks, queue)
        invariant forall j: nat :: IsRoot(fromObjects, roots[..r], j) ==> fromMarks[j]
      {
        ghost var before := fromMarks;
        if roots[r] != 0 {
          var inFrom, j := ObjHeader(roots[r]);
          if inFrom && j < |fromObjects| && !fromMarks[j] {
            assert IsRoot(fromObjects, roots, j);
            RootReachable(fromObjects, roots, j);
            EnqueueKeepsWorklist(fromObjects, roots, fromMarks, queue, j);
            queue := Enqueue(j, queue);
          }
        }
        forall j: nat | IsRoot(fromObjects, roots[..r + 1], j) ensures fromMarks[j] {
          if fromObjects[j].Data() == roots[r] {
            HeaderUnique(fromObjects, fromBase, j);
            TiledBounds(fromObjects, fromBase, j);
          } else {
            assert IsRoot(fromObjects, roots[..r], j);
          }
        }
      }
      assert roots[..|roots|] == roots;
    }

    /** The whole mark phase: afterwards an object is marked exactly when it is reachable. */
    method Mark(roots: seq<nat>)
      requires Valid()
      modifies this`fromMarks
      ensures Valid()
      ensures forall j: nat :: j < |fromObjects| ==> (fromMarks[j] <==> Reachable(fromObjects, roots, j))
      ensures Collecting(fromObjects, fromMarks, fromBase, toBase, spaceSize)
    {
      var queue := MarkRoots(roots);
      ghost var rooted := fromMarks;
      var qi := 0;
      QueueBounded(queue, |fromObjects|);
      while qi < |queue|
        invariant Valid() && Worklist(fromObjects, roots, fromMarks, queue)
        invariant qi <= |queue| <= |fromObjects| && Grows(rooted, fromMarks)
        invariant Drained(fromObjects, fromMarks, queue, qi)
        decreases |fromObjects| - qi
      {
        ghost var marks, was := fromMarks, queue;
        queue := ScanObject(queue[qi], queue, roots);
        GrowthKeepsDrained(fromObjects, marks, fromMarks, was, queue, qi);
        QueueBounded(queue, |fromObjects|);
        qi := qi + 1;
      }
      DrainedMeansReachable(fromObjects, roots, fromMarks, queue);
    }

    /** Appends a copy of `o` to to-space; NULL when it does not fit. */
    method CopyObject(o: Obj) returns (p: nat)
      modifies this`toObjects, this`toUsed
      ensures p == 0 <==> old(toUsed) + o.Bytes() > spaceSize
      ensures p == 0 ==> toObjects == old(toObjects) && toUsed == old(toUsed)
      ensures p != 0 ==> p == toBase + old(toUsed) + 8 && toUsed == old(toUsed) + o.Bytes()
      ensures p != 0 ==> toObjects == old(toObjects) + [Obj(toBase + old(toUsed), o.words)]
    {
      p := 0;
      if toUsed + o.Bytes() <= spaceSize {
        p := toBase + toUsed + 8;
        toObjects := toObjects + [Obj(toBase + toUsed, o.words)];
        toUsed := toUsed + o.Bytes();
      }
    }

    /** Redirects, in place, every word of a marked from-space object that equals `was`. */
    method PatchPointers(was: nat, now: nat)
      requires |fromMarks| == |fromObjects|
      modifies this`fromObjects
      ensures fromObjects == Patch(old(fromObjects), fromMarks, was, now)
    {
      for j := 0 to |fromObjects|
        invariant |fromObjects| == |old(fromObjects)|
        invariant fromObjects[..j] == Patch(old(fromObjects), fromMarks, was, now)[..j]
        invariant fromObjects[j..] == old(fromObjects)[j..]
      {
        assert fromObjects[j] == fromObjects[j..][0] == old(fromObjects)[j..][0] == old(fromObjects)[j];
        ghost var before := fromObjects;
        if fromMarks[j] {
          var words := PatchedWords(fromObjects[j].words, was, now);
          fromObjects := fromObjects[j := Obj(fromObjects[j].addr, words)];
        }
        assert fromObjects[..j + 1] == before[..j] + [fromObjects[j]];
        assert fromObjects[j + 1..] == before[j..][1..];
        assert old(fromObjects)[j + 1..] == old(fromObjects)[j..][1..];
      }
      assert fromObjects == fromObjects[..|fromObjects|];
    }

    method PatchedWords(ws: seq<nat>, was: nat, now: nat) returns (r: seq<nat>)
      ensures r == PatchWords(ws, was, now)
    {
      r := ws;
      for k := 0 to |ws|
        invariant |r| == |ws|
        invariant forall i :: 0 <= i < k ==> r[i] == PatchWords(ws, was, now)[i]
        invariant forall i :: k <= i < |ws| ==> r[i] == ws[i]
      {
        if r[k] == was { r := r[k := now]; }
      }
    }

    /** Where the copy phase stands after the first `i` table entries of `objs`. */
    ghost predicate CopiedUpTo(objs: seq<Obj>, i: nat, freed: nat)
      reads this
    {
      && i <= |objs| == |fromMarks|
      && toObjects == Copies(objs, fromMarks, toBase, i)
      && fromObjects == Patched(objs, fromMarks, toBase, i)
      && toUsed == LiveBytes(objs, fromMarks, i)
      && freed + toUsed == TotalBytes(objs[..i])
    }

    /** A survivor always fits: it is copied, then every reference to it is patched. */
    method CopySurvivor(i: nat, ghost objs: seq<Obj>, ghost freed: nat)
      requires Collecting(objs, fromMarks, fromBase, toBase, spaceSize)
      requires i < |objs| && fromMarks[i] && CopiedUpTo(objs, i, freed)
      modifies this`fromObjects, this`toObjects, this`toUsed
      ensures CopiedUpTo(objs, i + 1, freed)
    {
      SurvivorStep(objs, fromMarks, fromBase, toBase, spaceSize, i);
      var o := fromObjects[i];
      var newData := CopyObject(o);
      if newData != 0 {
        PatchPointers(o.Data(), newData);
      }
    }

    /** The copy phase: survivors in table order, each followed by the patching of its references. */
    method CopyMarked() returns (freed: nat)
      requires Collecting(fromObjects, fromMarks, fromBase, toBase, spaceSize)
      requires toUsed == 0 && toObjects == []
      modifies this`fromObjects, this`toObjects, this`toUsed
      ensures CopiedUpTo(old(fromObjects), |old(fromObjects)|, freed)
    {
      ghost var objs := fromObjects;
      freed := 0;
      NothingPatched(objs, fromMarks, toBase);
      for i := 0 to |fromObjects|
        invariant |fromObjects| == |objs| && CopiedUpTo(objs, i, freed)
      {
        if fromMarks[i] {
          CopySurvivor(i, objs, freed);
        } else {
          TotalPrefix(objs, i);
          UnmarkedKeepsPatched(objs, fromMarks, toBase, i);
          freed := freed + fromObjects[i].Bytes();
        }
      }
    }

    /** Everything is copied and patched; only the roots are still old. */
    ghost predicate Copied(objs: seq<Obj>)
      reads this
    {
      && |objs| == |fromMarks|
      && toObjects == Copies(objs, fromMarks, toBase, |objs|)
      && fromObjects == Patched(objs, fromMarks, toBase, |objs|)
      && fromUsed == TotalBytes(fromObjects) == TotalBytes(objs)
      && toUsed == TotalBytes(toObjects)
    }

    /** Relocates every root whose object is marked to the first copy with the same contents. */
    method RelocateRoots(roots: array<nat>, ghost objs: seq<Obj>)
      requires Copied(objs)
      modifies roots
      ensures roots[..] == MovedRoots(objs, fromMarks, fromBase, toBase, old(roots[..]))
    {
      ghost var moved := MovedRoots(objs, fromMarks, fromBase, toBase, roots[..]);
      for i := 0 to roots.Length
        invariant forall k :: i <= k < roots.Length ==> roots[k] == old(roots[k])
        invariant forall k :: 0 <= k < i ==> roots[k] == moved[k]
      {
        if roots[i] != 0 {
          var r := RelocateRoot(roots[i], objs);
          roots[i] := r;
        }
      }
    }

    method RelocateRoot(r: nat, ghost objs: seq<Obj>) returns (r': nat)
      requires Copied(objs)
      ensures r' == NewRoot(objs, fromMarks, fromBase, toBase, r)
    {
      r' := r;
      var inFrom, j := ObjHeader(r);
      if inFrom {
        if j < |fromObjects| && fromMarks[j] {
          var k := FindCopy(fromObjects[j].words);
          if k < |toObjects| { r' := toObjects[k].Data(); }
        }
      } else if j < |toObjects| {
        var k := FindCopy(toObjects[j].words);
        if k < |toObjects| { r' := toObjects[k].Data(); }
      }
    }

    method FindCopy(ws: seq<nat>) returns (k: nat)
      ensures k == FirstWith(toObjects, ws)
    {
      k := 0;
      while k < |toObjects| && toObjects[k].words != ws
        invariant k <= |toObjects|
        invariant forall i :: 0 <= i < k ==> toObjects[i].words != ws
      {
        k := k + 1;
      }
      var f := FirstWith(toObjects, ws);
      assert f < |toObjects| ==> toObjects[f].words == ws;
    }

    /** Swaps the two halves; the space that was left becomes empty. */
    method Flip()
      modifies this`fromBase, this`toBase, this`fromUsed, this`toUsed,
        this`fromObjects, this`fromMarks, this`toObjects
      ensures fromBase == old(toBase) && toBase == old(fromBase)
      ensures fromUsed == old(toUsed) && toUsed == 0
      ensures fromObjects == old(toObjects) && toObjects == []
      ensures fromMarks == seq(|fromObjects|, _ => true)
    {
      fromBase, toBase := toBase, fromBase;
      fromUsed, toUsed := toUsed, 0;
      fromObjects, toObjects := toObjects, [];
      fromMarks := seq(|fromObjects|, _ => true);
    }

    /** Copy, relocate and flip, once the marks are right. */
    method Evacuate(roots: array<nat>)
      requires Valid() && Collecting(fromObjects, fromMarks, fromBase, toBase, spaceSize)
      modifies this, roots
      ensures Valid() && generations == old(generations) + 1 && totalAlloc == old(totalAlloc)
      ensures fromObjects == Copies(old(fromObjects), old(fromMarks), old(toBase), |old(fromObjects)|)
      ensures fromBase == old(toBase) && toBase == old(fromBase)
      ensures roots[..] == MovedRoots(old(fromObjects), old(fromMarks), old(fromBase), old(toBase), old(roots[..]))
    {
      ghost var objs := fromObjects;
      assert objs[..|objs|] == objs;
      CopiesShape(objs, fromMarks, toBase, |objs|);
      var freed := CopyMarked();
      PatchedBytes(objs, fromMarks, toBase);
      RelocateRoots(roots, objs);
      totalFreed := totalFreed + freed;
      generations := generations + 1;
      Flip();
    }

    /**
     A whole collection.  `marks` is the reachable set; the new table is the table of the
     survivors' copies, and every root is relocated as MovedRoots says.
     */
    method Collect(roots: array<nat>) returns (ghost marks: seq<bool>)
      requires Valid()
      modifies this, roots
      ensures Valid() && generations == old(generations) + 1 && totalAlloc == old(totalAlloc)
      ensures |marks| == |old(fromObjects)|
      ensures forall j: nat :: j < |marks| ==>
                (marks[j] <==> Reachable(old(fromObjects), old(roots[..]), j))
      ensures old(fromUsed) == 0 ==> fromObjects == old(fromObjects) && roots[..] == old(roots[..])
      ensures old(fromUsed) != 0 ==>
                && Collecting(old(fromObjects), marks, old(fromBase), old(toBase), spaceSize)
                && fromObjects == Copies(old(fromObjects), marks, old(toBase), |marks|)
                && fromBase == old(toBase) && toBase == old(fromBase)
                && roots[..] == MovedRoots(old(fromObjects), marks, old(fromBase), old(toBase), old(roots[..]))
      ensures RootsKept(old(fromObjects), old(roots[..]), marks, old(fromBase), old(toBase), fromObjects, roots[..])
    {
      ghost var objs, before := fromObjects, roots[..];
      if fromUsed == 0 {
        EmptySpace(fromObjects);
        marks := [];
        generations := generations + 1;
      } else {
        Mark(roots[..]);
        marks := fromMarks;
        Evacuate(roots);
        KeepsRoots(objs, before, marks, old(fromBase), old(toBase), spaceSize);
      }
    }
  }

  /**
   Object `j` has survived; if it only points back, `root` is the data pointer of an object
   of its size in the table `after`, which holds its words, forwarded.
   */
  ghost predicate Kept(objs: seq<Obj>, marks: seq<bool>, fb: nat, tb: nat, j: nat, after: seq<Obj>, root: nat) {
    && j < |objs| == |marks| && marks[j]
    && (PointsBack(objs, fb, j) ==>
          exists k :: 0 <= k < |after| && root == after[k].addr + 8 && |after[k].words| == |objs[j].words|
            && after[k].words == ForwardAll(objs, marks, tb, |objs|, objs[j].words))
  }

  /** So it is for every root 8 behind an object's address. */
  ghost predicate RootsKept(objs: seq<Obj>, roots: seq<nat>, marks: seq<bool>, fb: nat, tb: nat,
                            after: seq<Obj>, roots': seq<nat>) {
    && |roots'| == |roots|
    && forall i: nat, j: nat :: Rooted(objs, roots, i, j) ==> Kept(objs, marks, fb, tb, j, after, roots'[i])
  }

  lemma KeepsRoots(objs: seq<Obj>, roots: seq<nat>, marks: seq<bool>, fb: nat, tb: nat, size: nat)
    requires Collecting(objs, marks, fb, tb, size)
    requires forall h: nat :: h < |objs| ==> (marks[h] <==> Reachable(objs, roots, h))
    ensures RootsKept(objs, roots, marks, fb, tb, Copies(objs, marks, tb, |objs|), MovedRoots(objs, marks, fb, tb, roots))
  {
    forall i: nat, j: nat | Rooted(objs, roots, i, j)
      ensures Kept(objs, marks, fb, tb, j, Copies(objs, marks, tb, |objs|), MovedRoots(objs, marks, fb, tb, roots)[i])
    {
      RootsSurvive(objs, roots, marks, fb, tb, size, i, j);
    }
  }

  lemma EmptySpace(objs: seq<Obj>)
    requires TotalBytes(objs) == 0
    ensures objs == []
  {
  }

  lemma PatchedBytes(objs: seq<Obj>, marks: seq<bool>, tb: nat)
    requires |marks| == |objs|
    ensures TotalBytes(Patched(objs, marks, tb, |objs|)) == TotalBytes(objs)
  {
    SameSizes(Patched(objs, marks, tb, |objs|), objs);
  }

  lemma SurvivorFits(objs: seq<Obj>, marks: seq<bool>, fb: nat, i: nat, size: nat)
    requires Tiled(objs, fb) && TotalBytes(objs) <= size && i < |objs| == |marks| && marks[i]
    ensures LiveBytes(objs, marks, i) + objs[i].Bytes() <= size
  {
    LiveMonotone(objs, marks, i, |objs|);
    assert objs[..|objs|] == objs;
  }

  /** What one more survivor adds. */
  lemma SurvivorStep(objs: seq<Obj>, marks: seq<bool>, fb: nat, tb: nat, size: nat, i: nat)
    requires Collecting(objs, marks, fb, tb, size) && i < |objs| && marks[i]
    ensures var o, at := Patched(objs, marks, tb, i)[i], NewAddr(objs, marks, tb, i);
            && LiveBytes(objs, marks, i) + o.Bytes() <= size
            && LiveBytes(objs, marks, i + 1) == LiveBytes(objs, marks, i) + o.Bytes()
            && TotalBytes(objs[..i + 1]) == TotalBytes(objs[..i]) + o.Bytes()
            && Copies(objs, marks, tb, i + 1) == Copies(objs, marks, tb, i) + [Obj(at, o.words)]
            && Patch(Patched(objs, marks, tb, i), marks, o.Data(), at + 8) == Patched(objs, marks, tb, i + 1)
  {
    SurvivorFits(objs, marks, fb, i, size);
    TotalPrefix(objs, i);
    PatchAdvances(objs, marks, fb, tb, size, i);
  }

  lemma NothingPatched(objs: seq<Obj>, marks: seq<bool>, tb: nat)
    requires |marks| == |objs|
    ensures Patched(objs, marks, tb, 0) == objs
  {
    forall j | 0 <= j < |objs| ensures Patched(objs, marks, tb, 0)[j] == objs[j] {
      assert ForwardAll(objs, marks, tb, 0, objs[j].words) == objs[j].words;
    }
  }

  lemma UnmarkedKeepsPatched(objs: seq<Obj>, marks: seq<bool>, tb: nat, n: nat)
    requires n < |objs| == |marks| && !marks[n]
    ensures Patched(objs, marks, tb, n + 1) == Patched(objs, marks, tb, n)
  {
    forall j | 0 <= j < |objs| && marks[j]
      ensures ForwardAll(objs, marks, tb, n + 1, objs[j].words) == ForwardAll(objs, marks, tb, n, objs[j].words)
    {
    }
  }

  function PageAlign(size: nat): (a: nat)
    ensures a % 4096 == 0 && size <= a < size + 4096
  {
    (size + 4095) / 4096 * 4096
  }
}
