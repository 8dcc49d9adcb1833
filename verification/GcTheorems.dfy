/**
 What a collection preserves, stated about the table before (`objs`, at `fb`), the
 mark column, and the table after (`Copies`, at `tb`).
 */
module GcTheorems {
  import opened GcModel

  /** The situation a collection is in when it starts copying. */
  ghost predicate Collecting(objs: seq<Obj>, marks: seq<bool>, fb: nat, tb: nat, size: nat) {
    && |marks| == |objs| && Tiled(objs, fb) && TotalBytes(objs) <= size && Apart(fb, tb, size)
    && forall i: nat, j: nat :: PointsInto(objs, i, j) && marks[i] ==> marks[j]
  }

  ghost predicate InUse(objs: seq<Obj>, fb: nat, w: nat) {
    fb <= w < fb + TotalBytes(objs)
  }

  /** Every from-space word of object `i` is the data pointer of a strictly earlier object. */
  ghost predicate PointsBack(objs: seq<Obj>, fb: nat, i: nat) {
    i < |objs| && forall k :: 0 <= k < |objs[i].words| && InUse(objs, fb, objs[i].words[k]) ==>
      HeaderOf(objs, objs[i].words[k]) < i
  }

  ghost predicate AllPointBack(objs: seq<Obj>, marks: seq<bool>, fb: nat) {
    |marks| == |objs| && forall i :: 0 <= i < |objs| && marks[i] ==> PointsBack(objs, fb, i)
  }

  /** No word of the object still points into the space that was left. */
  ghost predicate NoStaleWord(o: Obj, objs: seq<Obj>, fb: nat) {
    forall k :: 0 <= k < |o.words| ==> !InUse(objs, fb, o.words[k])
  }

  function CopyOf(objs: seq<Obj>, marks: seq<bool>, tb: nat, i: nat): Obj
    requires i < |objs| == |marks|
  {
    Obj(NewAddr(objs, marks, tb, i), ForwardAll(objs, marks, tb, i, objs[i].words))
  }

  /** A word of a survivor is fresh after forwarding exactly when it was back-pointing or foreign. */
  lemma ForwardedWordStale(objs: seq<Obj>, marks: seq<bool>, fb: nat, tb: nat, size: nat, i: nat, k: nat)
    requires Collecting(objs, marks, fb, tb, size)
    requires i < |objs| && marks[i] && k < |objs[i].words|
    ensures var w := objs[i].words[k];
            InUse(objs, fb, Forward(objs, marks, tb, i, w)) <==> (InUse(objs, fb, w) && HeaderOf(objs, w) >= i)
  {
    var w := objs[i].words[k];
    var j := HeaderOf(objs, w);
    if j < |objs| {
      TiledBounds(objs, fb, j);
      assert objs[j].Contains(w);
      assert PointsInto(objs, i, j);
      ForwardedIsFresh(objs, marks, fb, tb, size, j);
    }
  }

  /**
   Exactly when collection leaves no dangling word: every survivor's copy is free of
   pointers into the old space if and only if every survivor only points back, to the
   data start of objects allocated strictly before it.
   */
  lemma NoStaleIffPointsBack(objs: seq<Obj>, marks: seq<bool>, fb: nat, tb: nat, size: nat)
    requires Collecting(objs, marks, fb, tb, size)
    ensures (forall i :: 0 <= i < |objs| && marks[i] ==> NoStaleWord(CopyOf(objs, marks, tb, i), objs, fb))
            <==> AllPointBack(objs, marks, fb)
  {
    forall i | 0 <= i < |objs| && marks[i]
      ensures NoStaleWord(CopyOf(objs, marks, tb, i), objs, fb) <==> PointsBack(objs, fb, i)
    {
      CopyStale(objs, marks, fb, tb, size, i);
    }
  }

  lemma CopyStale(objs: seq<Obj>, marks: seq<bool>, fb: nat, tb: nat, size: nat, i: nat)
    requires Collecting(objs, marks, fb, tb, size)
    requires i < |objs| && marks[i]
    ensures NoStaleWord(CopyOf(objs, marks, tb, i), objs, fb) <==> PointsBack(objs, fb, i)
  {
    var c := CopyOf(objs, marks, tb, i);
    forall k | 0 <= k < |c.words|
      ensures InUse(objs, fb, c.words[k]) <==>
              (InUse(objs, fb, objs[i].words[k]) && HeaderOf(objs, objs[i].words[k]) >= i)
    {
      ForwardedWordStale(objs, marks, fb, tb, size, i, k);
    }
  }

  /** Under the back-pointing discipline the copy is the fully forwarded original. */
  lemma CopyIsFullyForwarded(objs: seq<Obj>, marks: seq<bool>, fb: nat, tb: nat, size: nat, i: nat)
    requires Collecting(objs, marks, fb, tb, size)
    requires i < |objs| && marks[i] && PointsBack(objs, fb, i)
    ensures ForwardAll(objs, marks, tb, i, objs[i].words) == ForwardAll(objs, marks, tb, |objs|, objs[i].words)
  {
    forall k | 0 <= k < |objs[i].words|
      ensures Forward(objs, marks, tb, i, objs[i].words[k]) == Forward(objs, marks, tb, |objs|, objs[i].words[k])
    {
      var j := HeaderOf(objs, objs[i].words[k]);
      if j < |objs| { TiledBounds(objs, fb, j); }
    }
  }

  /** A word that is not a pointer must not happen to lie where the copies will be. */
  ghost predicate AvoidsSpace(o: Obj, tb: nat, size: nat) {
    forall k :: 0 <= k < |o.words| ==> !(tb <= o.words[k] < tb + size)
  }

  /**
   Collection preserves the object graph: when survivors only point back, the copy of
   `i` points into the copy of `j` if and only if `i` pointed into `j`.
   */
  lemma GraphPreserved(objs: seq<Obj>, marks: seq<bool>, fb: nat, tb: nat, size: nat, i: nat, j: nat)
    requires Collecting(objs, marks, fb, tb, size) && AllPointBack(objs, marks, fb)
    requires i < |objs| && j < |objs| && marks[i] && marks[j]
    requires AvoidsSpace(objs[i], tb, size)
    ensures var copies := Copies(objs, marks, tb, |objs|);
            PointsInto(copies, Rank(marks, i), Rank(marks, j)) <==> PointsInto(objs, i, j)
  {
    var copies := Copies(objs, marks, tb, |objs|);
    CopyAtRank(objs, marks, tb, |objs|, i);
    CopyAtRank(objs, marks, tb, |objs|, j);
    assert copies[Rank(marks, i)] == CopyOf(objs, marks, tb, i);
    assert copies[Rank(marks, j)] == CopyOf(objs, marks, tb, j);
    forall k | 0 <= k < |objs[i].words|
      ensures copies[Rank(marks, j)].Contains(copies[Rank(marks, i)].words[k]) <==>
              objs[j].Contains(objs[i].words[k])
    {
      EdgeKept(objs, marks, fb, tb, size, i, j, k);
    }
  }

  lemma EdgeKept(objs: seq<Obj>, marks: seq<bool>, fb: nat, tb: nat, size: nat, i: nat, j: nat, k: nat)
    requires Collecting(objs, marks, fb, tb, size) && AllPointBack(objs, marks, fb)
    requires i < |objs| && j < |objs| && marks[i] && marks[j]
    requires AvoidsSpace(objs[i], tb, size) && k < |objs[i].words|
    ensures CopyOf(objs, marks, tb, j).Contains(Forward(objs, marks, tb, i, objs[i].words[k])) <==>
            objs[j].Contains(objs[i].words[k])
  {
    var w := objs[i].words[k];
    assert PointsBack(objs, fb, i);
    TiledBounds(objs, fb, j);
    CopyBounds(objs, marks, fb, tb, size, j);
    var h := HeaderOf(objs, w);
    if h < |objs| {
      TiledBounds(objs, fb, h);
      assert objs[h].Contains(w);
      assert PointsInto(objs, i, h);
      CopyBounds(objs, marks, fb, tb, size, h);
      if objs[j].Contains(w) { TiledDisjoint(objs, fb, h, j, w); }
      if h < j { LiveMonotone(objs, marks, h, j); }
      if j < h { LiveMonotone(objs, marks, j, h); }
    }
  }

  lemma CopyBounds(objs: seq<Obj>, marks: seq<bool>, fb: nat, tb: nat, size: nat, j: nat)
    requires Collecting(objs, marks, fb, tb, size) && j < |objs| && marks[j]
    ensures tb <= NewAddr(objs, marks, tb, j)
    ensures NewAddr(objs, marks, tb, j) + objs[j].Bytes() <= tb + size
  {
    LiveMonotone(objs, marks, j, |objs|);
    assert objs[..|objs|] == objs;
  }

  // ------------------------------------------------------------ roots

  /** Roots are relocated by content: the first copy with these words, or `|copies|`. */
  function FirstWith(copies: seq<Obj>, ws: seq<nat>): (k: nat)
    ensures k <= |copies|
    ensures k < |copies| ==> copies[k].words == ws
    ensures forall i :: 0 <= i < k ==> copies[i].words != ws
  {
    if copies == [] then 0
    else if copies[0].words == ws then 0
    else
      var k := FirstWith(copies[1..], ws);
      assert forall i :: 1 <= i < k + 1 ==> copies[i] == copies[1..][i - 1];
      k + 1
  }

  /** What a non-null root becomes after the copies were made. */
  function NewRoot(objs: seq<Obj>, marks: seq<bool>, fb: nat, tb: nat, r: nat): nat
    requires |marks| == |objs|
  {
    var copies := Copies(objs, marks, tb, |objs|);
    var patched := Patched(objs, marks, tb, |objs|);
    if fb <= r < fb + TotalBytes(objs) then
      var j := HeaderOf(patched, r);
      if j < |objs| && marks[j] then Relocate(copies, patched[j].words, r) else r
    else if tb <= r < tb + TotalBytes(copies) then
      var j := HeaderOf(copies, r);
      if j < |copies| then Relocate(copies, copies[j].words, r) else r
    else r
  }

  /** Null roots are skipped. */
  function MovedRoots(objs: seq<Obj>, marks: seq<bool>, fb: nat, tb: nat, roots: seq<nat>): (r: seq<nat>)
    requires |marks| == |objs|
    ensures |r| == |roots|
  {
    seq(|roots|, i requires 0 <= i < |roots| => if roots[i] == 0 then 0 else NewRoot(objs, marks, fb, tb, roots[i]))
  }

  function Relocate(copies: seq<Obj>, ws: seq<nat>, r: nat): nat {
    var k := FirstWith(copies, ws);
    if k < |copies| then copies[k].Data() else r
  }

  lemma PatchedHeader(objs: seq<Obj>, marks: seq<bool>, tb: nat, w: nat)
    requires |marks| == |objs|
    ensures HeaderOf(Patched(objs, marks, tb, |objs|), w) == HeaderOf(objs, w)
  {
    var p := Patched(objs, marks, tb, |objs|);
    assert forall i :: 0 <= i < |objs| ==> p[i].Data() == objs[i].Data();
    var a, b := HeaderOf(p, w), HeaderOf(objs, w);
    assert a < |objs| ==> objs[a].Data() == w;
    assert b < |objs| ==> p[b].Data() == w;
  }

  /**
   Roots stay valid: an exact root to a survivor `j` that only points back becomes the
   data pointer of a copy whose contents are `j`'s contents, forwarded.
   */
  lemma RootRelocated(objs: seq<Obj>, marks: seq<bool>, fb: nat, tb: nat, size: nat, j: nat)
    requires Collecting(objs, marks, fb, tb, size)
    requires j < |objs| && marks[j] && PointsBack(objs, fb, j)
    ensures var copies := Copies(objs, marks, tb, |objs|);
            var k := FirstWith(copies, ForwardAll(objs, marks, tb, |objs|, objs[j].words));
            && k <= Rank(marks, j) < |copies|
            && copies[k].words == ForwardAll(objs, marks, tb, |objs|, objs[j].words)
            && NewRoot(objs, marks, fb, tb, objs[j].Data()) == copies[k].Data()
  {
    var copies := Copies(objs, marks, tb, |objs|);
    CopyIsFullyForwarded(objs, marks, fb, tb, size, j);
    CopyAtRank(objs, marks, tb, |objs|, j);
    TiledBounds(objs, fb, j);
    HeaderUnique(objs, fb, j);
    PatchedHeader(objs, marks, tb, objs[j].Data());
  }

  /** A root that is nobody's data pointer is left alone, wherever it points, except into the new copies. */
  lemma OtherRootsStay(objs: seq<Obj>, marks: seq<bool>, fb: nat, tb: nat, r: nat)
    requires |marks| == |objs| && forall j :: 0 <= j < |objs| ==> objs[j].addr + 8 != r
    requires !(tb <= r < tb + TotalBytes(Copies(objs, marks, tb, |objs|)))
    ensures NewRoot(objs, marks, fb, tb, r) == r
  {
    PatchedHeader(objs, marks, tb, r);
  }

  /** Every root that is an object's data pointer keeps that object, and afterwards is the data pointer of such a copy. */
  lemma RootsSurvive(objs: seq<Obj>, roots: seq<nat>, marks: seq<bool>, fb: nat, tb: nat, size: nat, i: nat, j: nat)
    requires Collecting(objs, marks, fb, tb, size) && Rooted(objs, roots, i, j)
    requires forall h: nat :: h < |objs| ==> (marks[h] <==> Reachable(objs, roots, h))
    ensures marks[j]
    ensures PointsBack(objs, fb, j) ==>
              var copies := Copies(objs, marks, tb, |objs|);
              exists k :: 0 <= k < |copies| && MovedRoots(objs, marks, fb, tb, roots)[i] == copies[k].addr + 8
                && copies[k].words == ForwardAll(objs, marks, tb, |objs|, objs[j].words)
  {
    RootReachable(objs, roots, j);
    if PointsBack(objs, fb, j) {
      RootRelocated(objs, marks, fb, tb, size, j);
      var copies := Copies(objs, marks, tb, |objs|);
      var k := FirstWith(copies, ForwardAll(objs, marks, tb, |objs|, objs[j].words));
      assert MovedRoots(objs, marks, fb, tb, roots)[i] == copies[k].addr + 8;
    }
  }

  /** ... and it is `j`'s own copy exactly when no earlier survivor's copy has the same contents. */
  lemma RootIsOwnCopyIff(objs: seq<Obj>, marks: seq<bool>, fb: nat, tb: nat, size: nat, j: nat)
    requires Collecting(objs, marks, fb, tb, size)
    requires j < |objs| && marks[j] && PointsBack(objs, fb, j)
    ensures NewRoot(objs, marks, fb, tb, objs[j].Data()) == CopyOf(objs, marks, tb, j).Data()
            <==> (forall i :: 0 <= i < j && marks[i] ==>
                    CopyOf(objs, marks, tb, i).words != CopyOf(objs, marks, tb, j).words)
  {
    var k := FirstWith(Copies(objs, marks, tb, |objs|), CopyOf(objs, marks, tb, j).words);
    RootAtRank(objs, marks, fb, tb, size, j);
    if k < Rank(marks, j) {
      EarlierTwin(objs, marks, tb, j, k);
    } else {
      NoEarlierTwin(objs, marks, tb, j, k);
    }
  }

  /** The root becomes the first copy with the contents of `j`'s own copy. */
  lemma RootAtRank(objs: seq<Obj>, marks: seq<bool>, fb: nat, tb: nat, size: nat, j: nat)
    requires Collecting(objs, marks, fb, tb, size)
    requires j < |objs| && marks[j] && PointsBack(objs, fb, j)
    ensures var copies := Copies(objs, marks, tb, |objs|);
            var k := FirstWith(copies, CopyOf(objs, marks, tb, j).words);
            && k <= Rank(marks, j) < |copies| && NewRoot(objs, marks, fb, tb, objs[j].Data()) == copies[k].Data()
            && copies[Rank(marks, j)] == CopyOf(objs, marks, tb, j)
            && copies[k].words == CopyOf(objs, marks, tb, j).words
  {
    RootRelocated(objs, marks, fb, tb, size, j);
    CopyIsFullyForwarded(objs, marks, fb, tb, size, j);
    CopyAtRank(objs, marks, tb, |objs|, j);
  }

  /** A copy before `j`'s rank belongs to a survivor before `j`, and lies elsewhere. */
  lemma EarlierTwin(objs: seq<Obj>, marks: seq<bool>, tb: nat, j: nat, k: nat)
    requires |marks| == |objs| && j < |objs| && marks[j] && k < Rank(marks, j)
    requires forall i :: 0 <= i < |objs| ==> objs[i].words != []
    ensures var copies := Copies(objs, marks, tb, |objs|);
            && k < |copies| && copies[k].Data() != CopyOf(objs, marks, tb, j).Data()
            && exists i :: 0 <= i < j && marks[i] && CopyOf(objs, marks, tb, i).words == copies[k].words
  {
    var copies := Copies(objs, marks, tb, |objs|);
    CopiesShape(objs, marks, tb, |objs|);
    CopyAtRank(objs, marks, tb, |objs|, j);
    TiledOrder(copies, tb, k, Rank(marks, j));
    var i := SurvivorOfRank(objs, marks, |objs|, k);
    CopyAtRank(objs, marks, tb, |objs|, i);
    if i >= j { RankMonotone(marks, j, i); }
    assert CopyOf(objs, marks, tb, i).words == copies[k].words;
  }

  lemma NoEarlierTwin(objs: seq<Obj>, marks: seq<bool>, tb: nat, j: nat, k: nat)
    requires |marks| == |objs| && j < |objs| && marks[j]
    requires forall i :: 0 <= i < |objs| ==> objs[i].words != []
    requires var copies := Copies(objs, marks, tb, |objs|);
             var ws := CopyOf(objs, marks, tb, j).words;
             k == FirstWith(copies, ws) >= Rank(marks, j)
    ensures forall i :: 0 <= i < j && marks[i] ==>
              CopyOf(objs, marks, tb, i).words != CopyOf(objs, marks, tb, j).words
  {
    var copies := Copies(objs, marks, tb, |objs|);
    forall i | 0 <= i < j && marks[i]
      ensures CopyOf(objs, marks, tb, i).words != CopyOf(objs, marks, tb, j).words
    {
      CopyAtRank(objs, marks, tb, |objs|, i);
      RankMonotone(marks, i, j);
      assert copies[Rank(marks, i)].words == CopyOf(objs, marks, tb, i).words;
    }
  }

  // ------------------------------------------------------------ exactly when a root moves, and where to

  /** Everything a survivor's words could be mistaken for lies elsewhere. */
  ghost predicate NoMistakes(objs: seq<Obj>, marks: seq<bool>, tb: nat, size: nat) {
    |marks| == |objs| && forall i :: 0 <= i < |objs| && marks[i] ==> AvoidsSpace(objs[i], tb, size)
  }

  /** Every word of `i` that is an exact data pointer is that of an earlier object. */
  ghost predicate Settled(objs: seq<Obj>, i: nat)
    requires i < |objs|
  {
    forall k :: 0 <= k < |objs[i].words| ==>
      HeaderOf(objs, objs[i].words[k]) < i || HeaderOf(objs, objs[i].words[k]) == |objs|
  }

  /** A survivor with the words of `j` whose copy has all its pointers forwarded. */
  ghost predicate Twin(objs: seq<Obj>, marks: seq<bool>, i: nat, j: nat)
    requires j < |objs| == |marks|
  {
    i < |objs| && marks[i] && objs[i].words == objs[j].words && Settled(objs, i)
  }

  /** Two survivors' words forward to the same word only if they are the same and both forwarded or neither. */
  lemma SameForwarded(objs: seq<Obj>, marks: seq<bool>, fb: nat, tb: nat, size: nat, i: nat, j: nat, k: nat)
    requires Collecting(objs, marks, fb, tb, size) && NoMistakes(objs, marks, tb, size)
    requires i < |objs| && j < |objs| && marks[i] && marks[j] && k < |objs[i].words| && k < |objs[j].words|
    ensures var v, w := objs[i].words[k], objs[j].words[k];
            Forward(objs, marks, tb, i, v) == Forward(objs, marks, tb, |objs|, w)
            <==> v == w && (HeaderOf(objs, v) < i || HeaderOf(objs, v) == |objs|)
  {
    var v, w := objs[i].words[k], objs[j].words[k];
    PointerForwards(objs, marks, fb, tb, size, i, k);
    PointerForwards(objs, marks, fb, tb, size, j, k);
    var a, b := HeaderOf(objs, v), HeaderOf(objs, w);
    if a < b < |objs| { LiveMonotone(objs, marks, a, b); }
    if b < a < |objs| { LiveMonotone(objs, marks, b, a); }
  }

  /** An exact pointer in a survivor leads to a survivor, whose copy lies in the new space; no other word does. */
  lemma PointerForwards(objs: seq<Obj>, marks: seq<bool>, fb: nat, tb: nat, size: nat, i: nat, k: nat)
    requires Collecting(objs, marks, fb, tb, size) && NoMistakes(objs, marks, tb, size)
    requires i < |objs| && marks[i] && k < |objs[i].words|
    ensures var w := objs[i].words[k];
            var h := HeaderOf(objs, w);
            !(tb <= w < tb + size) && (h < |objs| ==> marks[h] && tb <= NewAddr(objs, marks, tb, h) + 8 < tb + size)
  {
    var w := objs[i].words[k];
    assert AvoidsSpace(objs[i], tb, size);
    var h := HeaderOf(objs, w);
    if h < |objs| {
      TiledBounds(objs, fb, h);
      assert objs[h].Contains(w);
      assert PointsInto(objs, i, h);
      ForwardedIsFresh(objs, marks, fb, tb, size, h);
    }
  }

  /** The copy of `i` has the contents a root to `j` is looked up by if and only if `i` is a twin of `j`. */
  lemma MatchesIffTwin(objs: seq<Obj>, marks: seq<bool>, fb: nat, tb: nat, size: nat, i: nat, j: nat)
    requires Collecting(objs, marks, fb, tb, size) && NoMistakes(objs, marks, tb, size)
    requires i < |objs| && j < |objs| && marks[i] && marks[j]
    ensures CopyOf(objs, marks, tb, i).words == ForwardAll(objs, marks, tb, |objs|, objs[j].words)
            <==> Twin(objs, marks, i, j)
  {
    var a, b := CopyOf(objs, marks, tb, i).words, ForwardAll(objs, marks, tb, |objs|, objs[j].words);
    if |objs[i].words| == |objs[j].words| {
      forall k | 0 <= k < |objs[i].words|
        ensures a[k] == b[k] <==>
                objs[i].words[k] == objs[j].words[k]
                && (HeaderOf(objs, objs[i].words[k]) < i || HeaderOf(objs, objs[i].words[k]) == |objs|)
      {
        SameForwarded(objs, marks, fb, tb, size, i, j, k);
      }
      if a == b {
        forall k | 0 <= k < |objs[i].words| ensures objs[i].words[k] == objs[j].words[k] {
          assert a[k] == b[k];
        }
      }
    }
  }

  /** A twin's copy sits at its rank and matches. */
  lemma TwinRank(objs: seq<Obj>, marks: seq<bool>, fb: nat, tb: nat, size: nat, i: nat, j: nat)
    requires Collecting(objs, marks, fb, tb, size) && NoMistakes(objs, marks, tb, size)
    requires j < |objs| && marks[j] && Twin(objs, marks, i, j)
    ensures FirstWith(Copies(objs, marks, tb, |objs|), ForwardAll(objs, marks, tb, |objs|, objs[j].words))
            <= Rank(marks, i) < |Copies(objs, marks, tb, |objs|)|
  {
    CopyAtRank(objs, marks, tb, |objs|, i);
    MatchesIffTwin(objs, marks, fb, tb, size, i, j);
  }

  lemma LookedUpByContent(objs: seq<Obj>, marks: seq<bool>, fb: nat, tb: nat, size: nat, j: nat)
    requires Collecting(objs, marks, fb, tb, size) && j < |objs| && marks[j]
    ensures NewRoot(objs, marks, fb, tb, objs[j].Data())
            == Relocate(Copies(objs, marks, tb, |objs|), ForwardAll(objs, marks, tb, |objs|, objs[j].words), objs[j].Data())
  {
    TiledBounds(objs, fb, j);
    HeaderUnique(objs, fb, j);
    PatchedHeader(objs, marks, tb, objs[j].Data());
  }

  /** A copy that matches is a twin's. */
  lemma MatchIsTwin(objs: seq<Obj>, marks: seq<bool>, fb: nat, tb: nat, size: nat, j: nat) returns (i: nat)
    requires Collecting(objs, marks, fb, tb, size) && NoMistakes(objs, marks, tb, size)
    requires j < |objs| && marks[j]
    requires FirstWith(Copies(objs, marks, tb, |objs|), ForwardAll(objs, marks, tb, |objs|, objs[j].words))
             < |Copies(objs, marks, tb, |objs|)|
    ensures Twin(objs, marks, i, j)
    ensures Rank(marks, i)
            == FirstWith(Copies(objs, marks, tb, |objs|), ForwardAll(objs, marks, tb, |objs|, objs[j].words))
    ensures Copies(objs, marks, tb, |objs|)[Rank(marks, i)] == CopyOf(objs, marks, tb, i)
  {
    var copies := Copies(objs, marks, tb, |objs|);
    CopiesCount(objs, marks, tb, |objs|);
    i := SurvivorOfRank(objs, marks, |objs|, FirstWith(copies, ForwardAll(objs, marks, tb, |objs|, objs[j].words)));
    CopyAtRank(objs, marks, tb, |objs|, i);
    MatchesIffTwin(objs, marks, fb, tb, size, i, j);
  }

  lemma MovesToTwin(objs: seq<Obj>, marks: seq<bool>, fb: nat, tb: nat, size: nat, i: nat, j: nat)
    requires Collecting(objs, marks, fb, tb, size) && NoMistakes(objs, marks, tb, size)
    requires j < |objs| && marks[j] && Twin(objs, marks, i, j)
    requires forall h :: 0 <= h < i ==> !Twin(objs, marks, h, j)
    ensures NewRoot(objs, marks, fb, tb, objs[j].Data()) == CopyOf(objs, marks, tb, i).Data()
  {
    LookedUpByContent(objs, marks, fb, tb, size, j);
    TwinRank(objs, marks, fb, tb, size, i, j);
    var h := MatchIsTwin(objs, marks, fb, tb, size, j);
    if i < h { RankMonotone(marks, i, h); }
  }

  lemma MovesIff(objs: seq<Obj>, marks: seq<bool>, fb: nat, tb: nat, size: nat, j: nat)
    requires Collecting(objs, marks, fb, tb, size) && NoMistakes(objs, marks, tb, size)
    requires j < |objs| && marks[j]
    ensures NewRoot(objs, marks, fb, tb, objs[j].Data()) == objs[j].Data()
            <==> forall i :: 0 <= i < |objs| ==> !Twin(objs, marks, i, j)
  {
    var copies, ws := Copies(objs, marks, tb, |objs|), ForwardAll(objs, marks, tb, |objs|, objs[j].words);
    LookedUpByContent(objs, marks, fb, tb, size, j);
    if FirstWith(copies, ws) < |copies| {
      var i := MatchIsTwin(objs, marks, fb, tb, size, j);
      CopyBounds(objs, marks, fb, tb, size, i);
      TiledBounds(objs, fb, j);
    } else {
      forall i | 0 <= i < |objs| ensures !Twin(objs, marks, i, j) {
        if Twin(objs, marks, i, j) { TwinRank(objs, marks, fb, tb, size, i, j); }
      }
    }
  }

  /**
   A root to survivor `j` moves to the copy of its first twin; without a twin it is left
   dangling in the old space.  Survivors may point anywhere in from-space, but none of
   their words may lie in to-space already.
   */
  lemma RootMovesToFirstTwin(objs: seq<Obj>, marks: seq<bool>, fb: nat, tb: nat, size: nat, j: nat)
    requires Collecting(objs, marks, fb, tb, size) && NoMistakes(objs, marks, tb, size)
    requires j < |objs| && marks[j]
    ensures NewRoot(objs, marks, fb, tb, objs[j].Data()) == objs[j].Data()
            <==> forall i :: 0 <= i < |objs| ==> !Twin(objs, marks, i, j)
    ensures forall i: nat :: Twin(objs, marks, i, j) && (forall h :: 0 <= h < i ==> !Twin(objs, marks, h, j)) ==>
              NewRoot(objs, marks, fb, tb, objs[j].Data()) == CopyOf(objs, marks, tb, i).Data()
  {
    MovesIff(objs, marks, fb, tb, size, j);
    forall i: nat | Twin(objs, marks, i, j) && (forall h :: 0 <= h < i ==> !Twin(objs, marks, h, j))
      ensures NewRoot(objs, marks, fb, tb, objs[j].Data()) == CopyOf(objs, marks, tb, i).Data()
    {
      MovesToTwin(objs, marks, fb, tb, size, i, j);
    }
  }

  /**
   In terms of the objects themselves: where everything points back, a root moves to its
   own object's copy if and only if no earlier survivor has equal contents.
   */
  lemma OwnCopyIffFirstOfItsContents(objs: seq<Obj>, marks: seq<bool>, fb: nat, tb: nat, size: nat, j: nat)
    requires Collecting(objs, marks, fb, tb, size) && NoMistakes(objs, marks, tb, size)
    requires AllPointBack(objs, marks, fb) && j < |objs| && marks[j]
    ensures NewRoot(objs, marks, fb, tb, objs[j].Data()) == CopyOf(objs, marks, tb, j).Data()
            <==> forall i :: 0 <= i < j && marks[i] ==> objs[i].words != objs[j].words
  {
    forall i | 0 <= i <= j && marks[i] ensures Settled(objs, i) {
      PointingBackSettles(objs, marks, fb, i);
    }
    RootIsOwnCopyIff(objs, marks, fb, tb, size, j);
    CopyIsFullyForwarded(objs, marks, fb, tb, size, j);
    forall i | 0 <= i < j && marks[i]
      ensures CopyOf(objs, marks, tb, i).words == CopyOf(objs, marks, tb, j).words <==> objs[i].words == objs[j].words
    {
      MatchesIffTwin(objs, marks, fb, tb, size, i, j);
    }
  }

  lemma PointingBackSettles(objs: seq<Obj>, marks: seq<bool>, fb: nat, i: nat)
    requires Tiled(objs, fb) && i < |objs| == |marks| && PointsBack(objs, fb, i)
    ensures Settled(objs, i)
  {
    forall k | 0 <= k < |objs[i].words|
      ensures HeaderOf(objs, objs[i].words[k]) < i || HeaderOf(objs, objs[i].words[k]) == |objs|
    {
      var h := HeaderOf(objs, objs[i].words[k]);
      if h < |objs| { TiledBounds(objs, fb, h); }
    }
  }

  // ------------------------------------------------------------ a discipline that lasts

  /** Every word is the data pointer of an earlier object, or lies outside both halves of the heap. */
  ghost predicate Clean(objs: seq<Obj>, fb: nat, tb: nat, size: nat, i: nat)
    requires i < |objs|
  {
    forall k :: 0 <= k < |objs[i].words| ==>
      var w := objs[i].words[k];
      HeaderOf(objs, w) < i || (!(fb <= w < fb + size) && !(tb <= w < tb + size))
  }

  ghost predicate AllClean(objs: seq<Obj>, fb: nat, tb: nat, size: nat) {
    forall i :: 0 <= i < |objs| ==> Clean(objs, fb, tb, size, i)
  }

  /** Clean objects meet everything the theorems above ask for. */
  lemma CleanIsDisciplined(objs: seq<Obj>, marks: seq<bool>, fb: nat, tb: nat, size: nat)
    requires Collecting(objs, marks, fb, tb, size) && AllClean(objs, fb, tb, size)
    ensures AllPointBack(objs, marks, fb) && NoMistakes(objs, marks, tb, size)
  {
    forall i | 0 <= i < |objs| ensures PointsBack(objs, fb, i) && AvoidsSpace(objs[i], tb, size) {
      CleanObject(objs, fb, tb, size, i);
    }
  }

  lemma CleanObject(objs: seq<Obj>, fb: nat, tb: nat, size: nat, i: nat)
    requires Tiled(objs, fb) && TotalBytes(objs) <= size && Apart(fb, tb, size)
    requires i < |objs| && Clean(objs, fb, tb, size, i)
    ensures PointsBack(objs, fb, i) && AvoidsSpace(objs[i], tb, size)
  {
    forall k | 0 <= k < |objs[i].words|
      ensures var w := objs[i].words[k];
              !(tb <= w < tb + size) && (InUse(objs, fb, w) ==> HeaderOf(objs, w) < i)
    {
      var h := HeaderOf(objs, objs[i].words[k]);
      if h < |objs| { TiledBounds(objs, fb, h); }
    }
  }

  /** A collection of clean objects leaves clean objects, so the discipline lasts over any number of collections. */
  lemma CollectionKeepsClean(objs: seq<Obj>, marks: seq<bool>, fb: nat, tb: nat, size: nat)
    requires Collecting(objs, marks, fb, tb, size) && AllClean(objs, fb, tb, size)
    ensures AllClean(Copies(objs, marks, tb, |objs|), tb, fb, size)
  {
    var copies := Copies(objs, marks, tb, |objs|);
    CopiesCount(objs, marks, tb, |objs|);
    forall r | 0 <= r < |copies| ensures Clean(copies, tb, fb, size, r) {
      var i := SurvivorOfRank(objs, marks, |objs|, r);
      CopyAtRank(objs, marks, tb, |objs|, i);
      assert copies[r] == CopyOf(objs, marks, tb, i);
      forall k | 0 <= k < |objs[i].words|
        ensures var w := copies[r].words[k];
                HeaderOf(copies, w) < r || (!(fb <= w < fb + size) && !(tb <= w < tb + size))
      {
        CleanWord(objs, marks, fb, tb, size, i, k);
      }
    }
  }

  lemma CleanWord(objs: seq<Obj>, marks: seq<bool>, fb: nat, tb: nat, size: nat, i: nat, k: nat)
    requires Collecting(objs, marks, fb, tb, size) && i < |objs| && marks[i] && Clean(objs, fb, tb, size, i)
    requires k < |objs[i].words|
    ensures var w := Forward(objs, marks, tb, i, objs[i].words[k]);
            HeaderOf(Copies(objs, marks, tb, |objs|), w) < Rank(marks, i)
            || (!(fb <= w < fb + size) && !(tb <= w < tb + size))
  {
    var v, copies := objs[i].words[k], Copies(objs, marks, tb, |objs|);
    var h := HeaderOf(objs, v);
    if h < |objs| {
      TiledBounds(objs, fb, h);
      assert objs[h].Contains(v);
      assert PointsInto(objs, i, h);
      CopyAtRank(objs, marks, tb, |objs|, h);
      CopiesShape(objs, marks, tb, |objs|);
      HeaderUnique(copies, tb, Rank(marks, h));
      RankMonotone(marks, h, i);
    }
  }

  // ------------------------------------------------------------ where the discipline is needed

  /** An object that points to itself: its copy keeps the old address, and so does a root to it. */
  lemma SelfPointerGoesStale()
    ensures var objs := [Obj(4096, [4104])];
            && Collecting(objs, [true], 4096, 8192, 4096)
            && CopyOf(objs, [true], 8192, 0) == Obj(8192, [4104])
            && !NoStaleWord(CopyOf(objs, [true], 8192, 0), objs, 4096)
            && NewRoot(objs, [true], 4096, 8192, 4104) == 4104
  {
    var objs := [Obj(4096, [4104])];
    assert objs[..0] == [] && objs[..|objs| - 1] == [];
    assert TotalBytes(objs) == 16;
    assert Tiled(objs, 4096);
    assert CopyOf(objs, [true], 8192, 0).words[0] == 4104;
    assert HeaderOf(objs, 4104) == 0;
    RootMovesToFirstTwin(objs, [true], 4096, 8192, 4096, 0);
  }

  /** Two objects with equal contents: the second root is moved to the first object's copy. */
  lemma EqualTwinsShareACopy()
    ensures var objs := [Obj(4096, [42]), Obj(4112, [42])];
            && Collecting(objs, [true, true], 4096, 8192, 4096)
            && AllPointBack(objs, [true, true], 4096)
            && NewRoot(objs, [true, true], 4096, 8192, objs[1].Data()) ==
               CopyOf(objs, [true, true], 8192, 0).Data() != CopyOf(objs, [true, true], 8192, 1).Data()
  {
    var objs := [Obj(4096, [42]), Obj(4112, [42])];
    var marks := [true, true];
    assert objs[..0] == [] && objs[..1] == [objs[0]] && [objs[0]][..0] == [] && objs[..|objs| - 1] == objs[..1];
    assert TotalBytes(objs[..1]) == 16 && TotalBytes(objs) == 32;
    assert Tiled(objs, 4096);
    RootRelocated(objs, marks, 4096, 8192, 4096, 1);
    CopyAtRank(objs, marks, 8192, 2, 0);
    CopyAtRank(objs, marks, 8192, 2, 1);
    assert LiveBytes(objs, marks, 1) == 16;
    var ws := ForwardAll(objs, marks, 8192, 2, objs[1].words);
    assert ws == [42] && ForwardAll(objs, marks, 8192, 0, objs[0].words) == [42];
  }

  /** Plain data, a pointer to it, and a plain word that happens to be an address in to-space at 8192. */
  function MisleadingHeap(): seq<Obj> {
    [Obj(4096, [42]), Obj(4112, [4104]), Obj(4128, [8200])]
  }

  lemma MisleadingHeapBytes()
    ensures var objs := MisleadingHeap();
            && TotalBytes(objs[..0]) == 0 && TotalBytes(objs[..1]) == 16
            && TotalBytes(objs[..2]) == 32 && TotalBytes(objs) == 48
  {
    var objs := MisleadingHeap();
    TotalPrefix(objs, 0);
    TotalPrefix(objs, 1);
    TotalPrefix(objs, 2);
    assert objs[..3] == objs;
  }

  lemma MisleadingHeapPointsBack()
    ensures var objs, marks := MisleadingHeap(), [true, true, true];
            && Collecting(objs, marks, 4096, 8192, 4096) && AllPointBack(objs, marks, 4096)
            && LiveBytes(objs, marks, 1) == 16 && LiveBytes(objs, marks, 2) == 32
  {
    var objs := MisleadingHeap();
    MisleadingHeapBytes();
    assert HeaderOf(objs, 4104) == 0;
  }

  lemma MisleadingCopies()
    ensures var objs, marks := MisleadingHeap(), [true, true, true];
            && CopyOf(objs, marks, 8192, 0) == Obj(8192, [42])
            && CopyOf(objs, marks, 8192, 1) == Obj(8208, [8200])
            && CopyOf(objs, marks, 8192, 2) == Obj(8224, [8200])
            && ForwardAll(objs, marks, 8192, 3, [8200]) == [8200]
  {
    MisleadingHeapPointsBack();
    var objs := MisleadingHeap();
    assert HeaderOf(objs, 4104) == 0 && HeaderOf(objs, 8200) == 3 && HeaderOf(objs, 42) == 3;
  }

  /**
   There all survivors point back and no two have equal contents, yet the third one's root
   moves to the second one's copy.
   */
  lemma PlainWordLooksForwarded()
    ensures var objs, marks := MisleadingHeap(), [true, true, true];
            && Collecting(objs, marks, 4096, 8192, 4096)
            && AllPointBack(objs, marks, 4096)
            && !AvoidsSpace(objs[2], 8192, 4096)
            && NewRoot(objs, marks, 4096, 8192, objs[2].Data()) ==
               CopyOf(objs, marks, 8192, 1).Data() != CopyOf(objs, marks, 8192, 2).Data()
  {
    var objs, marks := MisleadingHeap(), [true, true, true];
    MisleadingHeapPointsBack();
    MisleadingCopies();
    assert objs[2].words[0] == 8200;
    LookedUpByContent(objs, marks, 4096, 8192, 4096, 2);
    CopyAtRank(objs, marks, 8192, 3, 0);
    CopyAtRank(objs, marks, 8192, 3, 1);
    assert Rank(marks, 0) == 0 && Rank(marks, 1) == 1;
  }
}
