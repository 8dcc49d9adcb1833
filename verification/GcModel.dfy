/** Objects in a space, and what a collection makes of them. */
module GcModel {

  // Objects laid out back to back in a space, the conservative points-into relation,
  // reachability from exact data pointers, and the functions that say where survivors go
  // and what their words become.  An object is an 8-byte header followed by 8-byte words;
  // addresses are byte addresses.  The header's mark is kept in a separate column by the
  // heap.

  datatype Obj = Obj(addr: nat, words: seq<nat>) {
    /** The address handed to the program: just behind the header. */
    function Data(): nat { addr + 8 }

    function Bytes(): nat { 8 + 8 * |words| }

    /** Header included: the scanner accepts a pointer to any byte of the object. */
    predicate Contains(p: nat) { addr <= p < addr + Bytes() }
  }

  function TotalBytes(objs: seq<Obj>): nat {
    if objs == [] then 0 else TotalBytes(objs[..|objs| - 1]) + objs[|objs| - 1].Bytes()
  }

  /** The objects tile `[base, base + TotalBytes)` in table order, with no gap; none is empty. */
  ghost predicate Tiled(objs: seq<Obj>, base: nat) {
    forall i :: 0 <= i < |objs| ==>
      objs[i].addr == base + TotalBytes(objs[..i]) && objs[i].words != []
  }

  lemma {:induction false} TotalPrefix(objs: seq<Obj>, i: nat)
    requires i < |objs|
    ensures TotalBytes(objs[..i]) + objs[i].Bytes() == TotalBytes(objs[..i + 1])
  {
    assert objs[..i + 1][..i] == objs[..i];
  }

  lemma {:induction false} TotalMonotone(objs: seq<Obj>, i: nat, j: nat)
    requires i <= j <= |objs|
    ensures TotalBytes(objs[..i]) <= TotalBytes(objs[..j])
    decreases j - i
  {
    if i < j {
      TotalPrefix(objs, j - 1);
      TotalMonotone(objs, i, j - 1);
    }
  }

  lemma {:induction false} SameSizes(a: seq<Obj>, b: seq<Obj>)
    requires |a| == |b| && forall i :: 0 <= i < |a| ==> |a[i].words| == |b[i].words|
    ensures TotalBytes(a) == TotalBytes(b)
    decreases |a|
  {
    if a != [] { SameSizes(a[..|a| - 1], b[..|b| - 1]); }
  }

  lemma AppendTiled(objs: seq<Obj>, base: nat, o: Obj)
    requires Tiled(objs, base) && o.addr == base + TotalBytes(objs) && o.words != []
    ensures Tiled(objs + [o], base) && TotalBytes(objs + [o]) == TotalBytes(objs) + o.Bytes()
  {
    var after := objs + [o];
    assert after[..|objs|] == objs && after[..|after| - 1] == objs;
    forall i | 0 <= i < |after|
      ensures after[i].addr == base + TotalBytes(after[..i]) && after[i].words != []
    {
      if i < |objs| { assert after[..i] == objs[..i]; }
    }
  }

  /** Objects are in address order and inside the used part of the space. */
  lemma TiledBounds(objs: seq<Obj>, base: nat, i: nat)
    requires Tiled(objs, base) && i < |objs|
    ensures base <= objs[i].addr
    ensures objs[i].addr + objs[i].Bytes() <= base + TotalBytes(objs)
    ensures objs[i].Bytes() >= 16
  {
    TotalPrefix(objs, i);
    TotalMonotone(objs, i + 1, |objs|);
    assert objs[..|objs|] == objs;
  }

  lemma TiledOrder(objs: seq<Obj>, base: nat, i: nat, j: nat)
    requires Tiled(objs, base) && i < j < |objs|
    ensures objs[i].addr + objs[i].Bytes() <= objs[j].addr
  {
    TotalPrefix(objs, i);
    TotalMonotone(objs, i + 1, j);
  }

  lemma TiledDisjoint(objs: seq<Obj>, base: nat, i: nat, j: nat, p: nat)
    requires Tiled(objs, base) && i < |objs| && j < |objs|
    requires objs[i].Contains(p) && objs[j].Contains(p)
    ensures i == j
  {
    if i < j { TiledOrder(objs, base, i, j); } else if j < i { TiledOrder(objs, base, j, i); }
  }

  // ------------------------------------------------------------ reachability

  /** Some aligned word of object `i` points somewhere into object `j`. */
  ghost predicate PointsInto(objs: seq<Obj>, i: nat, j: nat) {
    i < |objs| && j < |objs| && exists k :: 0 <= k < |objs[i].words| && objs[j].Contains(objs[i].words[k])
  }

  /** Roots count only when they are exactly an object's data pointer. */
  ghost predicate IsRoot(objs: seq<Obj>, roots: seq<nat>, j: nat) {
    j < |objs| && objs[j].Data() in roots
  }

  ghost predicate IsPath(objs: seq<Obj>, roots: seq<nat>, path: seq<nat>) {
    && path != [] && IsRoot(objs, roots, path[0])
    && forall k :: 0 <= k < |path| - 1 ==> PointsInto(objs, path[k], path[k + 1])
  }

  ghost predicate Reachable(objs: seq<Obj>, roots: seq<nat>, j: nat) {
    exists path :: IsPath(objs, roots, path) && path[|path| - 1] == j
  }

  /** In addresses: word `m` of object `i` is the address of a byte of object `j`, from its header to its end. */
  predicate Hits(objs: seq<Obj>, i: nat, m: nat, j: nat) {
    && i < |objs| && j < |objs| && m < |objs[i].words|
    && objs[j].addr <= objs[i].words[m] < objs[j].addr + 8 + 8 * |objs[j].words|
  }

  ghost predicate SomeHit(objs: seq<Obj>, i: nat, j: nat) {
    exists m: nat :: Hits(objs, i, m, j)
  }

  lemma PointsIntoIff(objs: seq<Obj>, i: nat, j: nat)
    ensures PointsInto(objs, i, j) <==> SomeHit(objs, i, j)
  {
    if m: nat :| Hits(objs, i, m, j) { assert objs[j].Contains(objs[i].words[m]); }
    if PointsInto(objs, i, j) {
      var k :| 0 <= k < |objs[i].words| && objs[j].Contains(objs[i].words[k]);
      assert Hits(objs, i, k, j);
    }
  }

  /** The root stands 8 behind the object's address, just behind its header. */
  predicate Rooted(objs: seq<Obj>, roots: seq<nat>, i: nat, j: nat) {
    i < |roots| && j < |objs| && roots[i] == objs[j].addr + 8
  }

  /** A chain of objects: the first one is some root's, and each has a word that hits the next. */
  ghost predicate Chain(objs: seq<Obj>, roots: seq<nat>, path: seq<nat>) {
    && path != [] && (exists i: nat :: Rooted(objs, roots, i, path[0]))
    && forall k :: 0 <= k < |path| - 1 ==> SomeHit(objs, path[k], path[k + 1])
  }

  lemma ChainIff(objs: seq<Obj>, roots: seq<nat>, path: seq<nat>)
    ensures IsPath(objs, roots, path) <==> Chain(objs, roots, path)
  {
    forall k | 0 <= k < |path| - 1
      ensures PointsInto(objs, path[k], path[k + 1]) <==> SomeHit(objs, path[k], path[k + 1])
    {
      PointsIntoIff(objs, path[k], path[k + 1]);
    }
    if path != [] { RootIff(objs, roots, path[0]); }
  }

  lemma RootIff(objs: seq<Obj>, roots: seq<nat>, j: nat)
    ensures IsRoot(objs, roots, j) <==> exists i: nat :: Rooted(objs, roots, i, j)
  {
    if IsRoot(objs, roots, j) {
      var i :| 0 <= i < |roots| && roots[i] == objs[j].Data();
      assert Rooted(objs, roots, i, j);
    }
  }

  /** Reachable, in addresses. */
  lemma ReachableIff(objs: seq<Obj>, roots: seq<nat>, j: nat)
    ensures Reachable(objs, roots, j) <==> exists path :: Chain(objs, roots, path) && path[|path| - 1] == j
  {
    forall path ensures IsPath(objs, roots, path) <==> Chain(objs, roots, path) {
      ChainIff(objs, roots, path);
    }
  }

  lemma RootReachable(objs: seq<Obj>, roots: seq<nat>, j: nat)
    requires IsRoot(objs, roots, j)
    ensures Reachable(objs, roots, j)
  {
    assert IsPath(objs, roots, [j]) && [j][|[j]| - 1] == j;
  }

  lemma StepReachable(objs: seq<Obj>, roots: seq<nat>, i: nat, j: nat)
    requires Reachable(objs, roots, i) && PointsInto(objs, i, j)
    ensures Reachable(objs, roots, j)
  {
    var path :| IsPath(objs, roots, path) && path[|path| - 1] == i;
    var path' := path + [j];
    forall k | 0 <= k < |path'| - 1 ensures PointsInto(objs, path'[k], path'[k + 1]) {
      if k < |path| - 1 { assert PointsInto(objs, path[k], path[k + 1]); }
    }
    assert IsPath(objs, roots, path') && path'[|path'| - 1] == j;
  }

  /** A set that holds the roots and is closed under points-into holds everything reachable. */
  lemma {:induction false} ClosedHoldsPath(objs: seq<Obj>, roots: seq<nat>, marks: seq<bool>, path: seq<nat>)
    requires |marks| == |objs| && IsPath(objs, roots, path)
    requires forall j: nat :: IsRoot(objs, roots, j) ==> marks[j]
    requires forall i: nat, j: nat :: PointsInto(objs, i, j) && marks[i] ==> marks[j]
    ensures path[|path| - 1] < |objs| && marks[path[|path| - 1]]
    decreases |path|
  {
    if |path| > 1 {
      var shorter := path[..|path| - 1];
      forall k | 0 <= k < |shorter| - 1 ensures PointsInto(objs, shorter[k], shorter[k + 1]) {
        assert PointsInto(objs, path[k], path[k + 1]);
      }
      ClosedHoldsPath(objs, roots, marks, shorter);
      assert PointsInto(objs, path[|path| - 2], path[|path| - 2 + 1]);
    }
  }

  // ------------------------------------------------------------ where survivors go

  /** The object whose data pointer is `w`, or `|objs|`. */
  function HeaderOf(objs: seq<Obj>, w: nat): (j: nat)
    ensures j <= |objs|
    ensures j < |objs| ==> objs[j].Data() == w
    ensures forall i :: 0 <= i < j ==> objs[i].Data() != w
  {
    HeaderFrom(objs, w, 0)
  }

  function HeaderFrom(objs: seq<Obj>, w: nat, from: nat): (j: nat)
    requires from <= |objs|
    requires forall i :: 0 <= i < from ==> objs[i].Data() != w
    ensures from <= j <= |objs|
    ensures j < |objs| ==> objs[j].Data() == w
    ensures forall i :: 0 <= i < j ==> objs[i].Data() != w
    decreases |objs| - from
  {
    if from == |objs| || objs[from].Data() == w then from else HeaderFrom(objs, w, from + 1)
  }

  lemma HeaderUnique(objs: seq<Obj>, base: nat, j: nat)
    requires Tiled(objs, base) && j < |objs|
    ensures HeaderOf(objs, objs[j].Data()) == j
  {
    var i := HeaderOf(objs, objs[j].Data());
    if i < j { TiledOrder(objs, base, i, j); }
  }

  /** Bytes of the marked objects among the first `n`. */
  function LiveBytes(objs: seq<Obj>, marks: seq<bool>, n: nat): (b: nat)
    requires n <= |objs| == |marks|
    ensures b <= TotalBytes(objs[..n])
  {
    if n == 0 then 0
    else
      assert TotalBytes(objs[..n - 1]) + objs[n - 1].Bytes() == TotalBytes(objs[..n]) by { TotalPrefix(objs, n - 1); }
      LiveBytes(objs, marks, n - 1) + (if marks[n - 1] then objs[n - 1].Bytes() else 0)
  }

  lemma {:induction false} LiveMonotone(objs: seq<Obj>, marks: seq<bool>, i: nat, n: nat)
    requires i <= n <= |objs| == |marks|
    ensures LiveBytes(objs, marks, i) <= LiveBytes(objs, marks, n)
    ensures i < n && marks[i] ==> LiveBytes(objs, marks, i) + objs[i].Bytes() <= LiveBytes(objs, marks, n)
    decreases n - i
  {
    if i < n { LiveMonotone(objs, marks, i, n - 1); }
  }

  /** Header address of marked object `i`'s copy in the space at `tb`. */
  function NewAddr(objs: seq<Obj>, marks: seq<bool>, tb: nat, i: nat): nat
    requires i <= |objs| == |marks|
  {
    tb + LiveBytes(objs, marks, i)
  }

  /**
   What a word becomes once the copies of the marked objects below `limit` are known:
   an exact data pointer of one of them is redirected, everything else stays.
   */
  function Forward(objs: seq<Obj>, marks: seq<bool>, tb: nat, limit: nat, w: nat): nat
    requires limit <= |objs| == |marks|
  {
    var j := HeaderOf(objs, w);
    if j < limit && marks[j] then NewAddr(objs, marks, tb, j) + 8 else w
  }

  function ForwardAll(objs: seq<Obj>, marks: seq<bool>, tb: nat, limit: nat, ws: seq<nat>): (r: seq<nat>)
    requires limit <= |objs| == |marks|
    ensures |r| == |ws|
  {
    seq(|ws|, k requires 0 <= k < |ws| => Forward(objs, marks, tb, limit, ws[k]))
  }

  /** The copies of the marked objects among the first `n`, in table order. */
  function Copies(objs: seq<Obj>, marks: seq<bool>, tb: nat, n: nat): seq<Obj>
    requires n <= |objs| == |marks|
  {
    if n == 0 then []
    else if marks[n - 1] then
      Copies(objs, marks, tb, n - 1) +
      [Obj(NewAddr(objs, marks, tb, n - 1), ForwardAll(objs, marks, tb, n - 1, objs[n - 1].words))]
    else Copies(objs, marks, tb, n - 1)
  }

  /** From-space after the copies of the first `n` were made: marked objects have been patched in place. */
  function Patched(objs: seq<Obj>, marks: seq<bool>, tb: nat, n: nat): (r: seq<Obj>)
    requires n <= |objs| == |marks|
    ensures |r| == |objs|
  {
    seq(|objs|, j requires 0 <= j < |objs| =>
      if marks[j] then Obj(objs[j].addr, ForwardAll(objs, marks, tb, n, objs[j].words)) else objs[j])
  }

  /** How many of the first `n` objects survive: the table position of object `n`'s copy. */
  function Rank(marks: seq<bool>, n: nat): (r: nat)
    requires n <= |marks|
    ensures r <= n
  {
    if n == 0 then 0 else Rank(marks, n - 1) + (if marks[n - 1] then 1 else 0)
  }

  lemma {:induction false} RankMonotone(marks: seq<bool>, i: nat, n: nat)
    requires i <= n <= |marks|
    ensures Rank(marks, i) <= Rank(marks, n)
    ensures i < n && marks[i] ==> Rank(marks, i) < Rank(marks, n)
    decreases n - i
  {
    if i < n { RankMonotone(marks, i, n - 1); }
  }

  /** One copy a survivor. */
  lemma {:induction false} CopiesCount(objs: seq<Obj>, marks: seq<bool>, tb: nat, n: nat)
    requires n <= |objs| == |marks|
    ensures |Copies(objs, marks, tb, n)| == Rank(marks, n)
  {
    if n > 0 { CopiesCount(objs, marks, tb, n - 1); }
  }

  /** The copies tile the new space, and their bytes are the live bytes. */
  lemma {:induction false} CopiesShape(objs: seq<Obj>, marks: seq<bool>, tb: nat, n: nat)
    requires n <= |objs| == |marks|
    requires forall i :: 0 <= i < |objs| ==> objs[i].words != []
    ensures TotalBytes(Copies(objs, marks, tb, n)) == LiveBytes(objs, marks, n)
    ensures Tiled(Copies(objs, marks, tb, n), tb)
  {
    if n > 0 {
      CopiesShape(objs, marks, tb, n - 1);
      CopiesCount(objs, marks, tb, n);
      CopiesCount(objs, marks, tb, n - 1);
      var c, c' := Copies(objs, marks, tb, n - 1), Copies(objs, marks, tb, n);
      if marks[n - 1] {
        assert c'[..|c|] == c && c'[..|c'| - 1] == c;
        forall i | 0 <= i < |c'|
          ensures c'[i].addr == tb + TotalBytes(c'[..i]) && c'[i].words != []
        {
          if i < |c| { assert c'[..i] == c[..i]; }
        }
      }
    }
  }

  lemma {:induction false} CopyAtRank(objs: seq<Obj>, marks: seq<bool>, tb: nat, n: nat, i: nat)
    requires i < n <= |objs| == |marks| && marks[i]
    requires forall i :: 0 <= i < |objs| ==> objs[i].words != []
    ensures |Copies(objs, marks, tb, n)| == Rank(marks, n) > Rank(marks, i)
    ensures Copies(objs, marks, tb, n)[Rank(marks, i)] ==
            Obj(NewAddr(objs, marks, tb, i), ForwardAll(objs, marks, tb, i, objs[i].words))
    decreases n
  {
    CopiesCount(objs, marks, tb, n - 1);
    CopiesCount(objs, marks, tb, n);
    RankMonotone(marks, i, n);
    if i < n - 1 {
      CopyAtRank(objs, marks, tb, n - 1, i);
    }
  }

  /** Every copy is the copy of exactly one survivor. */
  lemma {:induction false} SurvivorOfRank(objs: seq<Obj>, marks: seq<bool>, n: nat, r: nat) returns (i: nat)
    requires n <= |objs| == |marks| && r < Rank(marks, n)
    ensures i < n && marks[i] && Rank(marks, i) == r
  {
    if marks[n - 1] && r == Rank(marks, n - 1) {
      i := n - 1;
    } else {
      i := SurvivorOfRank(objs, marks, n - 1, r);
    }
  }

  /** The two halves of the heap do not overlap. */
  ghost predicate Apart(a: nat, b: nat, size: nat) {
    a + size <= b || b + size <= a
  }

  /** A forwarded pointer lies in the new space and is nobody's old data pointer. */
  lemma ForwardedIsFresh(objs: seq<Obj>, marks: seq<bool>, fb: nat, tb: nat, size: nat, j: nat)
    requires Tiled(objs, fb) && |marks| == |objs| && j < |objs| && marks[j]
    requires TotalBytes(objs) <= size && Apart(fb, tb, size)
    ensures tb <= NewAddr(objs, marks, tb, j) + 8 < tb + size
    ensures HeaderOf(objs, NewAddr(objs, marks, tb, j) + 8) == |objs|
  {
    var w := NewAddr(objs, marks, tb, j) + 8;
    TiledBounds(objs, fb, j);
    LiveMonotone(objs, marks, j, |objs|);
    assert objs[..|objs|] == objs;
    var h := HeaderOf(objs, w);
    if h < |objs| { TiledBounds(objs, fb, h); }
  }

  /** Writing `fresh` over every occurrence of `old` in the marked objects. */
  function Patch(objs: seq<Obj>, marks: seq<bool>, was: nat, now: nat): (r: seq<Obj>)
    requires |marks| == |objs|
    ensures |r| == |objs|
  {
    seq(|objs|, j requires 0 <= j < |objs| =>
      if marks[j] then Obj(objs[j].addr, PatchWords(objs[j].words, was, now)) else objs[j])
  }

  function PatchWords(ws: seq<nat>, was: nat, now: nat): (r: seq<nat>)
    ensures |r| == |ws|
  {
    seq(|ws|, k requires 0 <= k < |ws| => if ws[k] == was then now else ws[k])
  }

  /** One in-place patching round advances the forwarding limit by one object. */
  lemma PatchAdvances(objs: seq<Obj>, marks: seq<bool>, fb: nat, tb: nat, size: nat, n: nat)
    requires Tiled(objs, fb) && |marks| == |objs| && n < |objs| && marks[n]
    requires TotalBytes(objs) <= size && Apart(fb, tb, size)
    ensures Patch(Patched(objs, marks, tb, n), marks, objs[n].Data(), NewAddr(objs, marks, tb, n) + 8)
            == Patched(objs, marks, tb, n + 1)
  {
    HeaderUnique(objs, fb, n);
    forall j | 0 <= j < |objs| && marks[j]
      ensures PatchWords(ForwardAll(objs, marks, tb, n, objs[j].words), objs[n].Data(), NewAddr(objs, marks, tb, n) + 8)
              == ForwardAll(objs, marks, tb, n + 1, objs[j].words)
    {
      forall k | 0 <= k < |objs[j].words|
        ensures var w := Forward(objs, marks, tb, n, objs[j].words[k]);
                (if w == objs[n].Data() then NewAddr(objs, marks, tb, n) + 8 else w)
                == Forward(objs, marks, tb, n + 1, objs[j].words[k])
      {
        PatchWord(objs, marks, fb, tb, size, n, objs[j].words[k]);
      }
    }
  }

  lemma PatchWord(objs: seq<Obj>, marks: seq<bool>, fb: nat, tb: nat, size: nat, n: nat, w0: nat)
    requires Tiled(objs, fb) && |marks| == |objs| && n < |objs| && marks[n]
    requires TotalBytes(objs) <= size && Apart(fb, tb, size)
    ensures var w := Forward(objs, marks, tb, n, w0);
            (if w == objs[n].Data() then NewAddr(objs, marks, tb, n) + 8 else w)
            == Forward(objs, marks, tb, n + 1, w0)
  {
    HeaderUnique(objs, fb, n);
    var h := HeaderOf(objs, w0);
    if h < n && marks[h] { ForwardedIsFresh(objs, marks, fb, tb, size, h); }
  }
}
