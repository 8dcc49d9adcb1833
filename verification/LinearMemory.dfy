/**
 The emitted string routines over linear memory: a bump allocator, byte loops, and
 NUL-terminated results.  Each routine is proved to return a fresh block that holds what
 StringSpec says, to touch nothing below the heap pointer it found, and to stay in bounds.
 */
module LinearMemory {
  import opened Wrappers
  import opened Leb128
  import opened StringSpec

  const PAGE: nat := 65536

  type Bytes = seq<byte>

  /** A NUL-terminated text at `p`, below `top`. */
  ghost predicate TextAt(b: Bytes, top: nat, p: nat, s: Text) {
    p + |s| < top <= |b| && b[p..p + |s|] == s && b[p + |s|] == 0 && (0 as byte) !in s
  }

  /** Nothing below `top` has changed. */
  ghost predicate SameBelow(b: Bytes, top: nat, b': Bytes, top': nat) {
    top <= top' <= |b'| && top <= |b| && b'[..top] == b[..top]
  }

  lemma TextPersists(b: Bytes, top: nat, b': Bytes, top': nat, p: nat, s: Text)
    requires TextAt(b, top, p, s) && SameBelow(b, top, b', top')
    ensures TextAt(b', top', p, s)
  {
    assert b'[p..p + |s|] == b'[..top][p..p + |s|] == b[..top][p..p + |s|] == b[p..p + |s|];
    assert b'[p + |s|] == b'[..top][p + |s|] == b[..top][p + |s|];
  }

  /** The bytes of a text and the NUL behind them, by position. */
  lemma TextByte(b: Bytes, top: nat, p: nat, s: Text, i: nat)
    requires TextAt(b, top, p, s) && i <= |s|
    ensures b[p + i] == if i < |s| then s[i] else 0
    ensures i < |s| ==> b[p + i] != 0
  {
    assert i < |s| ==> b[p..p + |s|][i] == s[i];
    assert i < |s| ==> s[i] in s;
  }

  /** A block filled with a text and closed with a NUL. */
  lemma BlockHolds(b: Bytes, top: nat, p: nat, s: Text)
    requires p + |s| < top <= |b| && b[p..p + |s|] == s && b[p + |s|] == 0 && (0 as byte) !in s
    ensures TextAt(b, top, p, s)
  {
  }

  lemma SubText(b: Bytes, top: nat, p: nat, s: Text, at: nat, n: nat)
    requires TextAt(b, top, p, s) && at + n <= |s|
    ensures b[p + at..p + at + n] == s[at..at + n]
  {
    var part, want := b[p + at..p + at + n], s[at..at + n];
    forall i | 0 <= i < |part| ensures part[i] == want[i] {
      TextByte(b, top, p, s, at + i);
    }
  }

  function RoundUp(n: nat): (r: nat)
    ensures n <= r < n + 8 && r % 8 == 0
  {
    (n + 7) / 8 * 8
  }

  /** Where an allocation leaves the heap pointer. */
  function Bumped(heap: nat, n: nat): nat {
    heap + RoundUp(n)
  }

  /** Where a run of allocations puts its blocks: each where the one before left the pointer. */
  function Blocks(heap: nat, sizes: seq<nat>): seq<nat>
    decreases |sizes|
  {
    if sizes == [] then [] else [heap] + Blocks(Bumped(heap, sizes[0]), sizes[1..])
  }

  /** Blocks are aligned to 8, lie above the heap pointer they started from, and never overlap. */
  lemma {:induction false} BlocksAreApart(heap: nat, sizes: seq<nat>)
    requires heap % 8 == 0
    ensures var bs := Blocks(heap, sizes);
            && |bs| == |sizes| && (forall i :: 0 <= i < |bs| ==> bs[i] % 8 == 0 && bs[i] >= heap)
            && forall i, j :: 0 <= i < j < |bs| ==> bs[i] + sizes[i] <= bs[j]
    decreases |sizes|
  {
    if sizes != [] {
      BlocksAreApart(Bumped(heap, sizes[0]), sizes[1..]);
      var bs := Blocks(heap, sizes);
      assert forall i :: 0 < i < |bs| ==> bs[i] == bs[1..][i - 1] && sizes[i] == sizes[1..][i - 1];
    }
  }

  class Memory {
    var bytes: Bytes
    var heap: nat

    ghost predicate Valid()
      reads this
    {
      heap % 8 == 0 && heap <= |bytes| && |bytes| % PAGE == 0
    }

    ghost predicate Holds(p: nat, s: Text)
      reads this
    {
      TextAt(bytes, heap, p, s)
    }

    /** `i32.store8`; in bounds, so it does not trap. */
    method Store(p: nat, v: byte)
      requires p < |bytes|
      modifies `bytes
      ensures bytes == old(bytes)[p := v]
    {
      bytes := bytes[p := v];
    }

    /** A fresh block, aligned to 8, growing the memory by whole pages when needed. */
    method Alloc(n: nat) returns (p: nat)
      requires Valid()
      modifies this
      ensures Valid() && p == old(heap) && heap == Bumped(p, n)
      ensures heap % 8 == 0 && p + n <= heap < p + n + 8
      ensures |bytes| % 65536 == 0 && |bytes| >= |old(bytes)|
      ensures |bytes| > |old(bytes)| ==> |old(bytes)| < heap && |bytes| < heap + 65536
      ensures SameBelow(old(bytes), old(heap), bytes, heap)
    {
      var size := RoundUp(n);
      if heap + size > |bytes| {
        var need := (heap + size - |bytes| + 65535) / 65536;
        bytes := bytes + seq(need * PAGE, i => 0);
        assert bytes[..heap] == old(bytes)[..heap];
      }
      p := heap;
      heap := heap + size;
    }

    method StrLen(p: nat, ghost s: Text) returns (len: nat)
      requires Holds(p, s)
      ensures len == |s|
    {
      len := 0;
      TextByte(bytes, heap, p, s, 0);
      while bytes[p + len] != 0
        invariant len <= |s|
        invariant p + len < |bytes| && (bytes[p + len] == 0 <==> len == |s|)
        decreases |s| - len
      {
        len := len + 1;
        TextByte(bytes, heap, p, s, len);
      }
    }

    /** The byte-copy loop the routines share; the source lies below the destination. */
    method Copy(dst: nat, src: nat, n: nat)
      requires src + n <= dst && dst + n <= |bytes|
      modifies `bytes
      ensures bytes == old(bytes)[..dst] + old(bytes)[src..src + n] + old(bytes)[dst + n..]
    {
      ghost var was := bytes;
      for i := 0 to n
        invariant |bytes| == |was|
        invariant bytes == was[..dst] + was[src..src + i] + was[dst + i..]
      {
        CopyStep(was, bytes, dst, src, i);
        bytes := bytes[dst + i := bytes[src + i]];
      }
    }

    /** One more byte of a block move between regions that do not overlap. */
    static lemma CopyStep(was: Bytes, now: Bytes, dst: nat, src: nat, i: nat)
      requires src + i < dst && dst + i < |was| == |now|
      requires now == was[..dst] + was[src..src + i] + was[dst + i..]
      ensures now[dst + i := now[src + i]] == was[..dst] + was[src..src + i + 1] + was[dst + i + 1..]
    {
      assert now[src + i] == was[src + i];
      assert was[src..src + i + 1] == was[src..src + i] + [was[src + i]];
      assert was[dst + i..] == [was[dst + i]] + was[dst + i + 1..];
    }

    /** Allocates a block for `n` bytes of existing text and fills it; the shared tail of slice and field. */
    method CopyOut(src: nat, n: nat, ghost s: Text) returns (r: nat)
      requires Valid() && src + n <= heap && bytes[src..src + n] == s && (0 as byte) !in s
      modifies this
      ensures Valid() && r == old(heap) && Holds(r, s)
      ensures SameBelow(old(bytes), old(heap), bytes, heap)
    {
      r := Alloc(n + 1);
      assert bytes[src..src + n] == bytes[..r][src..src + n] == s;
      ghost var mid := bytes;
      Copy(r, src, n);
      Store(r + n, 0);
      Filled(mid, r, s, bytes);
    }

    static lemma Filled(mid: Bytes, r: nat, s: Text, after: Bytes)
      requires r + |s| < |mid| && after == (mid[..r] + s + mid[r + |s|..])[r + |s| := 0]
      ensures |after| == |mid| && after[..r] == mid[..r] && after[r..r + |s|] == s && after[r + |s|] == 0
    {
    }

    method Concat(a: nat, b: nat, ghost sa: Text, ghost sb: Text) returns (r: nat)
      requires Valid() && Holds(a, sa) && Holds(b, sb)
      modifies this
      ensures Valid() && r == old(heap) && Holds(r, sa + sb)
      ensures SameBelow(old(bytes), old(heap), bytes, heap)
    {
      var la := StrLen(a, sa);
      var lb := StrLen(b, sb);
      r := Alloc(la + lb + 1);
      ghost var mid := bytes;
      TextPersists(old(bytes), old(heap), mid, heap, a, sa);
      TextPersists(old(bytes), old(heap), mid, heap, b, sb);
      CopyBoth(r, a, la, b, lb, sa, sb);
      assert bytes[..old(heap)] == mid[..old(heap)];
    }

    /** Two texts one behind the other, and a NUL. */
    method CopyBoth(r: nat, a: nat, la: nat, b: nat, lb: nat, ghost sa: Text, ghost sb: Text)
      requires a + la <= r && b + lb <= r && r + la + lb < |bytes|
      requires bytes[a..a + la] == sa && bytes[b..b + lb] == sb
      modifies `bytes
      ensures |bytes| == |old(bytes)| && bytes[..r] == old(bytes)[..r]
      ensures bytes[r..r + |sa + sb|] == sa + sb && bytes[r + |sa + sb|] == 0
    {
      ghost var mid := bytes;
      Copy(r, a, la);
      assert bytes[b..b + lb] == mid[b..b + lb];
      Copy(r + la, b, lb);
      Store(r + la + lb, 0);
      FilledTwice(mid, r, sa, sb, bytes);
    }

    static lemma FilledTwice(mid: Bytes, r: nat, sa: Text, sb: Text, after: Bytes)
      requires r + |sa| + |sb| < |mid|
      requires var first := mid[..r] + sa + mid[r + |sa|..];
               after == (first[..r + |sa|] + sb + first[r + |sa| + |sb|..])[r + |sa| + |sb| := 0]
      ensures |after| == |mid| && after[..r] == mid[..r]
      ensures after[r..r + |sa + sb|] == sa + sb && after[r + |sa + sb|] == 0
    {
    }

    method Slice(p: nat, from: int, to: int, ghost s: Text) returns (r: nat)
      requires Valid() && Holds(p, s)
      modifies this
      ensures Valid() && r == old(heap) && Holds(r, StringSpec.Slice(s, from, to))
      ensures SameBelow(old(bytes), old(heap), bytes, heap)
    {
      var len := StrLen(p, s);
      var st, en := from, to;
      if st < 0 { st := 0; }
      if st > len { st := len; }
      if en < 0 { en := len; }
      if en > len { en := len; }
      var n := en - st;
      if n < 0 { n := 0; }
      ghost var part := StringSpec.Slice(s, from, to);
      SubText(bytes, heap, p, s, st, n);
      assert part == s[st..st + n];
      r := CopyOut(p + st, n, part);
    }

    method StrEq(a: nat, b: nat, ghost sa: Text, ghost sb: Text) returns (r: int)
      requires Holds(a, sa) && Holds(b, sb)
      ensures r == if sa == sb then 1 else 0
    {
      var i := 0;
      while true
        invariant i <= |sa| && i <= |sb| && sa[..i] == sb[..i]
        decreases |sa| - i
      {
        TextByte(bytes, heap, a, sa, i);
        TextByte(bytes, heap, b, sb, i);
        var ca, cb := bytes[a + i], bytes[b + i];
        if ca != cb { return 0; }
        if ca == 0 {
          assert sa == sa[..i] && sb == sb[..i];
          return 1;
        }
        assert sa[..i + 1] == sa[..i] + [sa[i]] && sb[..i + 1] == sb[..i] + [sb[i]];
        i := i + 1;
      }
    }

    method StrCmp(a: nat, b: nat, ghost sa: Text, ghost sb: Text) returns (r: int)
      requires Holds(a, sa) && Holds(b, sb)
      ensures r == Compare(sa, sb)
      ensures (r == -1 <==> Precedes(sa, sb)) && (r == 1 <==> Precedes(sb, sa)) && (r == 0 <==> sa == sb)
    {
      var i := 0;
      ByteOrder(sa, sb);
      assert sa[0..] == sa && sb[0..] == sb;
      while true
        invariant i <= |sa| && i <= |sb| && Compare(sa[i..], sb[i..]) == Compare(sa, sb)
        decreases |sa| - i
      {
        TextByte(bytes, heap, a, sa, i);
        TextByte(bytes, heap, b, sb, i);
        var ca, cb := bytes[a + i], bytes[b + i];
        if ca != cb { return if ca < cb then -1 else 1; }
        if ca == 0 { return 0; }
        assert sa[i..][1..] == sa[i + 1..] && sb[i..][1..] == sb[i + 1..];
        i := i + 1;
      }
    }

    method FindFrom(p: nat, q: nat, from: int, ghost s: Text, ghost sub: Text) returns (r: int)
      requires Holds(p, s) && Holds(q, sub)
      ensures r == StringSpec.FindFrom(s, sub, from)
    {
      var ls := StrLen(p, s);
      var lsub := StrLen(q, sub);
      var i := from;
      if i < 0 { i := 0; }
      if i > ls { return -1; }
      if lsub == 0 {
        assert Matches(s, sub, i);
        return i;
      }
      while i + lsub <= ls
        invariant 0 <= i <= ls && Search(s, sub, i) == StringSpec.FindFrom(s, sub, from)
        decreases ls - i
      {
        var ok := MatchAt(p, q, i, lsub, s, sub);
        if ok { return i; }
        i := i + 1;
      }
      r := -1;
    }

    /** The inner comparison loop of the search. */
    method MatchAt(p: nat, q: nat, i: nat, lsub: nat, ghost s: Text, ghost sub: Text) returns (ok: bool)
      requires Holds(p, s) && Holds(q, sub) && lsub == |sub| && i + |sub| <= |s|
      ensures ok == Matches(s, sub, i)
    {
      var j := 0;
      while j < lsub
        invariant j <= lsub && s[i..i + j] == sub[..j]
      {
        TextByte(bytes, heap, p, s, i + j);
        TextByte(bytes, heap, q, sub, j);
        if bytes[p + i + j] != bytes[q + j] {
          NoMatch(s, sub, i, j);
          return false;
        }
        assert s[i..i + j + 1] == s[i..i + j] + [s[i + j]] && sub[..j + 1] == sub[..j] + [sub[j]];
        j := j + 1;
      }
      assert sub[..lsub] == sub;
      ok := true;
    }

    static lemma NoMatch(s: Text, sub: Text, i: nat, j: nat)
      requires i + |sub| <= |s| && j < |sub| && s[i + j] != sub[j]
      ensures !Matches(s, sub, i)
    {
      assert s[i..i + |sub|][j] == s[i + j];
    }

    /** One character, or nothing when its low byte is NUL. */
    method Chr(c: int) returns (r: nat)
      requires Valid()
      modifies this
      ensures Valid() && r == old(heap) && Holds(r, if c % 256 == 0 then [] else [(c % 256) as byte])
      ensures SameBelow(old(bytes), old(heap), bytes, heap)
    {
      r := Alloc(2);
      ghost var mid := bytes;
      Store(r, c % 256);
      Store(r + 1, 0);
      assert bytes[..r] == mid[..r] && bytes[r..r] == [] && bytes[r..r + 1] == [bytes[r]];
    }

    /** A 32-bit number in decimal, written backwards from the end of its 12-byte block. */
    method Itoa(v: int) returns (r: nat)
      requires Valid() && -0x8000_0000 <= v < 0x8000_0000
      modifies this
      ensures Valid() && old(heap) <= r < old(heap) + 12 && Holds(r, Decimal(v))
      ensures SameBelow(old(bytes), old(heap), bytes, heap)
    {
      DecimalFits(v);
      var p := Alloc(12);
      Store(p + 11, 0);
      ghost var mid := bytes;
      var i := WriteNumber(p, v);
      r := p + i;
      DecimalHasNoNul(v);
      BlockHolds(bytes, heap, r, Decimal(v));
      assert bytes[..p] == mid[..p];
    }

    method WriteNumber(p: nat, v: int) returns (i: nat)
      requires |Decimal(v)| <= 11 && -0x8000_0000 <= v < 0x8000_0000 && p + 11 < |bytes|
      modifies `bytes
      ensures |bytes| == |old(bytes)| && i == 11 - |Decimal(v)| && bytes[p + i..p + 11] == Decimal(v)
      ensures bytes[..p] == old(bytes)[..p] && bytes[p + 11] == old(bytes)[p + 11]
    {
      DecimalFits(v);
      var u: nat := if v < 0 then -v else v;
      if u == 0 {
        i := 10;
        bytes := bytes[p + i := 48];
        assert bytes[p + i..p + 11] == [48];
      } else {
        i := WriteDigits(p, u);
        if v < 0 { i := WriteSign(p, i, Digits(u)); }
      }
    }

    method WriteSign(p: nat, end: nat, ghost digits: Text) returns (i: nat)
      requires 0 < end <= 11 && p + 11 < |bytes| && bytes[p + end..p + 11] == digits
      modifies `bytes
      ensures |bytes| == |old(bytes)| && i == end - 1 && bytes[p + i..p + 11] == [45] + digits
      ensures bytes[..p] == old(bytes)[..p] && bytes[p + 11] == old(bytes)[p + 11]
    {
      i := end - 1;
      bytes := bytes[p + i := 45];
      assert bytes[p + i..p + 11] == [bytes[p + i]] + bytes[p + end..p + 11];
      assert bytes[p + end..p + 11] == digits;
    }

    /** The digits of a positive number, lowest first, ending in front of position 11. */
    method WriteDigits(p: nat, v: nat) returns (i: nat)
      requires v > 0 && |Digits(v)| <= 10 && p + 11 < |bytes|
      modifies `bytes
      ensures |bytes| == |old(bytes)| && i == 11 - |Digits(v)| && bytes[p + i..p + 11] == Digits(v)
      ensures bytes[..p] == old(bytes)[..p] && bytes[p + 11] == old(bytes)[p + 11]
    {
      i := 11;
      var u := v;
      assert Digits(v) == Digits(u) + bytes[p + i..p + 11];
      while u != 0
        invariant i <= 11 && |bytes| == |old(bytes)|
        invariant bytes[..p] == old(bytes)[..p] && bytes[p + 11] == old(bytes)[p + 11]
        invariant Digits(v) == Digits(u) + bytes[p + i..p + 11]
        decreases u
      {
        ghost var done := bytes[p + i..p + 11];
        i := i - 1;
        bytes := bytes[p + i := 48 + u % 10];
        assert bytes[p + i..p + 11] == [(48 + u % 10) as byte] + done;
        u := u / 10;
      }
    }

    /** Field `idx` of a text; the index is compared unsigned. */
    method Field(p: nat, idx: int, q: nat, ghost s: Text, ghost sep: Text) returns (r: nat)
      requires Valid() && Holds(p, s) && Holds(q, sep)
      requires -0x8000_0000 <= idx < 0x8000_0000 && |s| < 0x8000_0000
      modifies this
      ensures Valid() && r == old(heap) && Holds(r, StringSpec.Field(s, idx, sep))
      ensures SameBelow(old(bytes), old(heap), bytes, heap)
    {
      var found, at, n := FindField(p, idx, q, s, sep);
      assert bytes[p..p + 0] == [];
      if found {
        SubText(bytes, heap, p, s, at, n);
        r := CopyOut(p + at, n, StringSpec.Field(s, idx, sep));
      } else {
        r := CopyOut(p, 0, []);
      }
    }

    /** Skips `idx` separators; the field is the `n` bytes from `at`, or there is none. */
    method FindField(p: nat, idx: int, q: nat, ghost s: Text, ghost sep: Text) returns (found: bool, at: nat, n: nat)
      requires Holds(p, s) && Holds(q, sep) && -0x8000_0000 <= idx < 0x8000_0000 && |s| < 0x8000_0000
      ensures found ==> at + n <= |s| && s[at..at + n] == StringSpec.Field(s, idx, sep)
      ensures !found ==> StringSpec.Field(s, idx, sep) == []
    {
      var last: nat := if idx < 0 then idx + 0x1_0000_0000 else idx;
      SkipFindsField(s, idx, sep);
      n := 0;
      found, at := SkipFields(p, last, q, s, sep);
      if found {
        var e := FindFrom(p, q, at, s, sep);
        if e == -1 {
          var ls := StrLen(p, s);
          n := ls - at;
        } else {
          n := e - at;
        }
      }
    }

    /** The loop over separators: stops behind the `last`-th one, or when there are not that many. */
    method SkipFields(p: nat, last: nat, q: nat, ghost s: Text, ghost sep: Text) returns (found: bool, at: nat)
      requires Holds(p, s) && Holds(q, sep)
      ensures if found then Skip(s, sep, 0, last) == Some(at) else Skip(s, sep, 0, last) == None
      ensures at <= |s|
    {
      ghost var goal := Skip(s, sep, 0, last);
      var lsep := StrLen(q, sep);
      var cur: nat := 0;
      found, at := true, 0;
      while cur < last
        invariant cur <= last && at <= |s| && Skip(s, sep, at, last - cur) == goal
      {
        found, at := SkipOne(p, q, at, lsep, last - cur, s, sep);
        if !found { return; }
        cur := cur + 1;
      }
    }

    /** One turn of that loop: behind the next separator, if there is one. */
    method SkipOne(p: nat, q: nat, at: nat, lsep: nat, ghost k: nat, ghost s: Text, ghost sep: Text)
      returns (found: bool, next: nat)
      requires Holds(p, s) && Holds(q, sep) && lsep == |sep| && at <= |s| && k > 0
      ensures next <= |s| && Skip(s, sep, at, k) == if found then Skip(s, sep, next, k - 1) else None
    {
      SkipStep(s, sep, at, k);
      var e := FindFrom(p, q, at, s, sep);
      if e == -1 { return false, at; }
      return true, e + lsep;
    }

    /** Replaces every match of a non-empty pattern, one slice and two concatenations a match. */
    method Replace(p: nat, q: nat, w: nat, ghost s: Text, ghost old': Text, ghost new': Text) returns (r: nat)
      requires Valid() && Holds(p, s) && Holds(q, old') && Holds(w, new') && old' != []
      modifies this
      ensures Valid() && r >= old(heap) && Holds(r, StringSpec.Replace(s, old', new'))
      ensures SameBelow(old(bytes), old(heap), bytes, heap)
    {
      ghost var b0, top := bytes, heap;
      assert bytes[p..p + 0] == [];
      r := CopyOut(p, 0, []);
      ghost var done: Text := [];
      var pos := 0;
      while true
        invariant Valid() && r >= top && Holds(r, done) && pos <= |s| && SameBelow(b0, top, bytes, heap)
        invariant ReplaceFrom(s, old', new', pos, done) == StringSpec.Replace(s, old', new')
        decreases |s| - pos
      {
        AllPersist(b0, top, p, q, w, s, old', new');
        ReplaceStep(s, old', new', pos, done);
        var hit := FindFrom(p, q, pos, s, old');
        if hit == -1 {
          r := ReplaceLast(b0, top, r, p, pos, done, s);
          return;
        }
        var skip := StrLen(q, old');
        r := ReplaceOne(b0, top, r, p, w, pos, hit, done, s, new');
        done := done + s[pos..hit] + new';
        pos := hit + skip;
      }
    }

    /** The text behind the last match. */
    method ReplaceLast(ghost b0: Bytes, ghost top: nat, res: nat, p: nat, pos: nat, ghost done: Text, ghost s: Text)
      returns (r: nat)
      requires Valid() && Holds(res, done) && Holds(p, s) && pos <= |s| && SameBelow(b0, top, bytes, heap)
      modifies this
      ensures Valid() && r >= old(heap) && Holds(r, done + s[pos..]) && SameBelow(b0, top, bytes, heap)
    {
      var len := StrLen(p, s);
      r := AppendSlice(res, p, pos, len, done, s);
      Transitive(b0, top, old(bytes), old(heap), bytes, heap);
      assert s[pos..len] == s[pos..];
    }

    /** One turn of the loop: the text up to the match, then the replacement. */
    method ReplaceOne(ghost b0: Bytes, ghost top: nat, res: nat, p: nat, w: nat, pos: nat, hit: nat,
                      ghost done: Text, ghost s: Text, ghost new': Text) returns (r: nat)
      requires Valid() && Holds(res, done) && Holds(p, s) && Holds(w, new') && pos <= hit <= |s|
      requires SameBelow(b0, top, bytes, heap)
      modifies this
      ensures Valid() && r >= old(heap) && Holds(r, done + s[pos..hit] + new')
      ensures SameBelow(b0, top, bytes, heap)
    {
      r := AppendSlice(res, p, pos, hit, done, s);
      TextPersists(old(bytes), old(heap), bytes, heap, w, new');
      Transitive(b0, top, old(bytes), old(heap), bytes, heap);
      r := ConcatKeep(b0, top, r, w, done + s[pos..hit], new');
    }

    /** One unfolding of the replacement. */
    static lemma ReplaceStep(s: Text, old': Text, new': Text, pos: nat, done: Text)
      requires old' != [] && pos <= |s|
      ensures var hit := Search(s, old', pos);
              if hit == -1 then ReplaceFrom(s, old', new', pos, done) == done + s[pos..]
              else pos <= hit && hit + |old'| <= |s|
                   && ReplaceFrom(s, old', new', pos, done)
                      == ReplaceFrom(s, old', new', hit + |old'|, done + s[pos..hit] + new')
    {
      SearchIsLeast(s, old', pos);
    }

    lemma AllPersist(b: Bytes, top: nat, p: nat, q: nat, w: nat, s: Text, old': Text, new': Text)
      requires TextAt(b, top, p, s) && TextAt(b, top, q, old') && TextAt(b, top, w, new')
      requires SameBelow(b, top, bytes, heap)
      ensures Holds(p, s) && Holds(q, old') && Holds(w, new')
    {
      TextPersists(b, top, bytes, heap, p, s);
      TextPersists(b, top, bytes, heap, q, old');
      TextPersists(b, top, bytes, heap, w, new');
    }

    /** Concatenation that keeps what a caller further out has found below `top`. */
    method ConcatKeep(ghost b0: Bytes, ghost top: nat, a: nat, b: nat, ghost sa: Text, ghost sb: Text) returns (r: nat)
      requires Valid() && Holds(a, sa) && Holds(b, sb) && SameBelow(b0, top, bytes, heap)
      modifies this
      ensures Valid() && r >= old(heap) && Holds(r, sa + sb) && SameBelow(b0, top, bytes, heap)
    {
      r := Concat(a, b, sa, sb);
      Transitive(b0, top, old(bytes), old(heap), bytes, heap);
    }

    /** `res := concat(res, slice(s, from, to))`. */
    method AppendSlice(res: nat, p: nat, from: nat, to: nat, ghost done: Text, ghost s: Text) returns (r: nat)
      requires Valid() && Holds(res, done) && Holds(p, s) && from <= to <= |s|
      modifies this
      ensures Valid() && r >= old(heap) && Holds(r, done + s[from..to])
      ensures SameBelow(old(bytes), old(heap), bytes, heap)
    {
      var part := Slice(p, from, to, s);
      assert StringSpec.Slice(s, from, to) == s[from..to];
      TextPersists(old(bytes), old(heap), bytes, heap, res, done);
      r := ConcatKeep(old(bytes), old(heap), res, part, done, s[from..to]);
    }
  }

  lemma Transitive(b: Bytes, t: nat, b1: Bytes, t1: nat, b2: Bytes, t2: nat)
    requires SameBelow(b, t, b1, t1) && SameBelow(b1, t1, b2, t2)
    ensures SameBelow(b, t, b2, t2)
  {
    assert b2[..t] == b2[..t1][..t] == b1[..t1][..t] == b1[..t];
  }

  // ------------------------------------------------------------ fields, one at a time

  /** Field `k` of what is left from `at` on. */
  function FieldAt(s: Text, sep: Text, at: nat, k: nat): Text
    requires at <= |s|
  {
    if sep == [] then []
    else
      var fields := Split(s, sep, at);
      if k < |fields| then fields[k] else []
  }

  /** Where the field behind `k` more separators starts, or None when there are not that many. */
  function Skip(s: Text, sep: Text, at: nat, k: nat): (r: Option<nat>)
    requires at <= |s|
    decreases k
  {
    if k == 0 then Some(at)
    else
      var e := Search(s, sep, at);
      if e == -1 then None
      else
        SearchIsLeast(s, sep, at);
        Skip(s, sep, e + |sep|, k - 1)
  }

  lemma SkipStep(s: Text, sep: Text, at: nat, k: nat)
    requires at <= |s| && k > 0
    ensures var e := StringSpec.FindFrom(s, sep, at);
            && (e == -1 ==> Skip(s, sep, at, k) == None)
            && (e != -1 ==> at <= e && e + |sep| <= |s| && Skip(s, sep, at, k) == Skip(s, sep, e + |sep|, k - 1))
  {
    SearchIsLeast(s, sep, at);
  }

  /** The field is what lies between where it starts and the next separator. */
  lemma {:induction false} SkipIsField(s: Text, sep: Text, at: nat, k: nat)
    requires at <= |s|
    ensures match Skip(s, sep, at, k)
            case None => FieldAt(s, sep, at, k) == []
            case Some(b) =>
              var e := Search(s, sep, b);
              b <= |s| && (e == -1 || b <= e <= |s|) && FieldAt(s, sep, at, k) == s[b..if e == -1 then |s| else e]
    decreases k
  {
    SearchBounds(s, sep, at);
    var e := Search(s, sep, at);
    if k > 0 && e != -1 { SkipIsField(s, sep, e + |sep|, k - 1); }
  }

  lemma SkipFindsField(s: Text, idx: int, sep: Text)
    requires -0x8000_0000 <= idx < 0x8000_0000 && |s| < 0x8000_0000
    ensures match Skip(s, sep, 0, if idx < 0 then idx + 0x1_0000_0000 else idx)
            case None => Field(s, idx, sep) == []
            case Some(b) =>
              var e := Search(s, sep, b);
              b <= |s| && (e == -1 || b <= e <= |s|) && Field(s, idx, sep) == s[b..if e == -1 then |s| else e]
  {
    FieldFromStart(s, idx, sep);
    SkipIsField(s, sep, 0, if idx < 0 then idx + 0x1_0000_0000 else idx);
  }

  lemma {:induction false} FewFields(s: Text, sep: Text, at: nat)
    requires sep != [] && at <= |s|
    ensures |Split(s, sep, at)| <= |s| - at + 1
    decreases |s| - at
  {
    var e := Search(s, sep, at);
    if e != -1 {
      SearchIsLeast(s, sep, at);
      FewFields(s, sep, e + |sep|);
      assert |Split(s, sep, at)| == 1 + |Split(s, sep, e + |sep|)|;
    }
  }

  /** Counting unsigned, a negative index lies behind every field. */
  lemma FieldFromStart(s: Text, idx: int, sep: Text)
    requires -0x8000_0000 <= idx < 0x8000_0000 && |s| < 0x8000_0000
    ensures FieldAt(s, sep, 0, if idx < 0 then idx + 0x1_0000_0000 else idx) == Field(s, idx, sep)
  {
    if sep != [] { FewFields(s, sep, 0); }
  }
}
