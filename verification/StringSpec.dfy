/** What the emitted string routines compute, on byte sequences. */
module StringSpec {

  import opened Leb128

  // Search as least match, splitting into fields, replacement as split and join, byte
  // order, and decimal numbers.

  type Text = seq<byte>

  // ------------------------------------------------------------ searching

  predicate Matches(s: Text, sub: Text, i: nat) {
    i + |sub| <= |s| && s[i..i + |sub|] == sub
  }

  /** The least match from `i` on, or -1. */
  function Search(s: Text, sub: Text, i: nat): (r: int)
    ensures r == -1 || r >= i
    decreases |s| - i
  {
    if i + |sub| > |s| then -1 else if Matches(s, sub, i) then i else Search(s, sub, i + 1)
  }

  /** `find_from`: a negative start is 0, a start behind the end finds nothing. */
  function FindFrom(s: Text, sub: Text, from: int): int {
    if from > |s| then -1 else Search(s, sub, if from < 0 then 0 else from)
  }

  lemma {:induction false} SearchIsLeast(s: Text, sub: Text, i: nat)
    ensures var r := Search(s, sub, i);
            && (r == -1 <==> forall k: nat :: k >= i ==> !Matches(s, sub, k))
            && (r >= 0 ==> Matches(s, sub, r) && forall k: nat :: i <= k < r ==> !Matches(s, sub, k))
    decreases |s| - i
  {
    if i + |sub| <= |s| && !Matches(s, sub, i) { SearchIsLeast(s, sub, i + 1); }
  }

  /** A match lies in the text, behind the start; nothing is found everywhere. */
  lemma SearchBounds(s: Text, sub: Text, i: nat)
    requires i <= |s|
    ensures var r := Search(s, sub, i);
            (r == -1 || (i <= r && r + |sub| <= |s|)) && (sub == [] ==> r == i)
  {
    SearchIsLeast(s, sub, i);
    if sub == [] { assert Matches(s, sub, i); }
  }

  /** `find_from` answers the least match at or behind its start, and -1 exactly when there is none. */
  lemma FindFromIsLeast(s: Text, sub: Text, from: int)
    ensures var r := FindFrom(s, sub, from);
            && (r == -1 <==> from > |s| || forall k: nat :: k >= from ==> !Matches(s, sub, k))
            && (r != -1 ==> r >= 0 && r >= from && Matches(s, sub, r)
                            && forall k: nat :: from <= k < r ==> !Matches(s, sub, k))
  {
    SearchIsLeast(s, sub, if from < 0 then 0 else from);
  }

  // ------------------------------------------------------------ slicing

  function Clamp(x: int, n: nat): (r: nat)
    ensures r <= n
  {
    if x < 0 then 0 else if x > n then n else x
  }

  /** A negative end means the end of the text. */
  function Slice(s: Text, from: int, to: int): Text {
    var a := Clamp(from, |s|);
    var b := if to < 0 then |s| else Clamp(to, |s|);
    if b <= a then [] else s[a..b]
  }

  /** Exactly the bytes from the start on and before the end, where the end is not negative, in their order. */
  lemma SliceHolds(s: Text, from: int, to: int, p: nat)
    requires p < |s|
    ensures var r, first := Slice(s, from, to), if from < 0 then 0 else from;
            && (from <= p && (to < 0 || p < to) <==> first <= p < first + |r|)
            && (first <= p < first + |r| ==> r[p - first] == s[p])
            && (r != [] ==> first + |r| <= |s|)
  {
  }

  // ------------------------------------------------------------ fields

  /** Everything from `p` on, split at each least match of a non-empty separator. */
  function Split(s: Text, sep: Text, p: nat): (r: seq<Text>)
    requires sep != [] && p <= |s|
    ensures r != []
    decreases |s| - p
  {
    var e := Search(s, sep, p);
    if e == -1 then [s[p..]]
    else
      SearchIsLeast(s, sep, p);
      [s[p..e]] + Split(s, sep, e + |sep|)
  }

  function Join(parts: seq<Text>, sep: Text): Text
    requires parts != []
  {
    if |parts| == 1 then parts[0] else parts[0] + sep + Join(parts[1..], sep)
  }

  lemma Cut(s: Text, p: nat, e: nat, q: nat)
    requires p <= e <= q <= |s|
    ensures s[p..] == s[p..e] + s[e..q] + s[q..]
  {
  }

  /** Joining the fields with the separator gives the text back. */
  lemma {:induction false} SplitJoin(s: Text, sep: Text, p: nat)
    requires sep != [] && p <= |s|
    ensures Join(Split(s, sep, p), sep) == s[p..]
    decreases |s| - p
  {
    var e := Search(s, sep, p);
    if e != -1 {
      AtMatch(s, sep, p);
      SplitJoin(s, sep, e + |sep|);
      JoinCons(s[p..e], Split(s, sep, e + |sep|), sep);
    }
  }

  /** The text from `p` on around its first match. */
  lemma AtMatch(s: Text, sep: Text, p: nat)
    requires p <= |s| && Search(s, sep, p) != -1
    ensures var e := Search(s, sep, p);
            p <= e && e + |sep| <= |s| && s[p..] == s[p..e] + sep + s[e + |sep|..]
  {
    var e := Search(s, sep, p);
    SearchIsLeast(s, sep, p);
    Cut(s, p, e, e + |sep|);
  }

  lemma JoinCons(first: Text, rest: seq<Text>, sep: Text)
    requires rest != []
    ensures Join([first] + rest, sep) == first + sep + Join(rest, sep)
  {
    assert ([first] + rest)[1..] == rest;
  }

  lemma Within(s: Text, p: nat, q: nat, k: nat, n: nat)
    requires p <= q <= |s| && k + n <= q - p
    ensures s[p..q][k..k + n] == s[p + k..p + k + n]
    ensures s[p..|s|] == s[p..]
  {
    var part, all, want := s[p..q], s[p..q][k..k + n], s[p + k..p + k + n];
    forall i | 0 <= i < n ensures all[i] == want[i] {
      assert all[i] == part[k + i] == s[p + k + i] == want[i];
    }
  }

  /** No field contains the separator. */
  lemma {:induction false} FieldsAreFree(s: Text, sep: Text, p: nat, i: nat, k: nat)
    requires sep != [] && p <= |s| && i < |Split(s, sep, p)|
    ensures !Matches(Split(s, sep, p)[i], sep, k)
    decreases |s| - p
  {
    var e := Search(s, sep, p);
    SearchIsLeast(s, sep, p);
    if e == -1 {
      assert !Matches(s, sep, p + k);
      if k + |sep| <= |s[p..]| { Within(s, p, |s|, k, |sep|); }
    } else if i == 0 {
      if k + |sep| <= e - p {
        Within(s, p, e, k, |sep|);
        assert !Matches(s, sep, p + k);
      }
    } else {
      FieldsAreFree(s, sep, e + |sep|, i - 1, k);
    }
  }

  /** Field `idx`, counted unsigned: a negative index is behind every field. */
  function Field(s: Text, idx: int, sep: Text): Text {
    if sep == [] then []
    else
      var fields := Split(s, sep, 0);
      if 0 <= idx < |fields| then fields[idx] else []
  }

  /** Which field it is, and when there is none. */
  lemma FieldIs(s: Text, idx: int, sep: Text)
    ensures sep == [] || idx < 0 ==> Field(s, idx, sep) == []
    ensures sep != [] && idx >= 0 ==>
              Field(s, idx, sep) == (if idx < |Split(s, sep, 0)| then Split(s, sep, 0)[idx] else [])
  {
  }

  /** The native routine counts signed: a negative index is the first field. */
  function NativeField(s: Text, idx: int, sep: Text): Text {
    Field(s, if idx < 0 then 0 else idx, sep)
  }

  /** The two back ends disagree exactly on a negative index into a text whose first field is not empty. */
  lemma FieldsAgreeIff(s: Text, idx: int, sep: Text)
    ensures Field(s, idx, sep) == NativeField(s, idx, sep)
            <==> idx >= 0 || sep == [] || Search(s, sep, 0) == 0 || s == []
  {
    if sep != [] {
      SearchIsLeast(s, sep, 0);
      var e := Search(s, sep, 0);
      var first := Split(s, sep, 0)[0];
      assert e == -1 ==> first == s;
      assert e != -1 ==> first == s[0..e];
    }
  }

  /** `field("ab", -1, ",")`: nothing in the emitted code, "ab" in the native one. */
  lemma FieldsDiffer()
    ensures Field([97, 98], -1, [44]) == [] && NativeField([97, 98], -1, [44]) == [97, 98]
  {
    var s, sep: Text := [97, 98], [44];
    assert s[0..1][0] == 97 && s[1..2][0] == 98;
    assert !Matches(s, sep, 0) && !Matches(s, sep, 1);
    assert Search(s, sep, 1) == -1 && Search(s, sep, 0) == -1;
    assert Split(s, sep, 0) == [s[0..]] && s[0..] == s;
  }

  // ------------------------------------------------------------ replacement

  /** `str_replace_all` from `pos` on, with `done` built so far. */
  function ReplaceFrom(s: Text, old': Text, new': Text, pos: nat, done: Text): Text
    requires old' != [] && pos <= |s|
    decreases |s| - pos
  {
    var p := Search(s, old', pos);
    if p == -1 then done + s[pos..]
    else
      SearchIsLeast(s, old', pos);
      ReplaceFrom(s, old', new', p + |old'|, done + s[pos..p] + new')
  }

  lemma Regroup(a: Text, b: Text, c: Text, d: Text)
    ensures (a + b + c) + d == a + (b + c + d)
  {
  }

  function Replace(s: Text, old': Text, new': Text): Text
    requires old' != []
  {
    ReplaceFrom(s, old', new', 0, [])
  }

  lemma {:induction false} ReplaceFromIsJoin(s: Text, old': Text, new': Text, pos: nat, done: Text)
    requires old' != [] && pos <= |s|
    ensures ReplaceFrom(s, old', new', pos, done) == done + Join(Split(s, old', pos), new')
    decreases |s| - pos
  {
    var p := Search(s, old', pos);
    if p != -1 {
      SearchIsLeast(s, old', pos);
      var rest := Split(s, old', p + |old'|);
      ReplaceFromIsJoin(s, old', new', p + |old'|, done + s[pos..p] + new');
      JoinCons(s[pos..p], rest, new');
      Regroup(done, s[pos..p], new', Join(rest, new'));
    }
  }

  /** Replacing is splitting at the pattern and joining with the replacement. */
  lemma ReplaceIsSplitJoin(s: Text, old': Text, new': Text)
    requires old' != []
    ensures Replace(s, old', new') == Join(Split(s, old', 0), new')
    ensures Replace(s, old', old') == s
  {
    ReplaceFromIsJoin(s, old', new', 0, []);
    ReplaceFromIsJoin(s, old', old', 0, []);
    SplitJoin(s, old', 0);
    assert [] + Join(Split(s, old', 0), new') == Join(Split(s, old', 0), new');
    assert [] + s[0..] == s;
  }

  /** Where the replacement loop stands: finished with a text, or at a position with a text built so far. */
  datatype Turn = Finished(text: Text) | At(pos: nat, done: Text)

  /** The loop after `n` turns, whatever the pattern. */
  function Turns(s: Text, old': Text, new': Text, n: nat): (t: Turn)
    ensures t.At? ==> t.pos <= |s|
  {
    if n == 0 then At(0, [])
    else
      match Turns(s, old', new', n - 1)
      case Finished(text) => Finished(text)
      case At(pos, done) =>
        var p := Search(s, old', pos);
        SearchIsLeast(s, old', pos);
        if p == -1 then Finished(done + s[pos..]) else At(p + |old'|, done + s[pos..p] + new')
  }

  lemma {:induction false} TurnsAdvance(s: Text, old': Text, new': Text, n: nat)
    requires old' != []
    ensures match Turns(s, old', new', n)
            case Finished(text) => text == Replace(s, old', new')
            case At(pos, done) => pos >= n && ReplaceFrom(s, old', new', pos, done) == Replace(s, old', new')
  {
    if n > 0 {
      TurnsAdvance(s, old', new', n - 1);
      var t := Turns(s, old', new', n - 1);
      if t.At? { SearchIsLeast(s, old', t.pos); }
    }
  }

  lemma {:induction false} TurnsStay(s: Text, new': Text, n: nat)
    ensures Turns(s, [], new', n).At? && Turns(s, [], new', n).pos == 0
  {
    if n > 0 {
      TurnsStay(s, new', n - 1);
      SearchIsLeast(s, [], 0);
      assert Matches(s, [], 0);
    }
  }

  /**
   The replacement loop ends if and only if the pattern is not empty, and then within one
   turn more than the text has bytes and with every match replaced.
   */
  lemma ReplaceEndsIff(s: Text, old': Text, new': Text)
    ensures (exists n: nat :: Turns(s, old', new', n).Finished?) <==> old' != []
    ensures old' != [] ==> Turns(s, old', new', |s| + 1) == Finished(Replace(s, old', new'))
  {
    if old' == [] {
      forall n: nat ensures !Turns(s, old', new', n).Finished? { TurnsStay(s, new', n); }
    } else {
      TurnsAdvance(s, old', new', |s| + 1);
      assert Turns(s, old', new', |s| + 1).Finished?;
    }
  }

  // ------------------------------------------------------------ comparison

  /** Byte order, unsigned, a proper prefix first. */
  function Compare(a: Text, b: Text): int {
    if a == [] && b == [] then 0
    else if a == [] then -1
    else if b == [] then 1
    else if a[0] != b[0] then (if a[0] < b[0] then -1 else 1)
    else Compare(a[1..], b[1..])
  }

  /** A total order whose ties are equalities. */
  lemma {:induction false} CompareIsTotalOrder(a: Text, b: Text, c: Text)
    ensures Compare(a, b) == 0 <==> a == b
    ensures Compare(a, b) == -Compare(b, a)
    ensures Compare(a, b) <= 0 && Compare(b, c) <= 0 ==> Compare(a, c) <= 0
  {
    if a != [] && b != [] {
      CompareIsTotalOrder(a[1..], b[1..], if c == [] then [] else c[1..]);
      assert a == [a[0]] + a[1..] && b == [b[0]] + b[1..];
    } else if a != [] || b != [] {
    }
  }

  /** The first text ends first, or has the smaller byte at the first difference. */
  ghost predicate Precedes(a: Text, b: Text) {
    (|a| < |b| && b[..|a|] == a) || exists k: nat :: DiffersBelow(a, b, k)
  }

  predicate DiffersBelow(a: Text, b: Text, k: nat) {
    k < |a| && k < |b| && a[..k] == b[..k] && a[k] < b[k]
  }

  lemma {:induction false} ComparePrecedes(a: Text, b: Text)
    ensures Compare(a, b) == -1 <==> Precedes(a, b)
  {
    if a != [] && b != [] {
      if a[0] == b[0] {
        ComparePrecedes(a[1..], b[1..]);
        PrecedesBehind(a, b);
      } else {
        assert a[0] < b[0] ==> DiffersBelow(a, b, 0);
        assert forall k: nat :: DiffersBelow(a, b, k) && k > 0 ==> a[..k][0] == b[..k][0];
        assert |a| < |b| ==> b[..|a|][0] == b[0];
      }
    }
  }

  /** Behind an equal first byte. */
  lemma PrecedesBehind(a: Text, b: Text)
    requires a != [] && b != [] && a[0] == b[0]
    ensures Precedes(a, b) <==> Precedes(a[1..], b[1..])
  {
    var a', b' := a[1..], b[1..];
    assert |a| < |b| ==> (b[..|a|] == a <==> b'[..|a'|] == a') by {
      if |a| < |b| { assert b[..|a|] == [b[0]] + b'[..|a'|] && a == [a[0]] + a'; }
    }
    forall k: nat | k < |a'| && k < |b'| ensures DiffersBelow(a', b', k) <==> DiffersBelow(a, b, k + 1) {
      assert a[..k + 1] == [a[0]] + a'[..k] && b[..k + 1] == [b[0]] + b'[..k];
      assert a[..k + 1][1..] == a'[..k] && b[..k + 1][1..] == b'[..k];
    }
    if k: nat :| DiffersBelow(a, b, k) {
      assert k > 0 && DiffersBelow(a', b', k - 1);
    }
    if k: nat :| DiffersBelow(a', b', k) { assert DiffersBelow(a, b, k + 1); }
  }

  /**
   The answer is -1 exactly when the first text is a proper prefix of the second or has the
   smaller byte at the first position where they differ; 1 exactly the other way round.
   */
  lemma CompareIsByteOrder(a: Text, b: Text)
    ensures Compare(a, b) == -1 <==>
              (|a| < |b| && b[..|a|] == a)
              || exists k: nat :: k < |a| && k < |b| && a[..k] == b[..k] && a[k] < b[k]
    ensures Compare(a, b) == 1 <==>
              (|b| < |a| && a[..|b|] == b)
              || exists k: nat :: k < |b| && k < |a| && b[..k] == a[..k] && b[k] < a[k]
    ensures Compare(a, b) == 0 <==> a == b
  {
    ByteOrder(a, b);
    Spelled(a, b);
    Spelled(b, a);
  }

  lemma ByteOrder(a: Text, b: Text)
    ensures (Compare(a, b) == -1 <==> Precedes(a, b)) && (Compare(a, b) == 1 <==> Precedes(b, a))
    ensures Compare(a, b) == 0 <==> a == b
  {
    ComparePrecedes(a, b);
    ComparePrecedes(b, a);
    CompareIsTotalOrder(a, b, b);
  }

  lemma Spelled(a: Text, b: Text)
    ensures (exists k: nat :: DiffersBelow(a, b, k))
            <==> exists k: nat :: k < |a| && k < |b| && a[..k] == b[..k] && a[k] < b[k]
  {
    if k: nat :| k < |a| && k < |b| && a[..k] == b[..k] && a[k] < b[k] { assert DiffersBelow(a, b, k); }
  }

  // ------------------------------------------------------------ decimal numbers

  function Digits(v: nat): (r: Text)
    ensures v == 0 <==> r == []
    ensures forall i :: 0 <= i < |r| ==> 48 <= r[i] <= 57
    ensures r != [] ==> r[0] != 48
    decreases v
  {
    if v == 0 then [] else Digits(v / 10) + [(48 + v % 10) as byte]
  }

  function Decimal(v: int): Text {
    if v == 0 then [48] else if v < 0 then [45] + Digits(-v) else Digits(v)
  }

  /** Digit by digit, with a sign in front of negative numbers. */
  lemma DecimalWritten(v: nat, d: nat)
    requires d < 10
    ensures Decimal(d) == [(48 + d) as byte]
    ensures v > 0 ==> Decimal(10 * v + d) == Decimal(v) + [(48 + d) as byte] && Decimal(0 - v) == [45] + Decimal(v)
  {
    assert (10 * v + d) / 10 == v && (10 * v + d) % 10 == d;
    assert d > 0 ==> Digits(d) == Digits(0) + [(48 + d) as byte];
  }

  lemma DecimalHasNoNul(v: int)
    ensures (0 as byte) !in Decimal(v)
  {
    var d := Digits(if v < 0 then -v else v);
    assert forall i :: 0 <= i < |d| ==> d[i] != 0;
  }

  function NumberOf(r: Text): int {
    if r == [] then 0 else 10 * NumberOf(r[..|r| - 1]) + r[|r| - 1] as int - 48
  }

  function Read(r: Text): int {
    if r != [] && r[0] as int == 45 then -NumberOf(r[1..]) else NumberOf(r)
  }

  lemma {:induction false} DigitsRead(v: nat)
    ensures NumberOf(Digits(v)) == v
    decreases v
  {
    if v > 0 {
      DigitsRead(v / 10);
      var r := Digits(v);
      assert r[..|r| - 1] == Digits(v / 10);
    }
  }

  /** A printed number reads back as itself. */
  lemma DecimalReadsBack(v: int)
    ensures Read(Decimal(v)) == v
  {
    if v == 0 {
      ReadZero();
    } else {
      var n: nat := if v < 0 then -v else v;
      DigitsRead(n);
      ReadSigned(Digits(n), v < 0);
    }
  }

  lemma ReadZero()
    ensures Read([48]) == 0
  {
    assert [48][..0] == [];
    assert NumberOf([48]) == 10 * NumberOf([]) + 0;
  }

  lemma ReadSigned(d: Text, negative: bool)
    requires d != [] && d[0] as int >= 48
    ensures Read(if negative then [45] + d else d) == if negative then -NumberOf(d) else NumberOf(d)
  {
    if negative { ReadNegative(d); }
  }

  lemma ReadNegative(d: Text)
    ensures Read([45] + d) == -NumberOf(d)
  {
    assert ([45] + d)[1..] == d;
  }

  function Pow10(n: nat): nat {
    if n == 0 then 1 else 10 * Pow10(n - 1)
  }

  lemma {:induction false} DigitCount(v: nat, n: nat)
    ensures |Digits(v)| <= n <==> v < Pow10(n)
    decreases v
  {
    if v > 0 && n > 0 { DigitCount(v / 10, n - 1); }
    if n == 0 { assert v > 0 ==> |Digits(v)| > 0; }
    PowPositive(n);
  }

  lemma {:induction false} PowPositive(n: nat)
    ensures Pow10(n) >= 1
  {
    if n > 0 { PowPositive(n - 1); }
  }

  /** Every 32-bit number, the least one included, takes at most eleven characters. */
  lemma DecimalFits(v: int)
    requires -0x8000_0000 <= v < 0x8000_0000
    ensures |Decimal(v)| <= 11 && |Decimal(-0x8000_0000)| == 11
    ensures |Digits(if v < 0 then -v else v)| <= 10
  {
    assert Pow10(5) == 100_000;
    assert Pow10(9) == 1_000_000_000 && Pow10(10) == 10_000_000_000;
    DigitCount(if v < 0 then -v else v, 10);
    DigitCount(0x8000_0000, 10);
    DigitCount(0x8000_0000, 9);
  }
}
