/**
 The inline JSON runtime as it runs: character buffers and a pair array that are grown
 by doubling and written in place, and a cursor moving over the text.  That every write
 stays inside its buffer is part of what is proved.
 */
module JsonRuntime {
  import opened JsonText

  // ------------------------------------------------------------ looking up and replacing

  /** The value of the first pair with that key, or nothing. */
  function Lookup(ps: seq<Pair>, key: string): string {
    if ps == [] then "" else if ps[0].key == key then ps[0].val else Lookup(ps[1..], key)
  }

  /** The first pair with that key gets the value; without one, a pair is added at the end. */
  function Put(ps: seq<Pair>, key: string, val: string): seq<Pair> {
    if ps == [] then [Pair(key, val)]
    else if ps[0].key == key then [Pair(key, val)] + ps[1..]
    else [ps[0]] + Put(ps[1..], key, val)
  }

  ghost predicate DistinctKeys(ps: seq<Pair>) {
    forall i, j :: 0 <= i < j < |ps| ==> ps[i].key != ps[j].key
  }

  lemma {:induction false} LookupPut(ps: seq<Pair>, key: string, val: string, other: string)
    ensures Lookup(Put(ps, key, val), other) == if other == key then val else Lookup(ps, other)
  {
    if ps != [] && ps[0].key != key { LookupPut(ps[1..], key, val, other); }
  }

  /** A key keeps its position; a new one comes last; nothing else changes. */
  lemma {:induction false} PutShape(ps: seq<Pair>, key: string, val: string, i: nat)
    requires i < |ps| && forall k :: 0 <= k < i ==> ps[k].key != key
    ensures ps[i].key == key ==> Put(ps, key, val) == ps[i := Pair(key, val)]
    ensures ps[i].key != key && i == |ps| - 1 ==> Put(ps, key, val) == ps + [Pair(key, val)]
  {
    if i > 0 {
      assert forall k :: 0 <= k < i - 1 ==> ps[1..][k].key == ps[k + 1].key;
      PutShape(ps[1..], key, val, i - 1);
      assert ps == [ps[0]] + ps[1..];
    } else if ps[0].key != key && |ps| == 1 {
      assert Put(ps[1..], key, val) == [Pair(key, val)];
    }
  }

  lemma PutKeepsDistinct(ps: seq<Pair>, key: string, val: string)
    requires DistinctKeys(ps)
    ensures DistinctKeys(Put(ps, key, val))
  {
    if i: nat :| i < |ps| && ps[i].key == key {
      PutShape(ps, key, val, i);
    } else if ps != [] {
      PutShape(ps, key, val, |ps| - 1);
    }
  }

  /** What was put is found again after a trip through text. */
  lemma PutSurvivesText(ps: seq<Pair>, key: string, val: string)
    ensures Lookup(Parse(Stringify(Put(ps, key, val))), key) == val
  {
    ParseStringify(Put(ps, key, val), "");
    assert Stringify(Put(ps, key, val)) + "" == Stringify(Put(ps, key, val));
    LookupPut(ps, key, val, key);
  }

  // ------------------------------------------------------------ buffers

  method Grow(buf: array<char>, len: nat, cap: nat) returns (bigger: array<char>)
    requires len <= buf.Length <= cap
    ensures fresh(bigger) && bigger.Length == cap && bigger[..len] == buf[..len]
  {
    bigger := new char[cap](i => NUL);
    for i := 0 to len
      invariant bigger[..i] == buf[..i]
    {
      bigger[i] := buf[i];
    }
  }

  /** Writes `text` and a NUL at `len`; the buffer must have room for both. */
  method Print(buf: array<char>, len: nat, text: string)
    requires len + |text| < buf.Length
    modifies buf
    ensures buf[..len + |text|] == old(buf[..len]) + text && buf[len + |text|] == NUL
  {
    for i := 0 to |text|
      invariant buf[..len + i] == old(buf[..len]) + text[..i]
    {
      buf[len + i] := text[i];
    }
    buf[len + |text|] := NUL;
    assert text[..|text|] == text;
  }

  /** Reads an escaped text from `start` to its closing quote. */
  method ReadEscaped(s: string, start: nat) returns (text: string, end: nat)
    requires start <= |s|
    ensures start <= end <= |s| && (text, s[end..]) == Unescape(s[start..])
  {
    var buf := new char[64](i => NUL);
    var len: nat := 0;
    var p := start;
    assert buf[..len] == "";
    Nothing(Unescape(s[start..]).0);
    while p < |s| && s[p] != '"'
      invariant start <= p <= |s| && len < buf.Length && buf.Length >= 64 && fresh(buf)
      invariant Unescape(s[start..]) == (buf[..len] + Unescape(s[p..]).0, Unescape(s[p..]).1)
    {
      Suffixes(s, p);
      ghost var done := buf[..len];
      var c := s[p];
      p := p + 1;
      if c == '\\' && p < |s| {
        c := Decoded(s[p]);
        p := p + 1;
      }
      if len + 2 > buf.Length { buf := Grow(buf, len, 2 * buf.Length); }
      buf[len] := c;
      len := len + 1;
      Append(done, c, Unescape(s[p..]).0);
      assert buf[..len] == done + [c];
    }
    buf[len] := NUL;
    text := buf[..len];
    assert Unescape(s[p..]).0 == "" && text + "" == text;
    if p < |s| { p := p + 1; }
    end := p;
  }

  lemma Suffixes(s: string, p: nat)
    requires p < |s|
    ensures s[p..][0] == s[p] && s[p..][1..] == s[p + 1..] && |s[p..]| == |s| - p
    ensures p + 1 < |s| ==> s[p..][1] == s[p + 1] && s[p..][2..] == s[p + 2..]
  {
  }

  lemma Append(done: string, c: char, rest: string)
    ensures done + ([c] + rest) == (done + [c]) + rest
  {
  }

  /** Writes one character, escaped, making room for it and a NUL behind it. */
  method WriteChar(buf: array<char>, len: nat, c: char) returns (buf': array<char>, len': nat)
    requires len < buf.Length
    modifies buf
    ensures buf' == buf || fresh(buf')
    ensures len' < buf'.Length && buf'[..len'] == old(buf[..len]) + EscapedChar(c)
  {
    var n := if c == '"' || c == '\\' then 2 else 1;
    buf' := buf;
    if len + n + 3 > buf.Length { buf' := Grow(buf, len, (len + n + 3) * 2); }
    if n == 2 {
      buf'[len], buf'[len + 1] := '\\', c;
      len' := len + 2;
    } else if c == '\n' {
      buf'[len], buf'[len + 1] := '\\', 'n';
      len' := len + 2;
    } else if c == '\t' {
      buf'[len], buf'[len + 1] := '\\', 't';
      len' := len + 2;
    } else {
      buf'[len] := c;
      len' := len + 1;
    }
  }

  /** Writes a text with its quotes, backslashes, newlines and tabs escaped. */
  method WriteEscaped(s: string) returns (text: string)
    ensures text == Escape(s) && (IsText(s) ==> IsText(text))
  {
    var buf := new char[64](i => NUL);
    var len: nat := 0;
    assert buf[..len] == "";
    Nothing(Escape(s));
    for i := 0 to |s|
      invariant len < buf.Length && fresh(buf) && buf[..len] + Escape(s[i..]) == Escape(s)
    {
      Suffixes(s, i);
      Regroup(buf[..len], EscapedChar(s[i]), Escape(s[i + 1..]));
      buf, len := WriteChar(buf, len, s[i]);
    }
    buf[len] := NUL;
    text := buf[..len];
    assert text + Escape(s[|s|..]) == text;
    if IsText(s) { EscapeIsText(s); }
  }

  lemma Regroup(a: string, b: string, c: string)
    ensures a + (b + c) == (a + b) + c
  {
  }

  // ------------------------------------------------------------ the object

  class PnyJson {
    var pairs: array<Pair>
    var count: nat

    ghost predicate Valid()
      reads this
    {
      count <= pairs.Length
    }

    ghost function Contents(): seq<Pair>
      reads this, pairs
      requires Valid()
    {
      pairs[..count]
    }

    constructor ()
      ensures Valid() && Contents() == [] && fresh(pairs)
    {
      pairs := new Pair[0];
      count := 0;
    }

    /** Appends a pair, growing the array when it is full. */
    method Add(p: Pair)
      requires Valid()
      modifies this, pairs
      ensures Valid() && Contents() == old(Contents()) + [p]
      ensures pairs == old(pairs) || fresh(pairs)
    {
      if count == pairs.Length {
        var cap := if pairs.Length > 0 then pairs.Length * 2 else 8;
        var bigger := new Pair[cap](i => Pair("", ""));
        for i := 0 to count
          modifies bigger
          invariant bigger[..i] == pairs[..i]
        {
          bigger[i] := pairs[i];
        }
        pairs := bigger;
      }
      pairs[count] := p;
      count := count + 1;
    }

    method Get(key: string) returns (val: string)
      requires Valid()
      ensures val == Lookup(Contents(), key)
    {
      for i := 0 to count
        invariant Lookup(Contents()[i..], key) == Lookup(Contents(), key)
      {
        assert Contents()[i..][0] == pairs[i] && Contents()[i..][1..] == Contents()[i + 1..];
        if pairs[i].key == key { return pairs[i].val; }
      }
      val := "";
    }

    method Set(key: string, val: string)
      requires Valid()
      modifies this, pairs
      ensures Valid() && Contents() == Put(old(Contents()), key, val)
      ensures pairs == old(pairs) || fresh(pairs)
    {
      ghost var ps := Contents();
      for i := 0 to count
        invariant Valid() && Contents() == ps && pairs == old(pairs) && count == |ps|
        invariant forall k :: 0 <= k < i ==> ps[k].key != key
      {
        if pairs[i].key == key {
          PutShape(ps, key, val, i);
          pairs[i] := Pair(key, val);
          return;
        }
      }
      if ps != [] { PutShape(ps, key, val, |ps| - 1); }
      Add(Pair(key, val));
    }

    /** A key and the colon behind it. */
    static method ReadKey(s: string, start: nat) returns (ok: bool, key: string, next: nat)
      requires start < |s| && s[start] == '"'
      ensures start < next <= |s| && key == Unescape(s[start..][1..]).0
      ensures var r := SkipSpace(Unescape(s[start..][1..]).1);
              ok == (r != "" && r[0] == ':') && (ok ==> s[next..] == r[1..])
    {
      Suffixes(s, start);
      key, next := ReadEscaped(s, start + 1);
      next := SkipFrom(s, next);
      ok := next < |s| && s[next] == ':';
      if ok {
        Suffixes(s, next);
        next := next + 1;
      }
    }

    /** A value and the comma behind it, with the white space around them. */
    static method ReadField(s: string, start: nat) returns (val: string, next: nat)
      requires start <= |s|
      ensures start <= next <= |s| && val == Value(SkipSpace(s[start..])).0
      ensures s[next..] == SkipComma(SkipSpace(Value(SkipSpace(s[start..])).1))
    {
      next := SkipFrom(s, start);
      val, next := ReadValue(s, next);
      next := SkipFrom(s, next);
      next := SkipCommaFrom(s, next);
    }

    /** Reads one member at a quote; not ok when no colon follows its key. */
    static method ReadMember(s: string, start: nat) returns (ok: bool, pair: Pair, next: nat)
      requires start < |s| && s[start] == '"'
      ensures start < next <= |s|
      ensures Members(s[start..]) == if ok then [pair] + Members(s[next..]) else []
    {
      Suffixes(s, start);
      var key, val;
      ok, key, next := ReadKey(s, start);
      pair := Pair(key, "");
      if ok {
        val, next := ReadField(s, next);
        pair := Pair(key, val);
      }
    }

    /** Reads an object; the loop stops at the closing brace or at the first thing out of place. */
    static method Read(s: string) returns (j: PnyJson)
      ensures fresh(j) && j.Valid() && j.Contents() == Parse(s)
    {
      j := new PnyJson();
      var p := SkipFrom(s, 0);
      assert s[0..] == s;
      if p < |s| { Suffixes(s, p); }
      if p == |s| || s[p] != '{' { return; }
      p := SkipFrom(s, p + 1);
      ghost var all := Members(s[p..]);
      assert all == Parse(s);
      Start(all);
      while p < |s| && s[p] == '"'
        invariant p <= |s| && j.Valid() && fresh(j) && fresh(j.pairs)
        invariant j.Contents() + Members(s[p..]) == all
      {
        var ok, pair, next := ReadMember(s, p);
        if !ok { break; }
        Insert(j.Contents(), pair, Members(s[next..]));
        j.Add(pair);
        p := next;
      }
      if p < |s| { Suffixes(s, p); }
      assert Members(s[p..]) == [];
    }

    static lemma Start(all: seq<Pair>)
      ensures [] + all == all
    {
    }

    static lemma Insert(a: seq<Pair>, p: Pair, b: seq<Pair>)
      ensures a + ([p] + b) == (a + [p]) + b
    {
    }

    static method SkipFrom(s: string, start: nat) returns (p: nat)
      requires start <= |s|
      ensures start <= p <= |s| && s[p..] == SkipSpace(s[start..])
    {
      p := start;
      while p < |s| && IsSpace(s[p])
        invariant start <= p <= |s| && SkipSpace(s[p..]) == SkipSpace(s[start..])
      {
        Suffixes(s, p);
        p := p + 1;
      }
      if p < |s| { Suffixes(s, p); }
    }

    static method SkipCommaFrom(s: string, start: nat) returns (p: nat)
      requires start <= |s|
      ensures start <= p <= |s| && s[p..] == SkipComma(s[start..])
    {
      p := start;
      if p < |s| && s[p] == ',' {
        Suffixes(s, p);
        p := SkipFrom(s, p + 1);
      }
    }

    static method ReadValue(s: string, start: nat) returns (val: string, end: nat)
      requires start <= |s|
      ensures start <= end <= |s| && (val, s[end..]) == Value(s[start..])
    {
      if start < |s| && s[start] == '"' {
        Suffixes(s, start);
        val, end := ReadEscaped(s, start + 1);
        return;
      }
      end := start;
      assert s[start..end] == "";
      Nothing(Bare(s[start..]).0);
      while end < |s| && s[end] != ',' && s[end] != '}'
        invariant start <= end <= |s|
        invariant Bare(s[start..]) == (s[start..end] + Bare(s[end..]).0, Bare(s[end..]).1)
      {
        Suffixes(s, end);
        Append(s[start..end], s[end], Bare(s[end + 1..]).0);
        Extend(s, start, end);
        end := end + 1;
      }
      val := s[start..end];
      assert val + "" == val;
    }

    static lemma Extend(s: string, a: nat, b: nat)
      requires a <= b < |s|
      ensures s[a..b + 1] == s[a..b] + [s[b]]
    {
    }

    /** Appends one member, behind a comma unless it is the first, leaving room for the brace and a NUL. */
    static method WritePair(buf: array<char>, len: nat, p: Pair, first: bool) returns (buf': array<char>, len': nat)
      requires len + 2 <= buf.Length
      modifies buf
      ensures buf' == buf || fresh(buf')
      ensures len' + 2 <= buf'.Length
      ensures buf'[..len'] == old(buf[..len]) + (if first then "" else [',']) + Member(p)
    {
      var k := WriteEscaped(p.key);
      var v := WriteEscaped(p.val);
      var need := |k| + |v| + 8;
      buf', len' := buf, len;
      if len + need + 2 > buf.Length { buf' := Grow(buf, len, (len + need + 2) * 2); }
      if !first {
        buf'[len'] := ',';
        len' := len' + 1;
      }
      assert buf'[..len'] == old(buf[..len]) + (if first then "" else [',']);
      var m := ['"'] + k + ['"'] + [':'] + (['"'] + v + ['"']);
      assert m == Member(p);
      Print(buf', len', m);
      len' := len' + |m|;
    }

    /** Writes the object; every piece is printed into room made for it beforehand. */
    method Stringify() returns (text: string)
      requires Valid()
      ensures text == JsonText.Stringify(Contents())
      ensures AllText(Contents()) ==> IsText(text)
    {
      var buf := new char[128](i => NUL);
      var len: nat := 1;
      buf[0] := '{';
      ghost var ps := Contents();
      assert buf[..len] == ['{'];
      for i := 0 to count
        invariant Contents() == ps && count == |ps| && fresh(buf) && len + 2 <= buf.Length
        invariant buf[..len] + Joined(ps[i..], i == 0) == ['{'] + Joined(ps, true)
      {
        Ahead(ps, i);
        Threefold(buf[..len], if i == 0 then "" else [','], Member(ps[i]), Joined(ps[i + 1..], false));
        buf, len := WritePair(buf, len, pairs[i], i == 0);
      }
      assert ps[|ps|..] == [] && buf[..len] + "" == buf[..len];
      buf[len] := '}';
      len := len + 1;
      buf[len] := NUL;
      text := buf[..len];
      if AllText(ps) { StringifyIsText(ps); }
    }

    static lemma Ahead(ps: seq<Pair>, i: nat)
      requires i < |ps|
      ensures ps[i..][0] == ps[i] && ps[i..][1..] == ps[i + 1..] && ps[i..] != []
    {
    }

    static lemma Threefold(done: string, comma: string, m: string, rest: string)
      ensures done + (comma + (m + rest)) == ((done + comma) + m) + rest
    {
    }
  }
}
