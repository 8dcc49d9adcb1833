/** The flat JSON texts the inline runtime reads and writes. */
module JsonText {

  // Functions on C strings (text up to, and without, the terminating NUL), and the round
  // trip between them.

  const NUL := '\0'

  datatype Pair = Pair(key: string, val: string)

  /** What pointers to C strings can point at. */
  predicate IsText(s: string) {
    NUL !in s
  }

  predicate AllText(ps: seq<Pair>) {
    forall i :: 0 <= i < |ps| ==> IsText(ps[i].key) && IsText(ps[i].val)
  }

  // ------------------------------------------------------------ reading

  function Decoded(e: char): char {
    if e == 'n' then '\n' else if e == 't' then '\t' else e
  }

  /** The text up to the closing quote, and what follows that quote. */
  function Unescape(s: string): (r: (string, string))
    ensures |r.1| <= |s|
  {
    if s == "" then ("", "")
    else if s[0] == '"' then ("", s[1..])
    else if s[0] == '\\' && |s| > 1 then
      var (t, rest) := Unescape(s[2..]);
      ([Decoded(s[1])] + t, rest)
    else
      var (t, rest) := Unescape(s[1..]);
      ([s[0]] + t, rest)
  }

  predicate IsSpace(c: char) {
    c == ' ' || c == '\t' || c == '\n' || c == '\r'
  }

  function SkipSpace(s: string): (r: string)
    ensures |r| <= |s|
  {
    if s != "" && IsSpace(s[0]) then SkipSpace(s[1..]) else s
  }

  /** An unquoted value runs to the next comma or brace. */
  function Bare(s: string): (r: (string, string))
    ensures |r.1| <= |s|
  {
    if s == "" || s[0] == ',' || s[0] == '}' then ("", s)
    else
      var (t, rest) := Bare(s[1..]);
      ([s[0]] + t, rest)
  }

  function Value(s: string): (r: (string, string))
    ensures |r.1| <= |s|
  {
    if s != "" && s[0] == '"' then Unescape(s[1..]) else Bare(s)
  }

  function SkipComma(s: string): (r: string)
    ensures |r| <= |s|
  {
    if s != "" && s[0] == ',' then SkipSpace(s[1..]) else s
  }

  /** The members from here on; anything unexpected ends the object. */
  function Members(s: string): seq<Pair>
    decreases |s|
  {
    if s == "" || s[0] != '"' then []
    else
      var (k, r) := Unescape(s[1..]);
      var r1 := SkipSpace(r);
      if r1 == "" || r1[0] != ':' then []
      else
        var (v, r2) := Value(SkipSpace(r1[1..]));
        [Pair(k, v)] + Members(SkipComma(SkipSpace(r2)))
  }

  function Parse(s: string): seq<Pair> {
    var t := SkipSpace(s);
    if t == "" || t[0] != '{' then [] else Members(SkipSpace(t[1..]))
  }

  // ------------------------------------------------------------ writing

  function EscapedChar(c: char): string {
    if c == '"' || c == '\\' then ['\\', c]
    else if c == '\n' then ['\\', 'n']
    else if c == '\t' then ['\\', 't']
    else [c]
  }

  function Escape(s: string): (r: string)
    ensures |s| <= |r| <= 2 * |s|
  {
    if s == "" then "" else EscapedChar(s[0]) + Escape(s[1..])
  }

  function Quoted(s: string): string {
    ['"'] + Escape(s) + ['"']
  }

  function Member(p: Pair): string {
    Quoted(p.key) + [':'] + Quoted(p.val)
  }

  /** The members still to be written; all but the first follow a comma. */
  function Joined(ps: seq<Pair>, first: bool): string {
    if ps == [] then "" else (if first then "" else [',']) + (Member(ps[0]) + Joined(ps[1..], false))
  }

  function Stringify(ps: seq<Pair>): string {
    ['{'] + Joined(ps, true) + ['}']
  }

  // ------------------------------------------------------------ escape and unescape

  lemma UnescapeChar(c: char, rest: string)
    ensures Unescape(EscapedChar(c) + rest) == (var (t, r) := Unescape(rest); ([c] + t, r))
  {
    var s := EscapedChar(c) + rest;
    if |EscapedChar(c)| == 2 {
      assert s[2..] == rest;
    } else {
      assert s[1..] == rest;
    }
  }

  /** Reading back what was escaped gives the text, and stops right behind its closing quote. */
  lemma {:induction false} UnescapeEscape(s: string, rest: string)
    ensures Unescape(Escape(s) + (['"'] + rest)) == (s, rest)
  {
    var tail := ['"'] + rest;
    if s == "" {
      assert Escape(s) + tail == tail && tail[1..] == rest;
    } else {
      assert Escape(s) + tail == EscapedChar(s[0]) + (Escape(s[1..]) + tail);
      UnescapeChar(s[0], Escape(s[1..]) + tail);
      UnescapeEscape(s[1..], rest);
      assert [s[0]] + s[1..] == s;
    }
  }

  lemma {:induction false} EscapeIsText(s: string)
    requires IsText(s)
    ensures IsText(Escape(s))
  {
    if s != "" { EscapeIsText(s[1..]); }
  }

  /** The character a one-letter escape stands for in JSON (section 7 of RFC 8259). */
  function Standard(e: char): char
    requires e in "\"\\/bfnrt"
  {
    if e == 'b' then 8 as char else if e == 'f' then 12 as char else if e == 'n' then '\n'
    else if e == 'r' then '\r' else if e == 't' then '\t' else e
  }

  /** Other writers' escapes are read as meant, except backspace, form feed and carriage return. */
  lemma StandardEscapesIff(e: char, rest: string)
    requires e in "\"\\/bfnrt"
    ensures Unescape(['\\', e] + rest).0 == [Standard(e)] + Unescape(rest).0 <==> e != 'b' && e != 'f' && e != 'r'
  {
    assert (['\\', e] + rest)[2..] == rest;
    assert Unescape(['\\', e] + rest).0 == [Decoded(e)] + Unescape(rest).0;
    assert ([Decoded(e)] + Unescape(rest).0)[0] == Decoded(e);
    assert ([Standard(e)] + Unescape(rest).0)[0] == Standard(e);
  }

  // ------------------------------------------------------------ objects, in any layout

  /** How one member is written: the white space around its punctuation, and whether the value is quoted. */
  datatype Gaps = Gaps(quoted: bool, beforeColon: string, afterColon: string, afterValue: string, afterComma: string)

  predicate IsBlank(s: string) {
    forall i :: 0 <= i < |s| ==> s[i] in " \t\n\r"
  }

  predicate AllBlank(g: Gaps) {
    IsBlank(g.beforeColon) && IsBlank(g.afterColon) && IsBlank(g.afterValue) && IsBlank(g.afterComma)
  }

  /**
   Numbers, literals, and whatever else stands without quotes: no comma and no closing
   brace, and no white space or quote in front.  White space behind belongs to the value.
   */
  predicate IsBare(v: string) {
    && (forall i :: 0 <= i < |v| ==> v[i] != ',' && v[i] != '}')
    && (v != "" ==> v[0] !in " \t\n\r" && v[0] != '"')
  }

  /** The layout suits the member. */
  predicate Suits(g: Gaps, p: Pair) {
    AllBlank(g) && (g.quoted || (IsBare(p.val) && g.afterValue == ""))
  }

  predicate AllSuit(ps: seq<Pair>, gs: seq<Gaps>) {
    |gs| == |ps| && forall i :: 0 <= i < |ps| ==> Suits(gs[i], ps[i])
  }

  /** The value as written, with what follows it. */
  function Valued(v: string, quoted: bool, rest: string): string {
    if quoted then ['"'] + (Escape(v) + (['"'] + rest)) else v + rest
  }

  lemma {:induction false} ReadBare(v: string, rest: string)
    requires (forall i :: 0 <= i < |v| ==> v[i] != ',' && v[i] != '}')
    requires rest != "" && (rest[0] == ',' || rest[0] == '}')
    ensures Bare(v + rest) == (v, rest)
  {
    if v == "" {
      assert v + rest == rest;
    } else {
      assert (v + rest)[1..] == v[1..] + rest;
      ReadBare(v[1..], rest);
      assert [v[0]] + v[1..] == v;
    }
  }

  /** A value is read as it was meant, and the cursor stands behind it. */
  lemma ReadValue(p: Pair, g: Gaps, next: string)
    requires Suits(g, p) && next != "" && (next[0] == ',' || next[0] == '}')
    ensures var s := Valued(p.val, g.quoted, g.afterValue + next);
            && SkipSpace(g.afterColon + s) == s
            && Value(s) == (p.val, g.afterValue + next)
  {
    var s := Valued(p.val, g.quoted, g.afterValue + next);
    if g.quoted {
      assert s[1..] == Escape(p.val) + (['"'] + (g.afterValue + next));
      UnescapeEscape(p.val, g.afterValue + next);
    } else {
      Nothing(next);
      ReadBare(p.val, next);
      assert p.val == "" ==> s == next;
    }
    SkipBlank(g.afterColon, s);
  }

  lemma {:induction false} SkipBlank(w: string, rest: string)
    requires IsBlank(w) && (rest == "" || !IsSpace(rest[0]))
    ensures SkipSpace(w + rest) == rest
  {
    if w == "" {
      assert w + rest == rest;
    } else {
      assert (w + rest)[1..] == w[1..] + rest;
      SkipBlank(w[1..], rest);
    }
  }

  /** The members as any writer may lay them out, then the closing brace and whatever is behind it. */
  function Laid(ps: seq<Pair>, gs: seq<Gaps>, after: string): (r: string)
    requires |gs| == |ps|
    ensures r != "" && !IsSpace(r[0])
    decreases |ps|, 1
  {
    if ps == [] then ['}'] + after
    else
      ['"'] + (Escape(ps[0].key) + (['"'] + (gs[0].beforeColon + ([':'] + (gs[0].afterColon
      + Valued(ps[0].val, gs[0].quoted, gs[0].afterValue + Next(ps, gs, after)))))))
  }

  /** Behind a member: a comma and the next one, or the end. */
  function Next(ps: seq<Pair>, gs: seq<Gaps>, after: string): (r: string)
    requires |gs| == |ps| && ps != []
    ensures r != "" && (r[0] == ',' || r[0] == '}')
    decreases |ps|, 0
  {
    if |ps| == 1 then ['}'] + after else [','] + (gs[0].afterComma + Laid(ps[1..], gs[1..], after))
  }

  /** One member is read and the cursor stands behind its comma. */
  lemma ReadMember(ps: seq<Pair>, gs: seq<Gaps>, after: string)
    requires |gs| == |ps| && ps != [] && Suits(gs[0], ps[0])
    ensures Members(Laid(ps, gs, after)) == [ps[0]] + Members(SkipComma(Next(ps, gs, after)))
  {
    var g, next := gs[0], Next(ps, gs, after);
    var v3 := Valued(ps[0].val, g.quoted, g.afterValue + next);
    var v2 := [':'] + (g.afterColon + v3);
    var v1 := g.beforeColon + v2;
    var s := Laid(ps, gs, after);
    assert s == ['"'] + (Escape(ps[0].key) + (['"'] + v1));
    assert s[1..] == Escape(ps[0].key) + (['"'] + v1);
    UnescapeEscape(ps[0].key, v1);
    SkipBlank(g.beforeColon, v2);
    assert v2[1..] == g.afterColon + v3;
    ReadValue(ps[0], g, next);
    SkipBlank(g.afterValue, next);
  }

  lemma {:induction false} ReadMembers(ps: seq<Pair>, gs: seq<Gaps>, after: string)
    requires AllSuit(ps, gs)
    ensures Members(Laid(ps, gs, after)) == ps
    decreases |ps|
  {
    if ps != [] {
      ReadMember(ps, gs, after);
      var next := Next(ps, gs, after);
      if |ps| > 1 {
        assert next[1..] == gs[0].afterComma + Laid(ps[1..], gs[1..], after);
        SkipBlank(gs[0].afterComma, Laid(ps[1..], gs[1..], after));
        ReadMembers(ps[1..], gs[1..], after);
        assert [ps[0]] + ps[1..] == ps;
      } else {
        assert Members(next) == [] && ps == [ps[0]];
      }
    }
  }

  /** Any layout of a flat object, its values quoted or not, parses to its members, in order. */
  lemma ParseAnyLayout(ps: seq<Pair>, gs: seq<Gaps>, before: string, open: string, after: string)
    requires AllSuit(ps, gs) && IsBlank(before) && IsBlank(open)
    ensures Parse(before + (['{'] + (open + Laid(ps, gs, after)))) == ps
  {
    var inner := Laid(ps, gs, after);
    SkipBlank(before, ['{'] + (open + inner));
    assert (['{'] + (open + inner))[1..] == open + inner;
    SkipBlank(open, inner);
    ReadMembers(ps, gs, after);
  }

  const TIGHT := Gaps(true, "", "", "", "")

  function Tight(n: nat): (gs: seq<Gaps>)
    ensures |gs| == n && forall i :: 0 <= i < n ==> gs[i] == TIGHT
  {
    seq(n, i => TIGHT)
  }

  /** What the writer emits is the tight layout. */
  lemma {:induction false} JoinedIsTight(ps: seq<Pair>, after: string)
    ensures Joined(ps, true) + (['}'] + after) == Laid(ps, Tight(|ps|), after)
    decreases |ps|, 1
  {
    var end := ['}'] + after;
    if ps == [] {
      assert "" + end == end;
    } else {
      NextIsTight(ps, after);
      TightMember(ps[0], Next(ps, Tight(|ps|), after));
      JoinMember(Member(ps[0]), Joined(ps[1..], false), end);
    }
  }

  lemma JoinMember(m: string, rest: string, end: string)
    ensures ("" + (m + rest)) + end == m + (rest + end)
  {
  }

  lemma {:induction false} NextIsTight(ps: seq<Pair>, after: string)
    requires ps != []
    ensures Joined(ps[1..], false) + (['}'] + after) == Next(ps, Tight(|ps|), after)
    decreases |ps|, 0
  {
    var end := ['}'] + after;
    if |ps| == 1 {
      assert "" + end == end;
    } else {
      var gs := Tight(|ps|);
      assert gs[1..] == Tight(|ps| - 1) && gs[0].afterComma == "";
      JoinedIsTight(ps[1..], after);
      JoinedComma(ps[1..]);
      Nothing(Laid(ps[1..], Tight(|ps| - 1), after));
      CommaEnd(Joined(ps[1..], true), end);
    }
  }

  lemma CommaEnd(j: string, end: string)
    ensures ([','] + j) + end == [','] + (j + end)
  {
  }

  lemma Nothing(s: string)
    ensures "" + s == s
  {
  }

  lemma JoinedComma(ps: seq<Pair>)
    requires ps != []
    ensures Joined(ps, false) == [','] + Joined(ps, true)
  {
    Nothing(Member(ps[0]) + Joined(ps[1..], false));
  }

  lemma TightMember(p: Pair, next: string)
    ensures Member(p) + next == ['"'] + (Escape(p.key) + (['"'] + ("" + ([':'] + (""
                                + (['"'] + (Escape(p.val) + (['"'] + ("" + next)))))))))
  {
    TightPieces(Escape(p.key), Escape(p.val), next);
  }

  lemma TightPieces(k: string, v: string, next: string)
    ensures (['"'] + k + ['"']) + [':'] + (['"'] + v + ['"']) + next
            == ['"'] + (k + (['"'] + ("" + ([':'] + ("" + (['"'] + (v + (['"'] + ("" + next)))))))))
  {
  }

  lemma Enclose(j: string, after: string)
    ensures (['{'] + j + ['}']) + after == ['{'] + (j + (['}'] + after))
  {
  }

  /** The round trip, for every ordered list of pairs: quotes, backslashes, newlines and tabs included. */
  lemma ParseStringify(ps: seq<Pair>, after: string)
    ensures Parse(Stringify(ps) + after) == ps
  {
    JoinedIsTight(ps, after);
    ParseAnyLayout(ps, Tight(|ps|), "", "", after);
    var inner := Laid(ps, Tight(|ps|), after);
    Enclose(Joined(ps, true), after);
    assert "" + inner == inner;
    assert "" + (['{'] + inner) == ['{'] + inner;
  }

  /** Two objects with the same text are the same. */
  lemma StringifyInjective(ps: seq<Pair>, qs: seq<Pair>)
    requires Stringify(ps) == Stringify(qs)
    ensures ps == qs
  {
    ParseStringify(ps, "");
    ParseStringify(qs, "");
  }

  /** What stands for each character, and for all others. */
  lemma {:induction false} EscapesWritten(s: string)
    ensures Escape("\"") == "\\\"" && Escape("\\") == "\\\\" && Escape("\n") == "\\n" && Escape("\t") == "\\t"
    ensures (forall i :: 0 <= i < |s| ==> s[i] != '"' && s[i] != '\\' && s[i] != '\n' && s[i] != '\t') ==> Escape(s) == s
  {
    OneChar('"');
    OneChar('\\');
    OneChar('\n');
    OneChar('\t');
    if s != "" {
      EscapesWritten(s[1..]);
      assert [s[0]] + s[1..] == s;
    }
  }

  lemma OneChar(c: char)
    ensures Escape([c]) == EscapedChar(c)
  {
    assert [c][1..] == "" && EscapedChar(c) + "" == EscapedChar(c);
  }

  /** The text of two pairs, punctuation and all. */
  lemma PairsWritten(p: Pair, q: Pair)
    ensures Stringify([p, q])
            == "{\"" + Escape(p.key) + "\":\"" + Escape(p.val) + "\",\"" + Escape(q.key) + "\":\"" + Escape(q.val) + "\"}"
  {
    assert [p, q][1..] == [q] && [q][1..] == [];
    assert Joined([q], false) == [','] + (Member(q) + "");
    PairPieces(Escape(p.key), Escape(p.val), Escape(q.key), Escape(q.val));
  }

  lemma PairPieces(a: string, b: string, c: string, d: string)
    ensures ['{'] + ("" + ((['"'] + a + ['"'] + [':'] + (['"'] + b + ['"']))
                          + ([','] + ((['"'] + c + ['"'] + [':'] + (['"'] + d + ['"'])) + "")))) + ['}']
            == "{\"" + a + "\":\"" + b + "\",\"" + c + "\":\"" + d + "\"}"
  {
  }

  /** What is written of NUL-free pairs is NUL-free: a C reader of it sees all of it. */
  lemma StringifyIsText(ps: seq<Pair>)
    requires AllText(ps)
    ensures IsText(Stringify(ps))
  {
    JoinedIsText(ps, true);
  }

  lemma {:induction false} JoinedIsText(ps: seq<Pair>, first: bool)
    requires AllText(ps)
    ensures IsText(Joined(ps, first))
  {
    if ps != [] {
      EscapeIsText(ps[0].key);
      EscapeIsText(ps[0].val);
      JoinedIsText(ps[1..], false);
    }
  }
}
