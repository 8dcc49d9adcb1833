/** What the expression parser computes on the tokens that remain, missing ones tolerated. */
module ParserGrammar {
  import opened Wrappers
  import opened PonySyntax

  /** Stop stands for every token no expression begins with; Other for those that begin one outside the fragment. */
  datatype Token =
    | TInt(value: nat) | TBool(b: bool) | TIdent(name: string)
    | TOp(op: BinOp) | TBang | TTilde | TLParen | TRParen | TRange
    | TPostfix   // `.`, `=`, `[`: continue an identifier, begin nothing
    | TAt        // continues an identifier, begins a foreign call
    | TOther | TStop

  const UNARY: nat := 9

  function OpLevel(op: BinOp): (k: nat)
    ensures k < UNARY
  {
    match op
    case OrOp => 0
    case AndOp => 1
    case BitOrOp => 2
    case BitXorOp => 3
    case BitAndOp => 4
    case EqOp => 5 case NeOp => 5 case LtOp => 5 case GtOp => 5 case LeOp => 5 case GeOp => 5
    case ShlOp => 6 case ShrOp => 6
    case AddOp => 7 case SubOp => 7
    case MulOp => 8 case DivOp => 8 case RemOp => 8
  }

  /** Null is the parser's NULL, with what it has consumed by then; Outside is syntax this model does not cover. */
  datatype Parsed = Tree(e: Expr, rest: seq<Token>) | Null(rest: seq<Token>) | Outside

  predicate At(ts: seq<Token>, t: Token) {
    ts != [] && ts[0] == t
  }

  function Primary(ts: seq<Token>): (r: Parsed)
    ensures r.Tree? ==> |r.rest| < |ts|
    ensures r.Null? ==> r.rest == ts
  {
    if ts == [] then Null(ts)
    else
      var rest := ts[1..];
      match ts[0]
      case TInt(v) =>
        if At(rest, TRange) then
          (if |rest| > 1 && rest[1].TInt? then Tree(ERange(v, rest[1].value), rest[2..])
           else Tree(EInt(v), rest[1..]))
        else Tree(EInt(v), rest)
      case TBool(b) => Tree(EBool(b), rest)
      case TIdent(x) =>
        if At(rest, TPostfix) || At(rest, TLParen) || At(rest, TBang) || At(rest, TAt) then Outside
        else Tree(EIdent(x), rest)
      case TAt => Outside
      case TOther => Outside
      case _ => Null(ts)
  }

  function Close(ts: seq<Token>): seq<Token> {
    if At(ts, TRParen) then ts[1..] else ts
  }

  function Prefix(t: Token): Option<UnOp> {
    match t
    case TBang => Some(NotOp)
    case TOp(op) => if op == SubOp then Some(NegOp) else None
    case TTilde => Some(BitNotOp)
    case _ => None
  }

  function Unary(ts: seq<Token>): (r: Parsed)
    ensures r.Tree? ==> |r.rest| < |ts|
    ensures r.Null? ==> |r.rest| <= |ts|
    decreases |ts|, 0
  {
    if At(ts, TLParen) then
      (match Parse(0, ts[1..])
       case Tree(e, rest) => Tree(e, Close(rest))
       case Null(rest) => Null(Close(rest))
       case Outside => Outside)
    else if ts != [] && Prefix(ts[0]).Some? then
      var op := Prefix(ts[0]).value;
      (match Unary(ts[1..])
       case Tree(e, rest) => Tree(EUn(op, e), rest)
       case Null(rest) => Tree(EUnMissing(op), rest)
       case Outside => Outside)
    else Primary(ts)
  }

  /** One level of the ladder. */
  function Parse(k: nat, ts: seq<Token>): (r: Parsed)
    requires k <= UNARY
    ensures r.Tree? ==> |r.rest| < |ts|
    ensures r.Null? ==> |r.rest| <= |ts|
    decreases |ts|, UNARY + 1 - k
  {
    if k == UNARY then Unary(ts)
    else
      match Parse(k + 1, ts)
      case Tree(e, rest) => Loop(k, e, rest)
      case other => other
  }

  predicate IsOpAt(k: nat, ts: seq<Token>) {
    ts != [] && ts[0].TOp? && OpLevel(ts[0].op) == k
  }

  /** The loop of a level: an operator without a right operand is consumed and forgotten. */
  function Loop(k: nat, lhs: Expr, ts: seq<Token>): (r: Parsed)
    requires k < UNARY
    ensures !r.Null?
    ensures r.Tree? ==> |r.rest| <= |ts|
    decreases |ts|, UNARY + 1 - k
  {
    if !IsOpAt(k, ts) then Tree(lhs, ts)
    else
      match Parse(k + 1, ts[1..])
      case Tree(rhs, rest) => Loop(k, EBin(ts[0].op, lhs, rhs), rest)
      case Null(rest) => Tree(lhs, rest)
      case Outside => Outside
  }

  // ------------------------------------------------------------ concrete syntax

  /** Expressions as written, parentheses included. */
  datatype Syntax =
    | Leaf(e: Expr)
    | Un(uop: UnOp, arg: Syntax)
    | Bin(bop: BinOp, left: Syntax, right: Syntax)
    | Parens(inner: Syntax)

  function Level(c: Syntax): (k: nat)
    ensures k <= UNARY
  {
    if c.Bin? then OpLevel(c.bop) else UNARY
  }

  /** Operands stand at the level the grammar gives them: left-associative, the right operand one tighter. */
  predicate Fits(c: Syntax) {
    match c
    case Leaf(e) => e.EInt? || e.EBool? || e.EIdent? || e.ERange?
    case Un(_, a) => Fits(a) && Level(a) == UNARY
    case Bin(op, l, r) => Fits(l) && Fits(r) && Level(l) >= OpLevel(op) && Level(r) > OpLevel(op)
    case Parens(i) => Fits(i)
  }

  function PrefixToken(op: UnOp): (t: Token)
    ensures Prefix(t) == Some(op)
  {
    match op case NotOp => TBang case NegOp => TOp(SubOp) case BitNotOp => TTilde
  }

  function Tokens(c: Syntax): seq<Token> {
    match c
    case Leaf(EInt(v)) => [TInt(v)]
    case Leaf(EBool(b)) => [TBool(b)]
    case Leaf(ERange(lo, hi)) => [TInt(lo), TRange, TInt(hi)]
    case Leaf(EIdent(x)) => [TIdent(x)]
    case Leaf(_) => []
    case Un(op, a) => [PrefixToken(op)] + Tokens(a)
    case Bin(op, l, r) => Tokens(l) + ([TOp(op)] + Tokens(r))
    case Parens(i) => [TLParen] + Tokens(i) + [TRParen]
  }

  /** The tree meant: parentheses leave no trace. */
  function Meaning(c: Syntax): Expr {
    match c
    case Leaf(e) => e
    case Un(op, a) => EUn(op, Meaning(a))
    case Bin(op, l, r) => EBin(op, Meaning(l), Meaning(r))
    case Parens(i) => Meaning(i)
  }

  /** What may follow an expression of level `k` without being drawn into its last operand. */
  predicate Follows(rest: seq<Token>, k: nat) {
    rest == [] || match rest[0]
                  case TOp(op) => OpLevel(op) <= k
                  case TPostfix => false
                  case TAt => false
                  case TBang => false
                  case TLParen => false
                  case TRange => false
                  case _ => true
  }

  /**
   Parsing a written expression at any level it fits gives back the tree it means and
   hands everything behind it to that level's loop.
   */
  lemma {:induction false} ParsesAsWritten(c: Syntax, k: nat, rest: seq<Token>)
    requires Fits(c) && k <= Level(c) && Follows(rest, k)
    ensures Parse(k, Tokens(c) + rest) == if k == UNARY then Tree(Meaning(c), rest) else Loop(k, Meaning(c), rest)
    decreases c, UNARY - k, 1
  {
    if k < Level(c) {
      ParsesAsWritten(c, k + 1, rest);
    } else {
      match c {
        case Leaf(e) => ParsesLeaf(c, rest);
        case Un(op, a) => ParsesUnary(op, a, rest);
        case Bin(op, l, r) => ParsesBinary(op, l, r, rest);
        case Parens(i) => ParsesParens(i, rest);
      }
    }
  }

  lemma ParsesLeaf(c: Syntax, rest: seq<Token>)
    requires c.Leaf? && Fits(c) && Follows(rest, UNARY)
    ensures Parse(UNARY, Tokens(c) + rest) == Tree(c.e, rest)
  {
    var ts := Tokens(c) + rest;
    assert c.e.ERange? ==> ts[1..][2..] == rest;
    assert !c.e.ERange? ==> ts[1..] == rest;
  }

  lemma {:induction false} ParsesUnary(op: UnOp, a: Syntax, rest: seq<Token>)
    requires Fits(Un(op, a)) && Follows(rest, UNARY)
    ensures Parse(UNARY, Tokens(Un(op, a)) + rest) == Tree(EUn(op, Meaning(a)), rest)
    decreases Un(op, a), 0, 0
  {
    var ts := Tokens(Un(op, a)) + rest;
    assert ts[1..] == Tokens(a) + rest;
    ParsesAsWritten(a, UNARY, rest);
  }

  lemma {:induction false} ParsesParens(i: Syntax, rest: seq<Token>)
    requires Fits(Parens(i))
    ensures Parse(UNARY, Tokens(Parens(i)) + rest) == Tree(Meaning(i), rest)
    decreases Parens(i), 0, 0
  {
    var ts := Tokens(Parens(i)) + rest;
    assert ts[1..] == Tokens(i) + ([TRParen] + rest);
    ParsesAsWritten(i, 0, [TRParen] + rest);
    assert ([TRParen] + rest)[1..] == rest;
  }

  lemma {:induction false} ParsesBinary(op: BinOp, l: Syntax, r: Syntax, rest: seq<Token>)
    requires Fits(Bin(op, l, r)) && Follows(rest, OpLevel(op))
    ensures Parse(OpLevel(op), Tokens(Bin(op, l, r)) + rest)
            == Loop(OpLevel(op), EBin(op, Meaning(l), Meaning(r)), rest)
    decreases Bin(op, l, r), 0, 0
  {
    var k := OpLevel(op);
    var tail := [TOp(op)] + (Tokens(r) + rest);
    assert Tokens(Bin(op, l, r)) + rest == Tokens(l) + tail;
    ParsesAsWritten(l, k, tail);
    assert tail[1..] == Tokens(r) + rest;
    ParsesAsWritten(r, k + 1, rest);
  }

  /** No operator and no suffix follows: the expression ends here. */
  predicate Ends(rest: seq<Token>) {
    Follows(rest, 0) && (rest == [] || !rest[0].TOp?)
  }

  /** Nor can an operand begin here. */
  predicate Barren(rest: seq<Token>) {
    rest == [] || rest[0] == TStop || rest[0] == TRParen
  }

  /** The parser's entry consumes exactly the expression. */
  lemma ParsesWholeExpression(c: Syntax, rest: seq<Token>)
    requires Fits(c) && Ends(rest)
    ensures Parse(0, Tokens(c) + rest) == Tree(Meaning(c), rest)
  {
    ParsesAsWritten(c, 0, rest);
  }

  // ------------------------------------------------------------ which operator binds tighter

  /** Nothing here continues an operand. */
  predicate Delimits(rest: seq<Token>) {
    rest == [] || (rest[0] != TPostfix && rest[0] != TAt && rest[0] != TBang && rest[0] != TLParen && rest[0] != TRange)
  }

  /** The tokens of one operand: it is `e` whatever delimits it. */
  ghost predicate IsOperand(ts: seq<Token>, e: Expr) {
    forall rest | Delimits(rest) :: Unary(ts + rest) == Tree(e, rest)
  }

  /** Literals, names, prefixed operands, and anything in parentheses. */
  lemma OperandForms(ts: seq<Token>, e: Expr, v: nat, b: bool, x: string)
    ensures IsOperand([TInt(v)], EInt(v)) && IsOperand([TBool(b)], EBool(b)) && IsOperand([TIdent(x)], EIdent(x))
    ensures IsOperand(ts, e) ==>
              && IsOperand([TBang] + ts, EUn(NotOp, e))
              && IsOperand([TOp(SubOp)] + ts, EUn(NegOp, e))
              && IsOperand([TTilde] + ts, EUn(BitNotOp, e))
    ensures (forall rest :: Parse(0, ts + ([TRParen] + rest)) == Tree(e, [TRParen] + rest)) ==>
              IsOperand([TLParen] + ts + [TRParen], e)
  {
    forall rest | Delimits(rest)
      ensures Unary([TInt(v)] + rest) == Tree(EInt(v), rest)
      ensures Unary([TBool(b)] + rest) == Tree(EBool(b), rest)
      ensures Unary([TIdent(x)] + rest) == Tree(EIdent(x), rest)
    {
      assert ([TInt(v)] + rest)[1..] == rest && ([TBool(b)] + rest)[1..] == rest && ([TIdent(x)] + rest)[1..] == rest;
    }
    if IsOperand(ts, e) { PrefixForms(ts, e); }
    if forall rest :: Parse(0, ts + ([TRParen] + rest)) == Tree(e, [TRParen] + rest) { ParenthesesForm(ts, e); }
  }

  lemma PrefixForms(ts: seq<Token>, e: Expr)
    requires IsOperand(ts, e)
    ensures IsOperand([TBang] + ts, EUn(NotOp, e)) && IsOperand([TOp(SubOp)] + ts, EUn(NegOp, e))
    ensures IsOperand([TTilde] + ts, EUn(BitNotOp, e))
  {
    PrefixForm(TBang, ts, e);
    PrefixForm(TOp(SubOp), ts, e);
    PrefixForm(TTilde, ts, e);
  }

  lemma PrefixForm(t: Token, ts: seq<Token>, e: Expr)
    requires IsOperand(ts, e) && Prefix(t).Some?
    ensures IsOperand([t] + ts, EUn(Prefix(t).value, e))
  {
    forall rest | Delimits(rest) ensures Unary([t] + ts + rest) == Tree(EUn(Prefix(t).value, e), rest) {
      PrefixStep(t, ts + rest);
      assert [t] + ts + rest == [t] + (ts + rest);
    }
  }

  lemma PrefixStep(t: Token, ts: seq<Token>)
    requires Prefix(t).Some? && Unary(ts).Tree?
    ensures Unary([t] + ts) == Tree(EUn(Prefix(t).value, Unary(ts).e), Unary(ts).rest)
  {
    assert ([t] + ts)[1..] == ts;
  }

  lemma ParenthesesForm(ts: seq<Token>, e: Expr)
    requires forall rest :: Parse(0, ts + ([TRParen] + rest)) == Tree(e, [TRParen] + rest)
    ensures IsOperand([TLParen] + ts + [TRParen], e)
  {
    forall rest | Delimits(rest) ensures Unary([TLParen] + ts + [TRParen] + rest) == Tree(e, rest) {
      assert ([TLParen] + ts + [TRParen] + rest)[1..] == ts + ([TRParen] + rest);
      assert Parse(0, ts + ([TRParen] + rest)) == Tree(e, [TRParen] + rest);
      assert ([TRParen] + rest)[1..] == rest;
    }
  }

  /** Ranges; a range without an end still loses its dots. */
  lemma RangeForms(lo: nat, hi: nat, rest: seq<Token>)
    ensures Unary([TInt(lo), TRange, TInt(hi)] + rest) == Tree(ERange(lo, hi), rest)
    ensures rest == [] || !rest[0].TInt? ==> Unary([TInt(lo), TRange] + rest) == Tree(EInt(lo), rest)
  {
    FromNumber(lo, [TRange, TInt(hi)] + rest);
    FromNumber(lo, [TRange] + rest);
    assert [TInt(lo), TRange, TInt(hi)] + rest == [TInt(lo)] + ([TRange, TInt(hi)] + rest);
    assert [TInt(lo), TRange] + rest == [TInt(lo)] + ([TRange] + rest);
    assert ([TRange, TInt(hi)] + rest)[2..] == rest && ([TRange] + rest)[1..] == rest;
  }

  lemma FromNumber(lo: nat, ts: seq<Token>)
    ensures Unary([TInt(lo)] + ts) == Primary([TInt(lo)] + ts)
    ensures At(ts, TRange) ==>
              Primary([TInt(lo)] + ts)
              == if |ts| > 1 && ts[1].TInt? then Tree(ERange(lo, ts[1].value), ts[2..]) else Tree(EInt(lo), ts[1..])
  {
    assert ([TInt(lo)] + ts)[0] == TInt(lo) && ([TInt(lo)] + ts)[1..] == ts;
  }

  /** A prefix operator in front of nothing. */
  lemma MissingOperand(rest: seq<Token>)
    requires Barren(rest)
    ensures Unary([TBang] + rest) == Tree(EUnMissing(NotOp), rest)
    ensures Unary([TOp(SubOp)] + rest) == Tree(EUnMissing(NegOp), rest)
    ensures Unary([TTilde] + rest) == Tree(EUnMissing(BitNotOp), rest)
  {
    assert Unary(rest) == Null(rest);
    PrefixOfNothing(TBang, rest);
    PrefixOfNothing(TOp(SubOp), rest);
    PrefixOfNothing(TTilde, rest);
  }

  lemma PrefixOfNothing(t: Token, rest: seq<Token>)
    requires Prefix(t).Some? && Unary(rest) == Null(rest)
    ensures Unary([t] + rest) == Tree(EUnMissing(Prefix(t).value), rest)
  {
    assert ([t] + rest)[1..] == rest;
  }

  /** An operand in front of an operator comes down the ladder to the operator's level. */
  lemma {:induction false} OperandMeets(ts: seq<Token>, e: Expr, op: BinOp, rest: seq<Token>, k: nat)
    requires IsOperand(ts, e) && OpLevel(op) <= k <= UNARY
    ensures Parse(k, ts + ([TOp(op)] + rest))
            == if k == OpLevel(op) then Loop(k, e, [TOp(op)] + rest) else Tree(e, [TOp(op)] + rest)
    decreases UNARY - k
  {
    if k < UNARY { OperandMeets(ts, e, op, rest, k + 1); }
  }

  lemma {:induction false} OperandEnds(ts: seq<Token>, e: Expr, rest: seq<Token>, k: nat)
    requires IsOperand(ts, e) && Ends(rest) && k <= UNARY
    ensures Parse(k, ts + rest) == Tree(e, rest)
    decreases UNARY - k
  {
    EndDelimits(rest, k);
    if k < UNARY { OperandEnds(ts, e, rest, k + 1); }
  }

  lemma EndDelimits(rest: seq<Token>, k: nat)
    requires Ends(rest)
    ensures Delimits(rest) && !IsOpAt(k, rest)
  {
  }

  /** A tree in front of a looser operator comes down to that operator's level. */
  lemma {:induction false} TreeMeets(k: nat, ts: seq<Token>, e: Expr, op: BinOp, rest: seq<Token>)
    requires OpLevel(op) < k <= UNARY && Parse(k, ts) == Tree(e, [TOp(op)] + rest)
    ensures Parse(OpLevel(op), ts) == Loop(OpLevel(op), e, [TOp(op)] + rest)
    decreases k
  {
    if k > OpLevel(op) + 1 { TreeMeets(k - 1, ts, e, op, rest); }
  }

  /** The last operand of a level. */
  lemma LastOperand(op: BinOp, lhs: Expr, ts: seq<Token>, e: Expr, rest: seq<Token>)
    requires IsOperand(ts, e) && Ends(rest)
    ensures Loop(OpLevel(op), lhs, [TOp(op)] + (ts + rest)) == Tree(EBin(op, lhs, e), rest)
  {
    assert ([TOp(op)] + (ts + rest))[1..] == ts + rest;
    OperandEnds(ts, e, rest, OpLevel(op) + 1);
  }

  lemma FirstTwo(o1: BinOp, o2: BinOp, ta: seq<Token>, a: Expr, tb: seq<Token>, b: Expr, rest: seq<Token>)
    requires IsOperand(ta, a) && IsOperand(tb, b) && OpLevel(o2) <= OpLevel(o1)
    ensures Parse(OpLevel(o1), ta + ([TOp(o1)] + (tb + ([TOp(o2)] + rest))))
            == Loop(OpLevel(o1), EBin(o1, a, b), [TOp(o2)] + rest)
  {
    var k, tail := OpLevel(o1), tb + ([TOp(o2)] + rest);
    OperandMeets(ta, a, o1, tail, k);
    OperandMeets(tb, b, o2, rest, k + 1);
    assert Parse(k + 1, tail) == Tree(b, [TOp(o2)] + rest);
    LoopStep(o1, a, tail);
  }

  lemma LoopStep(op: BinOp, lhs: Expr, ts: seq<Token>)
    requires Parse(OpLevel(op) + 1, ts).Tree?
    ensures var r := Parse(OpLevel(op) + 1, ts);
            Loop(OpLevel(op), lhs, [TOp(op)] + ts) == Loop(OpLevel(op), EBin(op, lhs, r.e), r.rest)
  {
    assert ([TOp(op)] + ts)[1..] == ts;
  }

  lemma GroupsLeft(o1: BinOp, o2: BinOp, ta: seq<Token>, a: Expr, tb: seq<Token>, b: Expr, tc: seq<Token>, c: Expr,
                   rest: seq<Token>)
    requires IsOperand(ta, a) && IsOperand(tb, b) && IsOperand(tc, c) && Ends(rest) && OpLevel(o2) <= OpLevel(o1)
    ensures Parse(0, ta + ([TOp(o1)] + (tb + ([TOp(o2)] + (tc + rest))))) == Tree(EBin(o2, EBin(o1, a, b), c), rest)
  {
    var ts := ta + ([TOp(o1)] + (tb + ([TOp(o2)] + (tc + rest))));
    FirstTwo(o1, o2, ta, a, tb, b, tc + rest);
    if OpLevel(o2) < OpLevel(o1) { TreeMeets(OpLevel(o1), ts, EBin(o1, a, b), o2, tc + rest); }
    LastOperand(o2, EBin(o1, a, b), tc, c, rest);
    Downwards(OpLevel(o2), 0, ts, EBin(o2, EBin(o1, a, b), c), rest);
  }

  lemma GroupsRight(o1: BinOp, o2: BinOp, ta: seq<Token>, a: Expr, tb: seq<Token>, b: Expr, tc: seq<Token>, c: Expr,
                    rest: seq<Token>)
    requires IsOperand(ta, a) && IsOperand(tb, b) && IsOperand(tc, c) && Ends(rest) && OpLevel(o1) < OpLevel(o2)
    ensures Parse(0, ta + ([TOp(o1)] + (tb + ([TOp(o2)] + (tc + rest))))) == Tree(EBin(o1, a, EBin(o2, b, c)), rest)
  {
    var k, tail := OpLevel(o1), [TOp(o2)] + (tc + rest);
    var ts := ta + ([TOp(o1)] + (tb + tail));
    OperandMeets(ta, a, o1, tb + tail, k);
    assert ([TOp(o1)] + (tb + tail))[1..] == tb + tail;
    OperandMeets(tb, b, o2, tc + rest, OpLevel(o2));
    LastOperand(o2, b, tc, c, rest);
    Downwards(OpLevel(o2), k + 1, tb + tail, EBin(o2, b, c), rest);
    Downwards(k, 0, ts, EBin(o1, a, EBin(o2, b, c)), rest);
  }

  lemma TwoGroupings(o1: BinOp, o2: BinOp, a: Expr, b: Expr, c: Expr)
    ensures EBin(o2, EBin(o1, a, b), c) != EBin(o1, a, EBin(o2, b, c))
  {
    NotInItself(o1, a, b);
  }

  lemma {:induction false} NotInItself(op: BinOp, a: Expr, b: Expr)
    ensures a != EBin(op, a, b)
  {
    if a.EBin? { NotInItself(op, a.left, b); }
  }

  /** The tiers of the ladder, loosest first, are the levels. */
  lemma TierIsLevel(op: BinOp, i: nat)
    requires i < 9 && op in [{OrOp}, {AndOp}, {BitOrOp}, {BitXorOp}, {BitAndOp}, {EqOp, NeOp, LtOp, GtOp, LeOp, GeOp},
                             {ShlOp, ShrOp}, {AddOp, SubOp}, {MulOp, DivOp, RemOp}][i]
    ensures OpLevel(op) == i
  {
  }

  /**
   Precedence, operator by operator: `a o1 b o2 c` is `(a o1 b) o2 c` if and only if `o2`
   is in no tighter tier than `o1`, and otherwise `a o1 (b o2 c)`.
   */
  lemma Precedence(o1: BinOp, i: nat, o2: BinOp, j: nat, ta: seq<Token>, a: Expr, tb: seq<Token>, b: Expr,
                   tc: seq<Token>, c: Expr, rest: seq<Token>)
    requires IsOperand(ta, a) && IsOperand(tb, b) && IsOperand(tc, c) && Ends(rest)
    requires var tiers := [{OrOp}, {AndOp}, {BitOrOp}, {BitXorOp}, {BitAndOp}, {EqOp, NeOp, LtOp, GtOp, LeOp, GeOp},
                           {ShlOp, ShrOp}, {AddOp, SubOp}, {MulOp, DivOp, RemOp}];
             i < 9 && j < 9 && o1 in tiers[i] && o2 in tiers[j]
    ensures var r := Parse(0, ta + ([TOp(o1)] + (tb + ([TOp(o2)] + (tc + rest)))));
            && (r == Tree(EBin(o2, EBin(o1, a, b), c), rest) <==> j <= i)
            && (r == Tree(EBin(o1, a, EBin(o2, b, c)), rest) <==> j > i)
  {
    TierIsLevel(o1, i);
    TierIsLevel(o2, j);
    TwoGroupings(o1, o2, a, b, c);
    if j <= i {
      GroupsLeft(o1, o2, ta, a, tb, b, tc, c, rest);
    } else {
      GroupsRight(o1, o2, ta, a, tb, b, tc, c, rest);
    }
  }

  // ------------------------------------------------------------ minimal parentheses

  predicate Printable(e: Expr) {
    match e
    case EUn(_, a) => Printable(a)
    case EUnMissing(_) => false
    case EBin(_, l, r) => Printable(l) && Printable(r)
    case _ => true
  }

  function TreeLevel(e: Expr): nat {
    if e.EBin? then OpLevel(e.bop) else UNARY
  }

  /** `e` written for a position of level `k`, in parentheses only where the grammar needs them. */
  function Written(e: Expr, k: nat): Syntax
    requires Printable(e)
    decreases e
  {
    var body :=
      match e
      case EUn(op, a) => Un(op, Written(a, UNARY))
      case EBin(op, l, r) => Bin(op, Written(l, OpLevel(op)), Written(r, OpLevel(op) + 1))
      case _ => Leaf(e);
    if TreeLevel(e) < k then Parens(body) else body
  }

  lemma {:induction false} WrittenFits(e: Expr, k: nat)
    requires Printable(e) && k <= UNARY
    ensures var c := Written(e, k);
            Fits(c) && Level(c) >= k && Meaning(c) == e
  {
    match e {
      case EUn(_, a) => WrittenFits(a, UNARY);
      case EBin(op, l, r) =>
        WrittenFits(l, OpLevel(op));
        WrittenFits(r, OpLevel(op) + 1);
      case _ =>
    }
  }

  /** Round trip: every tree of the ladder, minimally parenthesised, parses to itself and is consumed exactly. */
  lemma RoundTrip(e: Expr, rest: seq<Token>)
    requires Printable(e) && Ends(rest)
    ensures Parse(0, Tokens(Written(e, 0)) + rest) == Tree(e, rest)
  {
    WrittenFits(e, 0);
    ParsesWholeExpression(Written(e, 0), rest);
  }

  /** The parentheses are needed: dropped around a looser tree, the same tokens no longer parse to it. */
  lemma ParenthesesNeeded(c: Syntax, k: nat, rest: seq<Token>)
    requires Fits(c) && Level(c) < k <= UNARY && Ends(rest)
    ensures Parse(k, Tokens(c) + rest) != Tree(Meaning(c), rest)
  {
    OperandStops(c, k, rest);
  }

  lemma {:induction false} OperandStops(c: Syntax, k: nat, rest: seq<Token>)
    requires Fits(c) && Level(c) < k <= UNARY
    ensures var r := Parse(k, Tokens(c) + rest);
            r.Tree? && |r.rest| > |rest|
    decreases c
  {
    var tail := [TOp(c.bop)] + (Tokens(c.right) + rest);
    assert Tokens(c) + rest == Tokens(c.left) + tail;
    if Level(c.left) >= k {
      ParsesAsWritten(c.left, k, tail);
    } else {
      OperandStops(c.left, k, tail);
    }
  }

  // ------------------------------------------------------------ tolerance

  /** An operator with nothing behind it is swallowed: the expression before it is the whole result. */
  lemma DanglingOperator(c: Syntax, op: BinOp, rest: seq<Token>)
    requires Fits(c) && Barren(rest)
    ensures Parse(0, Tokens(c) + ([TOp(op)] + rest)) == Tree(Meaning(c), rest)
  {
    Swallowed(c, op, 0, rest);
  }

  /** An operator looser than the expression ends it; a tighter one is swallowed by its last operand. */
  lemma {:induction false} Swallowed(c: Syntax, op: BinOp, k: nat, rest: seq<Token>)
    requires Fits(c) && Barren(rest) && k <= Level(c) && k <= OpLevel(op)
    ensures Parse(k, Tokens(c) + ([TOp(op)] + rest)) == Tree(Meaning(c), rest)
    decreases c
  {
    var tail := [TOp(op)] + rest;
    var m := if OpLevel(op) <= Level(c) then OpLevel(op) else Level(c);
    if m == OpLevel(op) {
      ParsesAsWritten(c, m, tail);
      assert tail[1..] == rest;
      NothingBegins(m + 1, rest);
    } else {
      var tokens := [TOp(c.bop)] + (Tokens(c.right) + tail);
      assert Tokens(c) + tail == Tokens(c.left) + tokens;
      ParsesAsWritten(c.left, m, tokens);
      assert tokens[1..] == Tokens(c.right) + tail;
      Swallowed(c.right, op, m + 1, rest);
    }
    Downwards(m, k, Tokens(c) + tail, Meaning(c), rest);
  }

  lemma {:induction false} NothingBegins(k: nat, rest: seq<Token>)
    requires k <= UNARY && Barren(rest)
    ensures Parse(k, rest) == Null(rest)
    decreases UNARY - k
  {
    if k < UNARY { NothingBegins(k + 1, rest); }
  }

  lemma {:induction false} Downwards(k: nat, j: nat, ts: seq<Token>, e: Expr, rest: seq<Token>)
    requires j <= k <= UNARY && Ends(rest) && Parse(k, ts) == Tree(e, rest)
    ensures Parse(j, ts) == Tree(e, rest)
    decreases k
  {
    if k > j { Downwards(k - 1, j, ts, e, rest); }
  }

  /** A parenthesis that is never closed changes nothing. */
  lemma UnclosedParenthesis(c: Syntax, rest: seq<Token>)
    requires Fits(c) && Ends(rest) && !At(rest, TRParen)
    ensures Parse(0, [TLParen] + (Tokens(c) + rest)) == Tree(Meaning(c), rest)
  {
    var ts := [TLParen] + (Tokens(c) + rest);
    assert ts[1..] == Tokens(c) + rest;
    ParsesWholeExpression(c, rest);
    Downwards(UNARY, 0, ts, Meaning(c), rest);
  }

  // ------------------------------------------------------------ every token list

  /** The operand tokens of a list, in order, as leaves. */
  function Operands(ts: seq<Token>): seq<Expr> {
    if ts == [] then []
    else
      (match ts[0]
       case TInt(v) => [EInt(v)]
       case TBool(b) => [EBool(b)]
       case TIdent(x) => [EIdent(x)]
       case _ => []) + Operands(ts[1..])
  }

  /** The leaves of a tree, left to right; a range has two. */
  function Leaves(e: Expr): seq<Expr> {
    match e
    case EUn(_, a) => Leaves(a)
    case EUnMissing(_) => []
    case EBin(_, l, r) => Leaves(l) + Leaves(r)
    case ERange(lo, hi) => [EInt(lo), EInt(hi)]
    case _ => [e]
  }

  /** No operand has been lost, invented or moved: those of `ts` are `done` and then those left over. */
  ghost predicate Kept(ts: seq<Token>, r: Parsed, done: seq<Expr>) {
    match r
    case Tree(e, rest) => done + Operands(ts) == Leaves(e) + Operands(rest)
    case Null(rest) => done + Operands(ts) == Operands(rest)
    case Outside => true
  }

  lemma KeptBehind(ts: seq<Token>, e: Expr, rest: seq<Token>, r: Parsed, done: seq<Expr>)
    requires Kept(ts, Tree(e, rest), []) && Kept(rest, r, done + Leaves(e))
    ensures Kept(ts, r, done)
  {
    NothingBefore(Operands(ts));
    OneByOne(done, Leaves(e), Operands(rest));
  }

  lemma NothingBefore<T>(s: seq<T>)
    ensures [] + s == s
  {
  }

  lemma OneByOne<T>(a: seq<T>, b: seq<T>, c: seq<T>)
    ensures (a + b) + c == a + (b + c)
  {
  }

  /** Whatever the tokens, the operands of the tree are the operands consumed, in their order. */
  lemma {:induction false} OperandsKept(k: nat, ts: seq<Token>)
    requires k <= UNARY
    ensures Kept(ts, Parse(k, ts), [])
    decreases |ts|, UNARY + 1 - k, 1
  {
    if k == UNARY {
      UnaryKept(ts);
    } else {
      OperandsKept(k + 1, ts);
      var r := Parse(k + 1, ts);
      if r.Tree? { LoopKept(k, r.e, r.rest); }
    }
  }

  lemma {:induction false} UnaryKept(ts: seq<Token>)
    ensures Kept(ts, Unary(ts), [])
    decreases |ts|, 0, 0
  {
    if At(ts, TLParen) {
      OperandsKept(0, ts[1..]);
    } else if ts != [] && Prefix(ts[0]).Some? {
      UnaryKept(ts[1..]);
    } else {
      PrimaryKept(ts);
    }
  }

  lemma PrimaryKept(ts: seq<Token>)
    ensures Kept(ts, Primary(ts), [])
  {
    if ts != [] && ts[0].TInt? && At(ts[1..], TRange) {
      var rest := ts[1..];
      assert Operands(rest) == [] + Operands(rest[1..]);
      if |rest| > 1 && rest[1].TInt? { assert rest[1..][1..] == rest[2..]; }
    }
  }

  lemma {:induction false} LoopKept(k: nat, lhs: Expr, ts: seq<Token>)
    requires k < UNARY
    ensures Kept(ts, Loop(k, lhs, ts), Leaves(lhs))
    decreases |ts|, UNARY + 1 - k, 0
  {
    if IsOpAt(k, ts) {
      var r := Parse(k + 1, ts[1..]);
      OperandsKept(k + 1, ts[1..]);
      NothingBefore(Operands(ts[1..]));
      if r.Tree? {
        LoopKept(k, EBin(ts[0].op, lhs, r.e), r.rest);
        KeptBehind(ts[1..], r.e, r.rest, Loop(k, EBin(ts[0].op, lhs, r.e), r.rest), Leaves(lhs));
      }
    }
  }

  /** An expression begins here: an operand or a prefix operator behind any number of parentheses. */
  predicate Begins(ts: seq<Token>) {
    ts != []
    && if ts[0] == TLParen then Begins(ts[1..])
       else Prefix(ts[0]).Some? || ts[0].TInt? || ts[0].TBool? || ts[0].TIdent?
  }

  /** Nothing in the list leads outside the ladder. */
  predicate Covered(ts: seq<Token>) {
    ts == [] ||
    (&& ts[0] != TAt && ts[0] != TOther
     && (ts[0].TIdent? ==>
           !At(ts[1..], TPostfix) && !At(ts[1..], TLParen) && !At(ts[1..], TBang) && !At(ts[1..], TAt))
     && Covered(ts[1..]))
  }

  /** Such a list parses to a tree if and only if an expression begins it, and what is left over is such a list. */
  lemma {:induction false} TreeIffBegins(k: nat, ts: seq<Token>)
    requires k <= UNARY && Covered(ts)
    ensures var r := Parse(k, ts);
            && (r.Tree? <==> Begins(ts)) && (r.Null? <==> !Begins(ts))
            && (!r.Outside? ==> Covered(r.rest))
    decreases |ts|, UNARY + 1 - k, 1
  {
    if k == UNARY {
      UnaryBegins(ts);
    } else {
      TreeIffBegins(k + 1, ts);
      var r := Parse(k + 1, ts);
      if r.Tree? { LoopEnds(k, r.e, r.rest); }
    }
  }

  lemma {:induction false} UnaryBegins(ts: seq<Token>)
    requires Covered(ts)
    ensures var r := Unary(ts);
            && (r.Tree? <==> Begins(ts)) && (r.Null? <==> !Begins(ts))
            && (!r.Outside? ==> Covered(r.rest))
    decreases |ts|, 0, 0
  {
    if At(ts, TLParen) {
      TreeIffBegins(0, ts[1..]);
    } else if ts != [] && Prefix(ts[0]).Some? {
      UnaryBegins(ts[1..]);
    } else if ts != [] && ts[0].TInt? && At(ts[1..], TRange) {
      assert Covered(ts[1..]) && Covered(ts[1..][1..]);
      if |ts| > 2 { assert ts[1..][1..][1..] == ts[1..][2..]; }
    }
  }

  lemma {:induction false} LoopEnds(k: nat, lhs: Expr, ts: seq<Token>)
    requires k < UNARY && Covered(ts)
    ensures var r := Loop(k, lhs, ts); r.Tree? && Covered(r.rest)
    decreases |ts|, UNARY + 1 - k, 0
  {
    if IsOpAt(k, ts) {
      var r := Parse(k + 1, ts[1..]);
      TreeIffBegins(k + 1, ts[1..]);
      if r.Tree? { LoopEnds(k, EBin(ts[0].op, lhs, r.e), r.rest); }
    }
  }
}
