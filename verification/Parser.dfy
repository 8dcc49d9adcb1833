/**
 The expression parser as it runs: a cursor moving over the token array, one loop shared
 by nine of the ten levels.  Each method is proved to return what the grammar's
 functions say and to leave the cursor where they say.
 */
module ExpressionParser {
  import opened PonySyntax
  import opened ParserGrammar

  /** What a parsing method returns: a node, NULL, or syntax outside the model. */
  datatype Node = Some(e: Expr) | NoNode | NotModelled

  class Parser {
    const tokens: seq<Token>
    var pos: nat

    constructor (tokens: seq<Token>)
      ensures this.tokens == tokens && pos == 0
    {
      this.tokens := tokens;
      pos := 0;
    }

    ghost predicate Valid()
      reads this
    {
      pos <= |tokens|
    }

    /** The tokens from the cursor on. */
    ghost function Ahead(): seq<Token>
      reads this
      requires Valid()
    {
      tokens[pos..]
    }

    /** The method returned what the grammar says, and stands where the grammar says. */
    ghost predicate Did(n: Node, r: Parsed)
      reads this
    {
      Valid() &&
      match r
      case Tree(e, rest) => n == Node.Some(e) && Ahead() == rest
      case Null(rest) => n == NoNode && Ahead() == rest
      case Outside => n == NotModelled
    }

    method Match(t: Token) returns (b: bool)
      requires Valid()
      ensures b == At(Ahead(), t)
    {
      b := pos < |tokens| && tokens[pos] == t;
    }

    method Advance()
      requires Valid() && Ahead() != []
      modifies this
      ensures Valid() && Ahead() == old(Ahead())[1..]
    {
      pos := pos + 1;
    }

    method ParsePrimary() returns (n: Node)
      requires Valid()
      modifies this
      ensures Did(n, Primary(old(Ahead())))
    {
      if pos >= |tokens| { return NoNode; }
      match tokens[pos] {
        case TInt(v) =>
          Advance();
          n := ParseRange(v);
        case TBool(b) =>
          Advance();
          n := Node.Some(EBool(b));
        case TIdent(x) =>
          Advance();
          if pos < |tokens| && (tokens[pos] == TPostfix || tokens[pos] == TLParen
                                || tokens[pos] == TBang || tokens[pos] == TAt) {
            n := NotModelled;
          } else {
            n := Node.Some(EIdent(x));
          }
        case TAt => n := NotModelled;
        case TOther => n := NotModelled;
        case _ => n := NoNode;
      }
    }

    /** Behind an integer: `..` is consumed even when no integer follows it. */
    method ParseRange(lo: nat) returns (n: Node)
      requires Valid()
      modifies this
      ensures Did(n, Primary([TInt(lo)] + old(Ahead())))
    {
      ghost var all := [TInt(lo)] + Ahead();
      assert all[1..] == Ahead();
      n := Node.Some(EInt(lo));
      var dots := Match(TRange);
      if dots {
        Advance();
        if pos < |tokens| && tokens[pos].TInt? {
          n := Node.Some(ERange(lo, tokens[pos].value));
          Advance();
        }
      }
    }

    method ParseUnary() returns (n: Node)
      requires Valid()
      modifies this
      ensures Did(n, Unary(old(Ahead())))
      decreases |tokens| - pos, 0
    {
      var open := Match(TLParen);
      if open {
        Advance();
        n := ParseLevel(0);
        if n.NotModelled? { return; }
        var close := Match(TRParen);
        if close { Advance(); }
      } else if pos < |tokens| && Prefix(tokens[pos]).Some? {
        var op := Prefix(tokens[pos]).value;
        Advance();
        n := ParseUnary();
        if n.Some? {
          n := Node.Some(EUn(op, n.e));
        } else if n.NoNode? {
          n := Node.Some(EUnMissing(op));
        }
      } else {
        n := ParsePrimary();
      }
    }

    /** The next tighter level: the loop again, or the prefix operators at the bottom. */
    method ParseLevel(k: nat) returns (n: Node)
      requires Valid() && k <= UNARY
      modifies this
      ensures Did(n, Parse(k, old(Ahead())))
      decreases |tokens| - pos, UNARY + 1 - k, 1
    {
      if k == UNARY {
        n := ParseUnary();
      } else {
        n := ParseBinaryOp(k);
      }
    }

    method ParseBinaryOp(k: nat) returns (n: Node)
      requires Valid() && k < UNARY
      modifies this
      ensures Did(n, Parse(k, old(Ahead())))
      decreases |tokens| - pos, UNARY + 1 - k, 0
    {
      n := ParseLevel(k + 1);
      if !n.Some? { return; }
      var more := true;
      while more && pos < |tokens|
        invariant Valid() && n.Some?
        invariant pos > old(pos)
        invariant Parse(k, old(Ahead())) == if more then Loop(k, n.e, Ahead()) else Tree(n.e, Ahead())
        decreases |tokens| - pos, more
      {
        var t := tokens[pos];
        if !t.TOp? || OpLevel(t.op) != k {
          more := false;
        } else {
          Advance();
          var rhs := ParseLevel(k + 1);
          if rhs.NotModelled? { return NotModelled; }
          if rhs.NoNode? {
            more := false;
          } else {
            n := Node.Some(EBin(t.op, n.e, rhs.e));
          }
        }
      }
    }

    method ParseExpression() returns (n: Node)
      requires Valid()
      modifies this
      ensures Did(n, Parse(0, old(Ahead())))
    {
      n := ParseLevel(0);
    }
  }
}
