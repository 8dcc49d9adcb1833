/** From tokens to machine: parsing what an expression is written as, then compiling, keeps its value. */
module ParseCompile {
  import opened I32
  import opened WasmMachine
  import opened PonySyntax
  import opened WasmCompiler
  import opened WasmScope
  import opened WasmCorrect
  import opened SourceSemantics
  import G = ParserGrammar

  lemma {:induction false} GoodIsPrintable(e: Expr, names: seq<string>)
    requires GoodExpr(e, names)
    ensures G.Printable(e)
  {
    match e {
      case EUn(_, a) => GoodIsPrintable(a, names);
      case EBin(_, l, r) =>
        GoodIsPrintable(l, names);
        GoodIsPrintable(r, names);
      case _ =>
    }
  }

  /**
   The tokens of an expression, parsed and compiled, push exactly its 32-bit value on
   any stack, with the locals untouched, or trap where its evaluation faults.
   */
  lemma WrittenExpressionRuns(e: Expr, after: seq<G.Token>, g: Gen, u32s: set<string>, all: seq<string>, env: Env,
                              rest: seq<Instr>, stack: seq<u32>, fuel: nat)
    requires Tables(g, u32s) && GoodExpr(e, g.names) && g.names <= all && Distinct(all) && G.Ends(after)
    ensures G.Printable(e)
    ensures var p := G.Parse(0, G.Tokens(G.Written(e, 0)) + after);
            && p.Tree? && p.rest == after
            && Yields(CompileExpr(p.e, g), Eval(e, env, u32s), Locals(env, all), rest, stack, fuel)
  {
    GoodIsPrintable(e, g.names);
    G.RoundTrip(e, after);
    ExprCorrect(e, g, u32s, all, env, rest, stack, fuel);
  }
}
