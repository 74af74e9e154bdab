/** Does folding keep the value of an expression? `Eval` and `Reduce` disagree on integer
    division, string addition, comparisons of times, and AND/OR over non-booleans. This module
    says exactly where one folding step keeps the value, and proves that an expression outside
    those cases keeps its value as a whole. */
module InfluxqlMeaning {
  import opened Common
  import opened InfluxqlAst
  import opened InfluxqlReduce

  /** The environment `Reduce` assumes: what the valuer knows, and `m` elsewhere. Known times,
      durations and values without a literal form are of no type `Eval` understands. */
  function Overlay(v: Valuer, m: Env): Env {
    (n: string) =>
      match v(n)
      case None => m(n)
      case Some(KBool(b)) => Bool(b)
      case Some(KNum(f)) => Flt(f)
      case Some(KStr(s)) => Str(s)
      case Some(KDur(d)) => Other(d)
      case Some(KTime(t)) => Other(t)
      case Some(KOther(id)) => Other(id)
  }

  /** One folding step over reduced operands keeps the value, by operator and operands. */
  predicate StepKeeps(p: Prims, op: Op, l: Expr, r: Expr, m: Env) {
    var x, y := Eval(p, l, m), Eval(p, r, m);
    if l.Missing? || r.Missing? then true
    else if op.AND? && l == BoolLit(false) then true
    else if op.AND? && r == BoolLit(false) then x.Bool?
    else if op.OR? && l == BoolLit(true) then y.Bool?
    else if op.OR? && r == BoolLit(true) then x.Bool?
    else if IsLogical(op) && l.BoolLit? then y.Bool?
    else if IsLogical(op) && r.BoolLit? then x.Bool? || x.Nil?
    else if l.IntLit? && r.IntLit? then !(op.DIV? && r.i != 0)
    else if l.StrLit? && r.StrLit? then !op.ADD?
    else if (l.DurLit? && r.DurLit?) || (l.TimeLit? && r.TimeLit?) then !IsComparison(op)
    else if l.NilLit? then !IsEquality(op)
    else if r.NilLit? && l.BoolLit? then IsEquality(op)
    else if r.NilLit? && (l.IntLit? || l.NumLit?) then IsComparison(op)
    else if r.NilLit? && (l.DurLit? || l.TimeLit?) then false
    else true
  }

  predicate FoldKeeps(p: Prims, op: Op, l: Expr, r: Expr, m: Env)
    requires FoldNode(p, op, l, r).Some?
  {
    Eval(p, FoldNode(p, op, l, r).value, m) == EvalBinary(p, op, Eval(p, l, m), Eval(p, r, m))
  }

  lemma LogicalStep(p: Prims, op: Op, l: Expr, r: Expr, m: Env)
    requires IsLogical(op) && (l.BoolLit? || r.BoolLit?)
    ensures FoldNode(p, op, l, r).Some? && (FoldKeeps(p, op, l, r, m) <==> StepKeeps(p, op, l, r, m))
  {
  }

  lemma FloatsKeep(p: Prims, op: Op, f: Float, g: Float, stuck: Expr, m: Env)
    requires Eval(p, stuck, m) == EvalFloat(p, op, f, g)
    ensures Eval(p, FoldFloats(p, op, f, g, stuck), m) == EvalFloat(p, op, f, g)
  {
  }

  lemma IntIntStep(p: Prims, op: Op, i: Int64, j: Int64, m: Env)
    ensures FoldNode(p, op, IntLit(i), IntLit(j)).Some?
    ensures FoldKeeps(p, op, IntLit(i), IntLit(j), m) <==> StepKeeps(p, op, IntLit(i), IntLit(j), m)
  {
  }

  lemma IntNumStep(p: Prims, op: Op, i: Int64, f: Float, m: Env)
    ensures FoldNode(p, op, IntLit(i), NumLit(f)).Some?
    ensures FoldKeeps(p, op, IntLit(i), NumLit(f), m) <==> StepKeeps(p, op, IntLit(i), NumLit(f), m)
  {
    FloatsKeep(p, op, p.ofInt(i), f, Binary(op, NumLit(p.ofInt(i)), NumLit(f)), m);
  }

  lemma IntOtherStep(p: Prims, op: Op, i: Int64, r: Expr, m: Env)
    requires !(IsLogical(op) && r.BoolLit?) && !r.IntLit? && !r.NumLit?
    ensures FoldNode(p, op, IntLit(i), r).Some?
    ensures FoldKeeps(p, op, IntLit(i), r, m) <==> StepKeeps(p, op, IntLit(i), r, m)
  {
  }

  lemma IntStep(p: Prims, op: Op, i: Int64, r: Expr, m: Env)
    requires !(IsLogical(op) && r.BoolLit?)
    ensures FoldNode(p, op, IntLit(i), r).Some?
    ensures FoldKeeps(p, op, IntLit(i), r, m) <==> StepKeeps(p, op, IntLit(i), r, m)
  {
    match r
    case IntLit(j) => IntIntStep(p, op, i, j, m);
    case NumLit(f) => IntNumStep(p, op, i, f, m);
    case _ => IntOtherStep(p, op, i, r, m);
  }

  lemma NumNumStep(p: Prims, op: Op, f: Float, g: Float, m: Env)
    ensures FoldNode(p, op, NumLit(f), NumLit(g)).Some?
    ensures FoldKeeps(p, op, NumLit(f), NumLit(g), m) <==> StepKeeps(p, op, NumLit(f), NumLit(g), m)
  {
    FloatsKeep(p, op, f, g, Binary(op, NumLit(f), NumLit(g)), m);
  }

  lemma NumIntStep(p: Prims, op: Op, f: Float, j: Int64, m: Env)
    ensures FoldNode(p, op, NumLit(f), IntLit(j)).Some?
    ensures FoldKeeps(p, op, NumLit(f), IntLit(j), m) <==> StepKeeps(p, op, NumLit(f), IntLit(j), m)
  {
    FloatsKeep(p, op, f, p.ofInt(j), Binary(op, NumLit(f), IntLit(j)), m);
  }

  lemma NumOtherStep(p: Prims, op: Op, f: Float, r: Expr, m: Env)
    requires !(IsLogical(op) && r.BoolLit?) && !r.IntLit? && !r.NumLit?
    ensures FoldNode(p, op, NumLit(f), r).Some?
    ensures FoldKeeps(p, op, NumLit(f), r, m) <==> StepKeeps(p, op, NumLit(f), r, m)
  {
  }

  lemma NumStep(p: Prims, op: Op, f: Float, r: Expr, m: Env)
    requires !(IsLogical(op) && r.BoolLit?)
    ensures FoldNode(p, op, NumLit(f), r).Some?
    ensures FoldKeeps(p, op, NumLit(f), r, m) <==> StepKeeps(p, op, NumLit(f), r, m)
  {
    match r
    case NumLit(g) => NumNumStep(p, op, f, g, m);
    case IntLit(j) => NumIntStep(p, op, f, j, m);
    case _ => NumOtherStep(p, op, f, r, m);
  }

  lemma DurStep(p: Prims, op: Op, d: Int64, r: Expr, m: Env)
    requires !(IsLogical(op) && r.BoolLit?) && FoldNode(p, op, DurLit(d), r).Some?
    ensures FoldKeeps(p, op, DurLit(d), r, m) <==> StepKeeps(p, op, DurLit(d), r, m)
  {
  }

  lemma TimeStep(p: Prims, op: Op, t: int, r: Expr, m: Env)
    requires !(IsLogical(op) && r.BoolLit?) && FoldNode(p, op, TimeLit(t), r).Some?
    ensures FoldKeeps(p, op, TimeLit(t), r, m) <==> StepKeeps(p, op, TimeLit(t), r, m)
  {
  }

  lemma PlainStep(p: Prims, op: Op, l: Expr, r: Expr, m: Env)
    requires (l.BoolLit? || l.StrLit? || l.NilLit?) && !r.Missing? && !(IsLogical(op) && (l.BoolLit? || r.BoolLit?))
    ensures FoldNode(p, op, l, r).Some? && (FoldKeeps(p, op, l, r, m) <==> StepKeeps(p, op, l, r, m))
  {
  }

  lemma UnfoldedStep(p: Prims, op: Op, l: Expr, r: Expr, m: Env)
    requires !IsLiteral(l) && !l.Missing? && !r.Missing? && !(IsLogical(op) && r.BoolLit?)
    ensures FoldNode(p, op, l, r) == Some(Binary(op, l, r)) && FoldKeeps(p, op, l, r, m) && StepKeeps(p, op, l, r, m)
  {
  }

  /** Exactness, both ways: the node keeps its value if and only if `StepKeeps` says so. */
  lemma StepKeepsExactly(p: Prims, op: Op, l: Expr, r: Expr, m: Env)
    requires FoldNode(p, op, l, r).Some?
    ensures FoldKeeps(p, op, l, r, m) <==> StepKeeps(p, op, l, r, m)
  {
    if l.Missing? || r.Missing? {
    } else if IsLogical(op) && (l.BoolLit? || r.BoolLit?) {
      LogicalStep(p, op, l, r, m);
    } else if l.IntLit? {
      IntStep(p, op, l.i, r, m);
    } else if l.NumLit? {
      NumStep(p, op, l.f, r, m);
    } else if l.DurLit? {
      DurStep(p, op, l.d, r, m);
    } else if l.TimeLit? {
      TimeStep(p, op, l.t, r, m);
    } else if l.BoolLit? || l.StrLit? || l.NilLit? {
      PlainStep(p, op, l, r, m);
    } else {
      UnfoldedStep(p, op, l, r, m);
    }
  }

  // ---------------------------------------------------------------------------------------
  // Whole expressions
  // ---------------------------------------------------------------------------------------

  /** Reducing `e` with `v` and evaluating in `m` gives the value of `e` itself. */
  predicate Keeps(p: Prims, e: Expr, v: Valuer, m: Env)
    requires ReduceNode(p, e, v).Some?
  {
    Eval(p, ReduceNode(p, e, v).value, m) == Eval(p, e, Overlay(v, m))
  }

  /** A variable keeps its value unless the valuer binds it to something without a literal that
      `Eval` reads back: a time, a duration, or a value of another type (an integer, say). */
  predicate VarKeeps(v: Valuer, n: string) {
    v(n).None? || v(n).value.KBool? || v(n).value.KNum? || v(n).value.KStr?
  }

  lemma VarKeepsExactly(p: Prims, n: string, typ: int, v: Valuer, m: Env)
    ensures Keeps(p, VarRef(n, typ), v, m) <==> VarKeeps(v, n)
  {
  }

  /** Once both operands keep their value, the node keeps its own if and only if the folding
      step on the reduced operands does. */
  lemma NodeKeepsExactly(p: Prims, op: Op, l: Expr, r: Expr, v: Valuer, m: Env)
    requires ReduceNode(p, Binary(op, l, r), v).Some?
    requires Keeps(p, l, v, m) && Keeps(p, r, v, m)
    ensures Keeps(p, Binary(op, l, r), v, m) <==>
            StepKeeps(p, op, ReduceNode(p, l, v).value, ReduceNode(p, r, v).value, m)
  {
    StepKeepsExactly(p, op, ReduceNode(p, l, v).value, ReduceNode(p, r, v).value, m);
  }

  /** The operand values on which `Eval` and folding agree. */
  predicate OperandsAgree(op: Op, x: Value, y: Value) {
    && (IsLogical(op) ==> x.Bool? && y.Bool?)
    && (op.DIV? ==> !(x.Int? && y.Int? && y.i != 0))
    && (op.ADD? ==> !(x.Str? && y.Str?))
  }

  predicate BothMayBe(k: Kind, l: Expr, r: Expr, v: Valuer) {
    MayBe(k, l, v) && MayBe(k, r, v)
  }

  /** Checkable before reducing: AND and OR get booleans, no nonzero integer divides an integer,
      no two strings are added, no comparison can be of two times or two durations, and the valuer binds the
      variables that occur to booleans, floats or strings if at all. */
  predicate Agreeable(p: Prims, e: Expr, v: Valuer, m: Env) {
    match e
    case Binary(op, l, r) =>
      && Agreeable(p, l, v, m)
      && Agreeable(p, r, v, m)
      && OperandsAgree(op, Eval(p, l, Overlay(v, m)), Eval(p, r, Overlay(v, m)))
      && (IsComparison(op) ==> !BothMayBe(Duration, l, r, v) && !BothMayBe(Time, l, r, v))
    case Paren(x) => Agreeable(p, x, v, m)
    case VarRef(n, _) => VarKeeps(v, n)
    case _ => true
  }

  /** A folding step over agreeing operand values keeps the value. */
  lemma AgreeingStepKeeps(p: Prims, op: Op, l: Expr, r: Expr, m: Env)
    requires !l.NilLit? && !r.NilLit?
    requires OperandsAgree(op, Eval(p, l, m), Eval(p, r, m))
    requires IsComparison(op) ==> !(l.DurLit? && r.DurLit?) && !(l.TimeLit? && r.TimeLit?)
    ensures StepKeeps(p, op, l, r, m)
  {
  }

  /** No comparison of reduced operands is of two times or two durations. */
  lemma ComparisonsAgree(p: Prims, op: Op, l: Expr, r: Expr, v: Valuer)
    requires ReduceNode(p, l, v).Some? && ReduceNode(p, r, v).Some?
    requires !BothMayBe(Duration, l, r, v) && !BothMayBe(Time, l, r, v)
    ensures var l', r' := ReduceNode(p, l, v).value, ReduceNode(p, r, v).value;
            !(l'.DurLit? && r'.DurLit?) && !(l'.TimeLit? && r'.TimeLit?)
  {
    var l', r' := ReduceNode(p, l, v).value, ReduceNode(p, r, v).value;
    if l'.DurLit? && r'.DurLit? {
      ReducedKind(p, Duration, l, v);
      ReducedKind(p, Duration, r, v);
    }
    if l'.TimeLit? && r'.TimeLit? {
      ReducedKind(p, Time, l, v);
      ReducedKind(p, Time, r, v);
    }
  }

  /** The main theorem: an agreeable expression keeps its value under reduction. */
  lemma {:induction false} AgreeableKeeps(p: Prims, e: Expr, v: Valuer, m: Env)
    requires ReduceNode(p, e, v).Some?
    requires Agreeable(p, e, v, m)
    ensures Keeps(p, e, v, m)
    ensures !ReduceNode(p, e, v).value.NilLit?
  {
    match e
    case Binary(op, l, r) =>
      AgreeableKeeps(p, l, v, m);
      AgreeableKeeps(p, r, v, m);
      var l', r' := ReduceNode(p, l, v).value, ReduceNode(p, r, v).value;
      if IsComparison(op) {
        ComparisonsAgree(p, op, l, r, v);
      }
      AgreeingStepKeeps(p, op, l', r', m);
      NodeKeepsExactly(p, op, l, r, v, m);
      FoldShape(p, op, l', r');
    case Paren(x) => AgreeableKeeps(p, x, v, m);
    case VarRef(n, typ) => VarKeepsExactly(p, n, typ, v, m);
    case _ =>
  }

  lemma ReducedKeepsMeaning(p: Prims, e: Expr, v: Valuer, m: Env)
    requires Reduce(p, e, v).Some?
    requires Agreeable(p, e, v, m)
    ensures Eval(p, Reduce(p, e, v).value, m) == Eval(p, e, Overlay(v, m))
  {
    AgreeableKeeps(p, e, v, m);
  }

  /** The same for `Reduce`, which also drops the outermost parentheses: it panics exactly on a nil
      literal or a bad division, and otherwise reducing with what is known and evaluating with the rest
      is evaluating with everything. */
  lemma ReduceKeepsMeaning(p: Prims, e: Expr, v: Valuer, m: Env)
    requires Agreeable(p, e, v, m)
    ensures Reduce(p, e, v).None? <==> HasNilLit(e) || HasBadDivision(p, e, v)
    ensures Reduce(p, e, v).Some? ==> Eval(p, Reduce(p, e, v).value, m) == Eval(p, e, Overlay(v, m))
  {
    ReducePanicsExactly(p, e, v);
    if Reduce(p, e, v).Some? {
      ReducedKeepsMeaning(p, e, v, m);
    }
  }

  /** Without nil literals and with safe divisions, both of which can be seen in the expression and the
      valuer, nothing panics. */
  lemma SafeReduceKeepsMeaning(p: Prims, e: Expr, v: Valuer, m: Env)
    requires Agreeable(p, e, v, m) && !HasNilLit(e) && SafeDivisions(p, e, v)
    ensures Reduce(p, e, v).Some? && Eval(p, Reduce(p, e, v).value, m) == Eval(p, e, Overlay(v, m))
  {
    ReduceTotal(p, e, v);
    ReduceKeepsMeaning(p, e, v, m);
  }

  lemma {:induction false} EvalExtensional(p: Prims, e: Expr, m: Env, m': Env)
    requires forall n: string :: m(n) == m'(n)
    ensures Eval(p, e, m) == Eval(p, e, m')
  {
    match e
    case Binary(_, l, r) =>
      EvalExtensional(p, l, m, m');
      EvalExtensional(p, r, m, m');
    case Paren(x) => EvalExtensional(p, x, m, m');
    case _ =>
  }

  /** With the nil valuer the environment is `m` alone: `Eval(Reduce(e), m) == Eval(e, m)`. */
  lemma ConstantFoldingKeepsMeaning(p: Prims, e: Expr, m: Env)
    requires Agreeable(p, e, NOTHING, m) && !HasNilLit(e) && SafeDivisions(p, e, NOTHING)
    ensures Reduce(p, e, NOTHING).Some? && Eval(p, Reduce(p, e, NOTHING).value, m) == Eval(p, e, m)
  {
    SafeReduceKeepsMeaning(p, e, NOTHING, m);
    EvalExtensional(p, e, Overlay(NOTHING, m), m);
  }

  // One expression from each family the condition excludes, where reducing changes the value.

  /** 1 / 2. */
  lemma DivisionChangesMeaning(p: Prims, m: Env)
    ensures var half := Binary(DIV, IntLit(1), IntLit(2));
            && Reduce(p, half, NOTHING) == Some(NumLit(p.div(p.ofInt(1), p.ofInt(2))))
            && Eval(p, half, m) == Int(0)
  {
  }

  /** "a" + "b". */
  lemma ConcatenationChangesMeaning(p: Prims, m: Env)
    ensures var ab := Binary(ADD, StrLit("a"), StrLit("b"));
            Reduce(p, ab, NOTHING) == Some(StrLit("ab")) && Eval(p, ab, m) == Nil
  {
    assert "a" + "b" == "ab";
  }

  /** 1s = 1s. */
  lemma DurationComparisonChangesMeaning(p: Prims, m: Env)
    ensures var same := Binary(EQ, DurLit(1000000000), DurLit(1000000000));
            Reduce(p, same, NOTHING) == Some(BoolLit(true)) && Eval(p, same, m) == Nil
  {
  }

  /** x AND true, for an integer x. */
  lemma ConjunctionChangesMeaning(p: Prims, m: Env)
    requires m("x") == Int(7)
    ensures var x := VarRef("x", 0);
            var both := Binary(AND, x, BoolLit(true));
            Reduce(p, both, NOTHING) == Some(x) && Eval(p, x, m) == Int(7) && Eval(p, both, m) == Nil
  {
  }
}
