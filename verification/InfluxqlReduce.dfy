/** What `Reduce` guarantees: its result is a normal form, reducing again changes nothing, and it
    panics exactly on nil literals and on durations divided by small floats. */
module InfluxqlReduce {
  import opened Common
  import opened InfluxqlAst

  // ---------------------------------------------------------------------------------------
  // Normal forms
  // ---------------------------------------------------------------------------------------

  predicate IsLiteral(e: Expr) {
    e.BoolLit? || e.DurLit? || e.IntLit? || e.NumLit? || e.StrLit? || e.TimeLit? || e.NilLit?
  }

  // The right operands that fold with a literal on the left, by its kind.

  predicate FoldsWithBool(op: Op, r: Expr) {
    r.NilLit? || (r.BoolLit? && (IsLogical(op) || IsEquality(op)))
  }

  predicate FoldsWithDur(op: Op, r: Expr) {
    match r
    case DurLit(_) => op.ADD? || op.SUB? || IsComparison(op)
    case NumLit(_) | IntLit(_) => op.MUL? || op.DIV?
    case TimeLit(_) => op.ADD?
    case NilLit => true
    case _ => false
  }

  predicate FoldsWithInt(op: Op, r: Expr) {
    match r
    case NumLit(_) | IntLit(_) => IsArithmetic(op) || IsComparison(op)
    case DurLit(_) => op.ADD? || op.SUB?
    case NilLit => true
    case _ => false
  }

  predicate FoldsWithNum(op: Op, r: Expr) {
    r.NilLit? || ((r.NumLit? || r.IntLit?) && (IsArithmetic(op) || IsComparison(op)))
  }

  predicate FoldsWithStr(op: Op, r: Expr) {
    (r.NilLit? && IsEquality(op)) || (r.StrLit? && (IsEquality(op) || op.ADD?))
  }

  predicate FoldsWithTime(op: Op, r: Expr) {
    match r
    case DurLit(_) => op.ADD? || op.SUB?
    case TimeLit(_) => op.SUB? || IsComparison(op)
    case NilLit => true
    case _ => false
  }

  /** The pairs, by kind and operator, that have a folded form. */
  predicate Foldable(op: Op, l: Expr, r: Expr) {
    match l
    case BoolLit(_) => FoldsWithBool(op, r)
    case DurLit(_) => FoldsWithDur(op, r)
    case IntLit(_) => FoldsWithInt(op, r)
    case NumLit(_) => FoldsWithNum(op, r)
    case StrLit(_) => FoldsWithStr(op, r)
    case TimeLit(_) => FoldsWithTime(op, r)
    case NilLit => IsEquality(op)
    case _ => false
  }

  /** A binary node nothing more can be done to. An integer beside a float has already become
      a float, whatever the operator. */
  predicate Irreducible(op: Op, l: Expr, r: Expr) {
    l.Missing? || r.Missing? ||
    (&& !(IsLogical(op) && (l.BoolLit? || r.BoolLit?))
     && !Foldable(op, l, r)
     && !(l.IntLit? && r.NumLit?))
  }

  /** Normal form: parentheses only around binary nodes, every binary node irreducible, and
      nothing left that the valuer knows. */
  predicate Normal(e: Expr, v: Valuer) {
    match e
    case Binary(op, l, r) => Normal(l, v) && Normal(r, v) && Irreducible(op, l, r)
    case Paren(x) => x.Binary? && Normal(x, v)
    case Call(_, args) => !IsNowCall(v, e) && forall i :: 0 <= i < |args| ==> Normal(args[i], v)
    case VarRef(n, _) => v(n).None?
    case Wildcard(k) => k == AnyKind
    case _ => true
  }

  predicate HasNilLit(e: Expr) {
    match e
    case NilLit => true
    case Binary(_, l, r) => HasNilLit(l) || HasNilLit(r)
    case Paren(x) => HasNilLit(x)
    case Call(_, args) => exists i :: 0 <= i < |args| && HasNilLit(args[i])
    case _ => false
  }

  /** Folding one node either stops at an irreducible node over the same operands (an integer
      may have become a float), returns an operand, or returns a literal. */
  predicate Shaped(p: Prims, op: Op, l: Expr, r: Expr, e: Expr) {
    || (e == Binary(op, l, r) && Irreducible(op, l, r))
    || (l.IntLit? && r.NumLit? && e == Binary(op, NumLit(p.ofInt(l.i)), r) && Irreducible(op, e.lhs, r))
    || (IsLogical(op) && (e == l || e == r))
    || (IsLiteral(e) && !e.NilLit?)
  }

  predicate IsFolded(e: Expr) {
    IsLiteral(e) && !e.NilLit?
  }

  lemma BoolLhs(op: Op, b: bool, r: Expr)
    ensures if FoldsWithBool(op, r) then IsFolded(FoldBoolLhs(op, b, r))
            else FoldBoolLhs(op, b, r) == Binary(op, BoolLit(b), r)
  {
  }

  lemma DurLhs(p: Prims, op: Op, d: Int64, r: Expr)
    ensures var e := FoldDurLhs(p, op, d, r);
            if FoldsWithDur(op, r) then e.None? || IsFolded(e.value) else e == Some(Binary(op, DurLit(d), r))
  {
  }

  lemma NumLhs(p: Prims, op: Op, f: Float, r: Expr)
    ensures if FoldsWithNum(op, r) then IsFolded(FoldNumLhs(p, op, f, r))
            else FoldNumLhs(p, op, f, r) == Binary(op, NumLit(f), r)
  {
  }

  lemma IntLhs(p: Prims, op: Op, i: Int64, r: Expr)
    ensures var e := FoldIntLhs(p, op, i, r);
            if FoldsWithInt(op, r) then IsFolded(e)
            else e == Binary(op, if r.NumLit? then NumLit(p.ofInt(i)) else IntLit(i), r)
  {
    if r.NumLit? {
      NumLhs(p, op, p.ofInt(i), r);
    }
  }

  lemma StrLhs(op: Op, s: string, r: Expr)
    ensures if FoldsWithStr(op, r) then IsFolded(FoldStrLhs(op, s, r))
            else FoldStrLhs(op, s, r) == Binary(op, StrLit(s), r)
  {
  }

  lemma TimeLhs(op: Op, t: int, r: Expr)
    ensures if FoldsWithTime(op, r) then IsFolded(FoldTimeLhs(op, t, r))
            else FoldTimeLhs(op, t, r) == Binary(op, TimeLit(t), r)
  {
  }

  /** What folding literals gives, in one statement. */
  lemma LiteralsShape(p: Prims, op: Op, l: Expr, r: Expr)
    ensures var e := FoldLiterals(p, op, l, r);
            if Foldable(op, l, r) then e.None? || IsFolded(e.value)
            else e == Some(Binary(op, if l.IntLit? && r.NumLit? then NumLit(p.ofInt(l.i)) else l, r))
  {
    match l
    case BoolLit(b) => BoolLhs(op, b, r);
    case DurLit(d) => DurLhs(p, op, d, r);
    case IntLit(i) => IntLhs(p, op, i, r);
    case NumLit(f) => NumLhs(p, op, f, r);
    case StrLit(s) => StrLhs(op, s, r);
    case TimeLit(t) => TimeLhs(op, t, r);
    case _ =>
  }

  lemma FoldShape(p: Prims, op: Op, l: Expr, r: Expr)
    requires FoldNode(p, op, l, r).Some?
    ensures Shaped(p, op, l, r, FoldNode(p, op, l, r).value)
  {
    LiteralsShape(p, op, l, r);
  }

  /** An irreducible node is a fixed point of folding, and only such a node is. */
  lemma FoldFixedExactly(p: Prims, op: Op, l: Expr, r: Expr)
    ensures FoldNode(p, op, l, r) == Some(Binary(op, l, r)) <==> Irreducible(op, l, r)
  {
    LiteralsShape(p, op, l, r);
    var e := Binary(op, l, r);
    assert l < e && r < e;
  }

  /** Every reduction that does not panic ends in a normal form. */
  lemma {:induction false} ReduceNodeNormal(p: Prims, e: Expr, v: Valuer)
    requires ReduceNode(p, e, v).Some?
    ensures Normal(ReduceNode(p, e, v).value, v)
    decreases e, 1
  {
    match e
    case Binary(op, l, r) =>
      ReduceNodeNormal(p, l, v);
      ReduceNodeNormal(p, r, v);
      FoldShape(p, op, ReduceNode(p, l, v).value, ReduceNode(p, r, v).value);
    case Call(_, args) =>
      if !IsNowCall(v, e) {
        ReduceArgsNormal(p, args, v);
      }
    case Paren(x) => ReduceNodeNormal(p, x, v);
    case _ =>
  }

  lemma {:induction false} ReduceArgsNormal(p: Prims, args: seq<Expr>, v: Valuer)
    requires ReduceArgs(p, args, v).Some?
    ensures forall i :: 0 <= i < |args| ==> Normal(ReduceArgs(p, args, v).value[i], v)
    decreases args, 0
  {
    if args != [] {
      ReduceNodeNormal(p, args[0], v);
      ReduceArgsNormal(p, args[1..], v);
    }
  }

  /** A normal form is left alone, unless it holds a nil literal: copying that one panics. */
  lemma {:induction false} NormalIsFixed(p: Prims, e: Expr, v: Valuer)
    requires Normal(e, v)
    ensures ReduceNode(p, e, v) == if HasNilLit(e) then None else Some(e)
    decreases e, 1
  {
    match e
    case Binary(op, l, r) =>
      NormalIsFixed(p, l, v);
      NormalIsFixed(p, r, v);
      FoldFixedExactly(p, op, l, r);
    case Call(_, args) => NormalArgsFixed(p, args, v);
    case Paren(x) => NormalIsFixed(p, x, v);
    case _ =>
  }

  lemma {:induction false} NormalArgsFixed(p: Prims, args: seq<Expr>, v: Valuer)
    requires forall i :: 0 <= i < |args| ==> Normal(args[i], v)
    ensures ReduceArgs(p, args, v) ==
            if exists i :: 0 <= i < |args| && HasNilLit(args[i]) then None else Some(args)
    decreases args, 0
  {
    if args != [] {
      NormalIsFixed(p, args[0], v);
      NormalArgsFixed(p, args[1..], v);
      assert args == [args[0]] + args[1..];
    }
  }

  /** `Reduce` is idempotent exactly when its result holds no nil literal; with one, reducing
      again panics. */
  lemma ReduceIdempotent(p: Prims, e: Expr, v: Valuer)
    requires Reduce(p, e, v).Some?
    ensures var e' := Reduce(p, e, v).value;
            && Normal(e', v)
            && !e'.Paren?
            && Reduce(p, e', v) == if HasNilLit(e') then None else Some(e')
  {
    ReduceNodeNormal(p, e, v);
    NormalIsFixed(p, Reduce(p, e, v).value, v);
  }

  /** The valuer binds names only to values that have a literal form. */
  ghost predicate Literate(v: Valuer) {
    forall n: string :: v(n).Some? ==> !v(n).value.KOther?
  }

  lemma NowValuersAreLiterate(now: int)
    ensures Literate(NOTHING) && Literate(NowValuer(now))
  {
  }

  lemma {:induction false} ReduceNodeHasNoNilLit(p: Prims, e: Expr, v: Valuer)
    requires Literate(v) && ReduceNode(p, e, v).Some?
    ensures !HasNilLit(ReduceNode(p, e, v).value)
    decreases e, 1
  {
    match e
    case Binary(op, l, r) =>
      ReduceNodeHasNoNilLit(p, l, v);
      ReduceNodeHasNoNilLit(p, r, v);
      FoldShape(p, op, ReduceNode(p, l, v).value, ReduceNode(p, r, v).value);
    case Call(_, args) =>
      if !IsNowCall(v, e) {
        ReduceArgsHaveNoNilLit(p, args, v);
      }
    case Paren(x) => ReduceNodeHasNoNilLit(p, x, v);
    case _ =>
  }

  lemma {:induction false} ReduceArgsHaveNoNilLit(p: Prims, args: seq<Expr>, v: Valuer)
    requires Literate(v) && ReduceArgs(p, args, v).Some?
    ensures forall i :: 0 <= i < |args| ==> !HasNilLit(ReduceArgs(p, args, v).value[i])
    decreases args, 0
  {
    if args != [] {
      ReduceNodeHasNoNilLit(p, args[0], v);
      ReduceArgsHaveNoNilLit(p, args[1..], v);
    }
  }

  /** With the nil valuer, `NowValuer`, or any other that binds only literal values, reducing
      twice is reducing once. */
  lemma ReduceTwiceIsOnce(p: Prims, e: Expr, v: Valuer)
    requires Literate(v) && Reduce(p, e, v).Some?
    ensures Reduce(p, Reduce(p, e, v).value, v) == Reduce(p, e, v)
  {
    ReduceNodeHasNoNilLit(p, e, v);
    ReduceIdempotent(p, e, v);
  }

  // A nil literal in the result comes from a variable bound to a value without a literal form, and only
  // a folding step that swallows it removes it.

  /** Folding leaves nothing of a nil literal in the operands. */
  predicate Swallows(op: Op, l: Expr, r: Expr) {
    && !l.Missing? && !r.Missing?
    && (if op.AND? && (l.BoolLit? || r.BoolLit?) then l == BoolLit(false) || r == BoolLit(false)
        else if op.OR? && (l.BoolLit? || r.BoolLit?) then l == BoolLit(true) || r == BoolLit(true)
        else Foldable(op, l, r))
  }

  lemma FoldNilExactly(p: Prims, op: Op, l: Expr, r: Expr)
    requires FoldNode(p, op, l, r).Some?
    ensures HasNilLit(FoldNode(p, op, l, r).value) <==> (HasNilLit(l) || HasNilLit(r)) && !Swallows(op, l, r)
  {
    LiteralsShape(p, op, l, r);
  }

  /** `e` has a variable bound to a value without a literal form, and no step above it swallows it. */
  predicate NilSurvives(p: Prims, e: Expr, v: Valuer) {
    match e
    case VarRef(n, _) => v(n).Some? && v(n).value.KOther?
    case Binary(op, l, r) =>
      && (NilSurvives(p, l, v) || NilSurvives(p, r, v))
      && (var l', r' := ReduceNode(p, l, v), ReduceNode(p, r, v);
          l'.Some? && r'.Some? ==> !Swallows(op, l'.value, r'.value))
    case Paren(x) => NilSurvives(p, x, v)
    case Call(_, args) => exists i :: 0 <= i < |args| && NilSurvives(p, args[i], v)
    case _ => false
  }

  lemma {:induction false} NilSurvivesExactly(p: Prims, e: Expr, v: Valuer)
    requires ReduceNode(p, e, v).Some?
    ensures HasNilLit(ReduceNode(p, e, v).value) <==> NilSurvives(p, e, v)
    decreases e, 1
  {
    match e
    case Binary(op, l, r) =>
      NilSurvivesExactly(p, l, v);
      NilSurvivesExactly(p, r, v);
      FoldNilExactly(p, op, ReduceNode(p, l, v).value, ReduceNode(p, r, v).value);
    case Call(_, args) =>
      if !IsNowCall(v, e) {
        ArgsNilExactly(p, args, v);
      }
    case Paren(x) => NilSurvivesExactly(p, x, v);
    case _ =>
  }

  lemma {:induction false} ArgsNilExactly(p: Prims, args: seq<Expr>, v: Valuer)
    requires ReduceArgs(p, args, v).Some?
    ensures forall i :: 0 <= i < |args| ==>
              (HasNilLit(ReduceArgs(p, args, v).value[i]) <==> NilSurvives(p, args[i], v))
    decreases args, 0
  {
    if args != [] {
      NilSurvivesExactly(p, args[0], v);
      ArgsNilExactly(p, args[1..], v);
    }
  }

  /** So whether reducing twice is reducing once can be told before; otherwise the second time panics. */
  lemma ReduceTwiceExactly(p: Prims, e: Expr, v: Valuer)
    requires Reduce(p, e, v).Some?
    ensures Reduce(p, Reduce(p, e, v).value, v) == if NilSurvives(p, e, v) then None else Reduce(p, e, v)
  {
    NilSurvivesExactly(p, e, v);
    ReduceIdempotent(p, e, v);
  }

  /** A variable bound to an integer, say. */
  lemma ReduceTwiceFails(p: Prims, n: string, typ: int, id: int, v: Valuer)
    requires v(n) == Some(KOther(id))
    ensures Reduce(p, VarRef(n, typ), v) == Some(NilLit) && Reduce(p, NilLit, v) == None
  {
  }

  // ---------------------------------------------------------------------------------------
  // Panics
  // ---------------------------------------------------------------------------------------

  /** Folding a node panics exactly on a duration over a nonzero float that truncates to 0. */
  lemma FoldPanicsExactly(p: Prims, op: Op, l: Expr, r: Expr)
    ensures FoldNode(p, op, l, r).None? <==>
            op.DIV? && l.DurLit? && r.NumLit? && !p.eq(r.f, p.zero) && p.toInt(r.f) == 0
  {
  }

  /** The divisor is a float that passes the test for zero and is zero once truncated. */
  predicate IsBadDivisor(p: Prims, r: Expr) {
    r.NumLit? && !p.eq(r.f, p.zero) && p.toInt(r.f) == 0
  }

  /** Somewhere in `e` a duration is divided by a float that is zero once truncated. */
  predicate HasBadDivision(p: Prims, e: Expr, v: Valuer) {
    match e
    case Binary(op, l, r) =>
      || HasBadDivision(p, l, v)
      || HasBadDivision(p, r, v)
      || (var l', r' := ReduceNode(p, l, v), ReduceNode(p, r, v);
          op.DIV? && l'.Some? && l'.value.DurLit? && r'.Some? && IsBadDivisor(p, r'.value))
    case Paren(x) => HasBadDivision(p, x, v)
    case Call(_, args) => exists i :: 0 <= i < |args| && HasBadDivision(p, args[i], v)
    case _ => false
  }

  /** A whole expression: reducing it panics exactly if it holds a nil literal or such a division. */
  lemma {:induction false} PanicsExactly(p: Prims, e: Expr, v: Valuer)
    ensures ReduceNode(p, e, v).None? <==> HasNilLit(e) || HasBadDivision(p, e, v)
    decreases e, 1
  {
    match e
    case Binary(op, l, r) =>
      PanicsExactly(p, l, v);
      PanicsExactly(p, r, v);
      var l', r' := ReduceNode(p, l, v), ReduceNode(p, r, v);
      if l'.Some? && r'.Some? {
        FoldPanicsExactly(p, op, l'.value, r'.value);
      }
    case Call(_, args) => ArgsPanicExactly(p, args, v);
    case Paren(x) => PanicsExactly(p, x, v);
    case _ =>
  }

  lemma {:induction false} ArgsPanicExactly(p: Prims, args: seq<Expr>, v: Valuer)
    ensures ReduceArgs(p, args, v).None? <==>
            exists i :: 0 <= i < |args| && (HasNilLit(args[i]) || HasBadDivision(p, args[i], v))
    decreases args, 0
  {
    if args != [] {
      PanicsExactly(p, args[0], v);
      ArgsPanicExactly(p, args[1..], v);
      assert args == [args[0]] + args[1..];
    }
  }

  lemma ReducePanicsExactly(p: Prims, e: Expr, v: Valuer)
    ensures Reduce(p, e, v).None? <==> HasNilLit(e) || HasBadDivision(p, e, v)
  {
    PanicsExactly(p, e, v);
  }

  /** An hour over 0.5, say. */
  lemma DurationOverFraction(p: Prims, d: Int64, f: Float, v: Valuer)
    ensures Reduce(p, Binary(DIV, DurLit(d), NumLit(f)), v).None? <==> IsBadDivisor(p, NumLit(f))
  {
    FoldPanicsExactly(p, DIV, DurLit(d), NumLit(f));
    assert ReduceNode(p, DurLit(d), v) == Some(DurLit(d)) && ReduceNode(p, NumLit(f), v) == Some(NumLit(f));
  }

  // Whether a panic is possible can be told from the kinds that operands can have.

  datatype Kind = Duration | Time | Float | Integer

  predicate IsOfKind(k: Kind, e: Expr) {
    match k
    case Duration => e.DurLit?
    case Time => e.TimeLit?
    case Float => e.NumLit?
    case Integer => e.IntLit?
  }

  function KindsOf(e: Expr): Kind -> bool {
    k => IsOfKind(k, e)
  }

  predicate BindsKind(v: Valuer, n: string, k: Kind) {
    match v(n)
    case Some(KDur(_)) => k.Duration?
    case Some(KTime(_)) => k.Time?
    case Some(KNum(_)) => k.Float?
    case _ => false
  }

  /** The literals that folding `op` can give, by the kinds its operands can have. */
  predicate MayFold(k: Kind, op: Op, l: Kind -> bool, r: Kind -> bool) {
    if IsLogical(op) then l(k) || r(k)
    else if !IsArithmetic(op) then false
    else
      match k
      case Duration =>
        if op.MUL? || op.DIV? then l(Duration) && (r(Float) || r(Integer))
        else (l(Duration) && r(Duration)) || (op.SUB? && l(Time) && r(Time))
      case Time =>
        || ((op.ADD? || op.SUB?) && (l(Time) || l(Integer)) && r(Duration))
        || (op.ADD? && l(Duration) && r(Time))
      case Float =>
        || (l(Float) && (r(Float) || r(Integer)))
        || (l(Integer) && (r(Float) || (op.DIV? && r(Integer))))
      case Integer => !op.DIV? && l(Integer) && r(Integer)
  }

  /** `e` can reduce to a literal of this kind. */
  predicate MayBe(k: Kind, e: Expr, v: Valuer)
    decreases e
  {
    match e
    case VarRef(n, _) => BindsKind(v, n, k)
    case Call(_, _) => k.Time? && IsNowCall(v, e)
    case Paren(x) => MayBe(k, x, v)
    case Binary(op, l, r) => MayFold(k, op, j => MayBe(j, l, v), j => MayBe(j, r, v))
    case _ => IsOfKind(k, e)
  }

  lemma DurLhsKind(p: Prims, k: Kind, op: Op, d: Int64, r: Expr)
    requires !IsLogical(op) && FoldDurLhs(p, op, d, r).Some? && IsOfKind(k, FoldDurLhs(p, op, d, r).value)
    ensures MayFold(k, op, KindsOf(DurLit(d)), KindsOf(r))
  {
  }

  lemma IntLhsKind(p: Prims, k: Kind, op: Op, i: Int64, r: Expr)
    requires !IsLogical(op) && IsOfKind(k, FoldIntLhs(p, op, i, r))
    ensures MayFold(k, op, KindsOf(IntLit(i)), KindsOf(r))
  {
  }

  lemma NumLhsKind(p: Prims, k: Kind, op: Op, f: Float, r: Expr)
    requires !IsLogical(op) && IsOfKind(k, FoldNumLhs(p, op, f, r))
    ensures MayFold(k, op, KindsOf(NumLit(f)), KindsOf(r))
  {
  }

  lemma TimeLhsKind(k: Kind, op: Op, t: int, r: Expr)
    requires !IsLogical(op) && IsOfKind(k, FoldTimeLhs(op, t, r))
    ensures MayFold(k, op, KindsOf(TimeLit(t)), KindsOf(r))
  {
  }

  /** A logical operator gives a boolean, the node itself, or an operand. */
  lemma LogicalKind(p: Prims, k: Kind, op: Op, l: Expr, r: Expr)
    requires IsLogical(op) && FoldNode(p, op, l, r).Some? && IsOfKind(k, FoldNode(p, op, l, r).value)
    ensures IsOfKind(k, l) || IsOfKind(k, r)
  {
    LiteralsShape(p, op, l, r);
  }

  lemma OtherLhsKind(p: Prims, k: Kind, op: Op, l: Expr, r: Expr)
    requires !l.DurLit? && !l.IntLit? && !l.NumLit? && !l.TimeLit?
    ensures FoldLiterals(p, op, l, r).Some? && !IsOfKind(k, FoldLiterals(p, op, l, r).value)
  {
  }

  lemma LiteralsKind(p: Prims, k: Kind, op: Op, l: Expr, r: Expr)
    requires !IsLogical(op) && FoldLiterals(p, op, l, r).Some? && IsOfKind(k, FoldLiterals(p, op, l, r).value)
    ensures MayFold(k, op, KindsOf(l), KindsOf(r))
  {
    match l
    case DurLit(d) => DurLhsKind(p, k, op, d, r);
    case IntLit(i) => IntLhsKind(p, k, op, i, r);
    case NumLit(f) => NumLhsKind(p, k, op, f, r);
    case TimeLit(t) => TimeLhsKind(k, op, t, r);
    case _ => OtherLhsKind(p, k, op, l, r);
  }

  lemma FoldKind(p: Prims, k: Kind, op: Op, l: Expr, r: Expr)
    requires FoldNode(p, op, l, r).Some? && IsOfKind(k, FoldNode(p, op, l, r).value)
    ensures MayFold(k, op, KindsOf(l), KindsOf(r))
  {
    if IsLogical(op) {
      LogicalKind(p, k, op, l, r);
    } else {
      assert FoldNode(p, op, l, r) == FoldLiterals(p, op, l, r);
      LiteralsKind(p, k, op, l, r);
    }
  }

  /** Folding operands of fewer kinds gives fewer kinds. */
  lemma MayFoldMonotone(k: Kind, op: Op, l: Kind -> bool, r: Kind -> bool, l': Kind -> bool, r': Kind -> bool)
    requires MayFold(k, op, l, r)
    requires forall j :: (l(j) ==> l'(j)) && (r(j) ==> r'(j))
    ensures MayFold(k, op, l', r')
  {
  }

  lemma {:induction false} ReducedKind(p: Prims, k: Kind, e: Expr, v: Valuer)
    requires ReduceNode(p, e, v).Some? && IsOfKind(k, ReduceNode(p, e, v).value)
    ensures MayBe(k, e, v)
    decreases e
  {
    match e
    case Binary(op, l, r) =>
      var l', r' := ReduceNode(p, l, v).value, ReduceNode(p, r, v).value;
      forall j: Kind | IsOfKind(j, l') ensures MayBe(j, l, v) {
        ReducedKind(p, j, l, v);
      }
      forall j: Kind | IsOfKind(j, r') ensures MayBe(j, r, v) {
        ReducedKind(p, j, r, v);
      }
      FoldKind(p, k, op, l', r');
      MayFoldMonotone(k, op, KindsOf(l'), KindsOf(r'), j => MayBe(j, l, v), j => MayBe(j, r, v));
    case Paren(x) => ReducedKind(p, k, x, v);
    case _ =>
  }

  /** No division has a left operand that can be a duration over a right operand that can be a float;
      a literal divisor that is zero or does not truncate to zero is harmless. */
  predicate SafeDivisions(p: Prims, e: Expr, v: Valuer) {
    match e
    case Binary(op, l, r) =>
      && SafeDivisions(p, l, v)
      && SafeDivisions(p, r, v)
      && (op.DIV? && MayBe(Duration, l, v) && MayBe(Float, r, v) ==> r.NumLit? && !IsBadDivisor(p, r))
    case Paren(x) => SafeDivisions(p, x, v)
    case Call(_, args) => forall i :: 0 <= i < |args| ==> SafeDivisions(p, args[i], v)
    case _ => true
  }

  lemma {:induction false} SafeDivisionsAreNotBad(p: Prims, e: Expr, v: Valuer)
    requires SafeDivisions(p, e, v)
    ensures !HasBadDivision(p, e, v)
    decreases e
  {
    match e
    case Binary(op, l, r) =>
      SafeDivisionsAreNotBad(p, l, v);
      SafeDivisionsAreNotBad(p, r, v);
      var l', r' := ReduceNode(p, l, v), ReduceNode(p, r, v);
      if op.DIV? && l'.Some? && l'.value.DurLit? && r'.Some? && IsBadDivisor(p, r'.value) {
        ReducedKind(p, Duration, l, v);
        ReducedKind(p, Float, r, v);
      }
    case Call(_, args) =>
      forall i | 0 <= i < |args| ensures !HasBadDivision(p, args[i], v) {
        SafeDivisionsAreNotBad(p, args[i], v);
      }
    case Paren(x) => SafeDivisionsAreNotBad(p, x, v);
    case _ =>
  }

  /** What a caller can see in the expression and the valuer: only a nil literal or a division of what
      can be a duration by what can be a float can make `Reduce` panic. */
  lemma ReduceTotal(p: Prims, e: Expr, v: Valuer)
    requires !HasNilLit(e) && SafeDivisions(p, e, v)
    ensures Reduce(p, e, v).Some?
  {
    SafeDivisionsAreNotBad(p, e, v);
    ReducePanicsExactly(p, e, v);
  }
}
