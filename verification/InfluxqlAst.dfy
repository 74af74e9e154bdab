/** InfluxQL expressions: syntax, evaluation (`Eval`) and constant folding (`Reduce`).

    float64 arithmetic and regular-expression matching are parameters (`Prims`), so everything
    proved here holds for IEEE arithmetic, NaN and rounding included. */
module InfluxqlAst {
  import opened Common

  /** A float64 value; nothing is assumed about it. */
  type Float(==)

  /** The machine operations the expression engine relies on. `toInt` is Go's conversion
      from float64 to int64; `match_` tells whether a pattern matches a text. */
  datatype Prims = Prims(
    zero: Float,
    ofInt: Int64 -> Float,
    toInt: Float -> Int64,
    add: (Float, Float) -> Float,
    sub: (Float, Float) -> Float,
    mul: (Float, Float) -> Float,
    div: (Float, Float) -> Float,
    eq: (Float, Float) -> bool,
    lt: (Float, Float) -> bool,
    le: (Float, Float) -> bool,
    match_: (string, string) -> bool)

  datatype Op =
    | AND | OR
    | EQ | NEQ | LT | LTE | GT | GTE
    | ADD | SUB | MUL | DIV
    | EQREGEX | NEQREGEX

  predicate IsLogical(op: Op) { op.AND? || op.OR? }
  predicate IsEquality(op: Op) { op.EQ? || op.NEQ? }
  predicate IsComparison(op: Op) { op.EQ? || op.NEQ? || op.LT? || op.LTE? || op.GT? || op.GTE? }
  predicate IsArithmetic(op: Op) { op.ADD? || op.SUB? || op.MUL? || op.DIV? }

  datatype WildcardKind = AnyKind | FieldKind | TagKind

  /** `Missing` is Go's nil expression. `NilLit` never comes from the parser: folding creates it
      for a variable whose bound value has no literal form. Times are nanoseconds since the epoch. */
  datatype Expr =
    | Missing
    | Binary(op: Op, lhs: Expr, rhs: Expr)
    | BoolLit(b: bool)
    | DurLit(d: Int64)
    | IntLit(i: Int64)
    | NumLit(f: Float)
    | StrLit(s: string)
    | TimeLit(t: int)
    | RegexLit(pattern: string)
    | NilLit
    | VarRef(name: string, typ: int)
    | Call(fn: string, args: seq<Expr>)
    | Paren(inner: Expr)
    | Distinct(field: string)
    | Wildcard(kind: WildcardKind)

  // ---------------------------------------------------------------------------------------
  // Evaluation
  // ---------------------------------------------------------------------------------------

  /** Go values an evaluation can meet; `Other` is any type the evaluator does not know. */
  datatype Value =
    | Nil
    | Bool(b: bool)
    | Flt(f: Float)
    | Int(i: Int64)
    | Str(s: string)
    | Regex(pattern: string)
    | Other(id: int)

  type Env = string -> Value

  function Eval(p: Prims, e: Expr, m: Env): Value {
    match e
    case Binary(op, l, r) => EvalBinary(p, op, Eval(p, l, m), Eval(p, r, m))
    case BoolLit(b) => Bool(b)
    case IntLit(i) => Int(i)
    case NumLit(f) => Flt(f)
    case Paren(x) => Eval(p, x, m)
    case RegexLit(r) => Regex(r)
    case StrLit(s) => Str(s)
    case VarRef(n, _) => m(n)
    case Missing | DurLit(_) | TimeLit(_) | NilLit | Call(_, _) | Distinct(_) | Wildcard(_) => Nil
  }

  function EvalBinary(p: Prims, op: Op, l: Value, r: Value): Value {
    match l
    case Bool(b) => EvalBool(op, b, r)
    case Flt(f) =>
      (match r
       case Flt(g) => EvalFloat(p, op, f, g)
       case Int(j) => EvalFloat(p, op, f, p.ofInt(j))
       case _ => EvalMismatch(op))
    case Int(i) =>
      (match r
       case Flt(g) => EvalFloat(p, op, p.ofInt(i), g)
       case Int(j) => EvalInt(p, op, i, j)
       case _ => EvalMismatch(op))
    case Str(s) => EvalStr(p, op, s, r)
    case Nil | Regex(_) | Other(_) => Nil
  }

  function EvalBool(op: Op, b: bool, r: Value): Value {
    match op
    case AND => Bool(r.Bool? && b && r.b)
    case OR => Bool(r.Bool? && (b || r.b))
    case EQ => Bool(r.Bool? && b == r.b)
    case NEQ => Bool(r.Bool? && b != r.b)
    case _ => Nil
  }

  /** A number against a non-number: comparisons are false, everything else is nil. */
  function EvalMismatch(op: Op): Value {
    if IsComparison(op) then Bool(false) else Nil
  }

  function EvalFloat(p: Prims, op: Op, f: Float, g: Float): Value {
    match op
    case EQ => Bool(p.eq(f, g))
    case NEQ => Bool(!p.eq(f, g))
    case LT => Bool(p.lt(f, g))
    case LTE => Bool(p.le(f, g))
    case GT => Bool(p.lt(g, f))
    case GTE => Bool(p.le(g, f))
    case ADD => Flt(p.add(f, g))
    case SUB => Flt(p.sub(f, g))
    case MUL => Flt(p.mul(f, g))
    case DIV => if p.eq(g, p.zero) then Flt(p.zero) else Flt(p.div(f, g))
    case _ => Nil
  }

  function EvalInt(p: Prims, op: Op, i: Int64, j: Int64): Value {
    match op
    case EQ => Bool(i == j)
    case NEQ => Bool(i != j)
    case LT => Bool(i < j)
    case LTE => Bool(i <= j)
    case GT => Bool(i > j)
    case GTE => Bool(i >= j)
    case ADD => Int(Wrap64(i + j))
    case SUB => Int(Wrap64(i - j))
    case MUL => Int(Wrap64(i * j))
    case DIV => if j == 0 then Flt(p.zero) else Int(Wrap64(TruncDiv(i, j)))
    case _ => Nil
  }

  function EvalStr(p: Prims, op: Op, s: string, r: Value): Value {
    match op
    case EQ => Bool(r.Str? && s == r.s)
    case NEQ => Bool(r.Str? && s != r.s)
    case EQREGEX => Bool(r.Regex? && p.match_(r.pattern, s))
    case NEQREGEX => Bool(r.Regex? && !p.match_(r.pattern, s))
    case _ => Nil
  }

  // ---------------------------------------------------------------------------------------
  // Folding
  // ---------------------------------------------------------------------------------------

  /** What a valuer can return for a name. */
  datatype Known =
    | KBool(b: bool) | KDur(d: Int64) | KNum(f: Float) | KStr(s: string) | KTime(t: int) | KOther(id: int)

  /** `None` for a name the valuer does not know; the nil valuer knows nothing. */
  type Valuer = string -> Option<Known>

  const NOTHING: Valuer := (_: string) => None

  function NowValuer(now: int): Valuer {
    (key: string) => if key == "now()" then Some(KTime(now)) else None
  }

  /** The zero `time.Time`, January 1 of year 1, on the nanosecond scale. */
  const ZERO_TIME: int := -62135596800000000000

  /** `time.Time.Sub` saturates at the ends of the duration range. */
  function Saturate64(x: int): Int64 {
    if x < -TWO_63 then -TWO_63 else if x >= TWO_63 then TWO_63 - 1 else x
  }

  function Negate64(d: int): Int64 { Wrap64(-d) }

  function FoldBoolLhs(op: Op, b: bool, r: Expr): Expr {
    match r
    case BoolLit(c) =>
      (match op
       case EQ => BoolLit(b == c)
       case NEQ => BoolLit(b != c)
       case AND => BoolLit(b && c)
       case OR => BoolLit(b || c)
       case _ => Binary(op, BoolLit(b), r))
    case NilLit => BoolLit(false)
    case _ => Binary(op, BoolLit(b), r)
  }

  /** Dividing a duration by a float converts the float to an integer after the zero test, so
      a divisor strictly between -1 and 1 divides by integer zero: the Go program panics. */
  function FoldDurLhs(p: Prims, op: Op, d: Int64, r: Expr): Option<Expr> {
    match r
    case DurLit(e) =>
      Some(match op
           case ADD => DurLit(Wrap64(d + e))
           case SUB => DurLit(Wrap64(d - e))
           case EQ => BoolLit(d == e)
           case NEQ => BoolLit(d != e)
           case GT => BoolLit(d > e)
           case GTE => BoolLit(d >= e)
           case LT => BoolLit(d < e)
           case LTE => BoolLit(d <= e)
           case _ => Binary(op, DurLit(d), r))
    case NumLit(f) =>
      (match op
       case MUL => Some(DurLit(Wrap64(d * p.toInt(f))))
       case DIV =>
         if p.eq(f, p.zero) then Some(DurLit(0))
         else if p.toInt(f) == 0 then None
         else Some(DurLit(Wrap64(TruncDiv(d, p.toInt(f)))))
       case _ => Some(Binary(op, DurLit(d), r)))
    case IntLit(i) =>
      Some(match op
           case MUL => DurLit(Wrap64(d * i))
           case DIV => if i == 0 then DurLit(0) else DurLit(Wrap64(TruncDiv(d, i)))
           case _ => Binary(op, DurLit(d), r))
    case TimeLit(t) => Some(if op.ADD? then TimeLit(t + d) else Binary(op, DurLit(d), r))
    case NilLit => Some(BoolLit(false))
    case _ => Some(Binary(op, DurLit(d), r))
  }

  function FoldFloats(p: Prims, op: Op, f: Float, g: Float, stuck: Expr): Expr {
    match op
    case ADD => NumLit(p.add(f, g))
    case SUB => NumLit(p.sub(f, g))
    case MUL => NumLit(p.mul(f, g))
    case DIV => if p.eq(g, p.zero) then NumLit(p.zero) else NumLit(p.div(f, g))
    case EQ => BoolLit(p.eq(f, g))
    case NEQ => BoolLit(!p.eq(f, g))
    case GT => BoolLit(p.lt(g, f))
    case GTE => BoolLit(p.le(g, f))
    case LT => BoolLit(p.lt(f, g))
    case LTE => BoolLit(p.le(f, g))
    case _ => stuck
  }

  function FoldNumLhs(p: Prims, op: Op, f: Float, r: Expr): Expr {
    match r
    case NumLit(g) => FoldFloats(p, op, f, g, Binary(op, NumLit(f), r))
    case IntLit(j) => FoldFloats(p, op, f, p.ofInt(j), Binary(op, NumLit(f), r))
    case NilLit => BoolLit(false)
    case _ => Binary(op, NumLit(f), r)
  }

  function FoldIntLhs(p: Prims, op: Op, i: Int64, r: Expr): Expr {
    match r
    case NumLit(_) => FoldNumLhs(p, op, p.ofInt(i), r)
    case IntLit(j) =>
      (match op
       case ADD => IntLit(Wrap64(i + j))
       case SUB => IntLit(Wrap64(i - j))
       case MUL => IntLit(Wrap64(i * j))
       case DIV => if j == 0 then NumLit(p.zero) else NumLit(p.div(p.ofInt(i), p.ofInt(j)))
       case EQ => BoolLit(i == j)
       case NEQ => BoolLit(i != j)
       case GT => BoolLit(i > j)
       case GTE => BoolLit(i >= j)
       case LT => BoolLit(i < j)
       case LTE => BoolLit(i <= j)
       case _ => Binary(op, IntLit(i), r))
    case DurLit(d) =>
      // The integer is read as a timestamp; negating the duration wraps.
      (match op
       case ADD => TimeLit(i + d)
       case SUB => TimeLit(i + Negate64(d))
       case _ => Binary(op, IntLit(i), r))
    case NilLit => BoolLit(false)
    case _ => Binary(op, IntLit(i), r)
  }

  function FoldStrLhs(op: Op, s: string, r: Expr): Expr {
    match r
    case StrLit(u) =>
      (match op
       case EQ => BoolLit(s == u)
       case NEQ => BoolLit(s != u)
       case ADD => StrLit(s + u)
       case _ => Binary(op, StrLit(s), r))
    case NilLit => if IsEquality(op) then BoolLit(false) else Binary(op, StrLit(s), r)
    case _ => Binary(op, StrLit(s), r)
  }

  function FoldTimeLhs(op: Op, t: int, r: Expr): Expr {
    match r
    case DurLit(d) =>
      (match op
       case ADD => TimeLit(t + d)
       case SUB => TimeLit(t + Negate64(d))
       case _ => Binary(op, TimeLit(t), r))
    case TimeLit(u) =>
      (match op
       case SUB => DurLit(Saturate64(t - u))
       case EQ => BoolLit(t == u)
       case NEQ => BoolLit(t != u)
       case GT => BoolLit(t > u)
       case GTE => BoolLit(t >= u)
       case LT => BoolLit(t < u)
       case LTE => BoolLit(t <= u)
       case _ => Binary(op, TimeLit(t), r))
    case NilLit => BoolLit(false)
    case _ => Binary(op, TimeLit(t), r)
  }

  function FoldNilLhs(op: Op, r: Expr): Expr {
    if IsEquality(op) then BoolLit(false) else Binary(op, NilLit, r)
  }

  /** The tail of `reduceBinaryExpr`: both operands are already reduced. */
  function FoldLiterals(p: Prims, op: Op, l: Expr, r: Expr): Option<Expr> {
    match l
    case BoolLit(b) => Some(FoldBoolLhs(op, b, r))
    case DurLit(d) => FoldDurLhs(p, op, d, r)
    case IntLit(i) => Some(FoldIntLhs(p, op, i, r))
    case NilLit => Some(FoldNilLhs(op, r))
    case NumLit(f) => Some(FoldNumLhs(p, op, f, r))
    case StrLit(s) => Some(FoldStrLhs(op, s, r))
    case TimeLit(t) => Some(FoldTimeLhs(op, t, r))
    case _ => Some(Binary(op, l, r))
  }

  function FoldNode(p: Prims, op: Op, l: Expr, r: Expr): Option<Expr> {
    if l.Missing? || r.Missing? then Some(Binary(op, l, r))
    else if op.AND? && (l == BoolLit(false) || r == BoolLit(false)) then Some(BoolLit(false))
    else if op.AND? && l == BoolLit(true) then Some(r)
    else if op.AND? && r == BoolLit(true) then Some(l)
    else if op.OR? && (l == BoolLit(true) || r == BoolLit(true)) then Some(BoolLit(true))
    else if op.OR? && l == BoolLit(false) then Some(r)
    else if op.OR? && r == BoolLit(false) then Some(l)
    else FoldLiterals(p, op, l, r)
  }

  function FoldVarRef(v: Valuer, name: string, typ: int): Expr {
    match v(name)
    case None => VarRef(name, typ)
    case Some(KBool(b)) => BoolLit(b)
    case Some(KDur(d)) => DurLit(d)
    case Some(KNum(f)) => NumLit(f)
    case Some(KStr(s)) => StrLit(s)
    case Some(KTime(t)) => TimeLit(t)
    case Some(KOther(_)) => NilLit
  }

  /** A value of another type than `time.Time` reads as the zero time. */
  function NowLiteral(k: Known): Expr {
    TimeLit(if k.KTime? then k.t else ZERO_TIME)
  }

  predicate IsNowCall(v: Valuer, e: Expr) {
    e.Call? && e.fn == "now" && e.args == [] && v("now()").Some?
  }

  /** `reduce`; `None` is a panic. Copying a wildcard forgets its kind, and copying a
      nil literal panics. */
  function ReduceNode(p: Prims, e: Expr, v: Valuer): Option<Expr>
    decreases e, 1
  {
    match e
    case Binary(op, l, r) =>
      var l' :- ReduceNode(p, l, v);
      var r' :- ReduceNode(p, r, v);
      FoldNode(p, op, l', r')
    case Call(fn, args) =>
      if IsNowCall(v, e) then Some(NowLiteral(v("now()").value))
      else
        var args' :- ReduceArgs(p, args, v);
        Some(Call(fn, args'))
    case Paren(x) =>
      var x' :- ReduceNode(p, x, v);
      Some(if x'.Binary? then Paren(x') else x')
    case VarRef(n, typ) => Some(FoldVarRef(v, n, typ))
    case Wildcard(_) => Some(Wildcard(AnyKind))
    case NilLit => None
    case Missing | BoolLit(_) | DurLit(_) | IntLit(_) | NumLit(_)
       | StrLit(_) | TimeLit(_) | RegexLit(_) | Distinct(_) =>
      Some(e)
  }

  function ReduceArgs(p: Prims, args: seq<Expr>, v: Valuer): (r: Option<seq<Expr>>)
    ensures r.Some? ==> |r.value| == |args|
    decreases args, 0
  {
    if args == [] then Some([])
    else
      var a :- ReduceNode(p, args[0], v);
      var rest :- ReduceArgs(p, args[1..], v);
      Some([a] + rest)
  }

  function Unwrap(e: Expr): Expr {
    if e.Paren? then e.inner else e
  }

  function Reduce(p: Prims, e: Expr, v: Valuer): Option<Expr> {
    var r :- ReduceNode(p, e, v);
    Some(Unwrap(r))
  }
}
