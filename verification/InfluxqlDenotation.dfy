/** What an InfluxQL expression stands for, times and durations included, described operator by operator and
    apart from folding. Reducing with some variables known and asking for the value with more of them known
    gives the value of the expression itself; and a literal comes out exactly if the value is determined. */
module InfluxqlDenotation {
  import opened Arithmetic
  import opened Common
  import opened InfluxqlAst
  import opened InfluxqlReduce

  /** Spans and instants are nanoseconds; `Nothing` is a value without a literal form. */
  datatype Datum =
    | Truth(b: bool) | Span(d: Int64) | Count(i: Int64) | Real(f: Float) | Text(s: string) | Instant(t: int) | Nothing

  /** What is known: some variables, and what calls give for given arguments. */
  datatype World = World(vars: Valuer, calls: (string, seq<Option<Datum>>) -> Option<Datum>)

  // ---------------------------------------------------------------------------------------
  // Machine arithmetic
  // ---------------------------------------------------------------------------------------

  /** Wrapping leaves the number that fits 64 bits and differs by a multiple of 2^64. */
  lemma WrapsExactly(x: int, r: Int64)
    ensures r == Wrap64(x) <==> (x - r) % TWO_64 == 0
  {
    var k := (x + TWO_63) / TWO_64;
    assert x == Wrap64(x) + k * TWO_64;
    if (x - r) % TWO_64 == 0 {
      var j := (x - r) / TWO_64;
      assert x - r == j * TWO_64;
      DivMod(x + TWO_63, TWO_64, j, r + TWO_63);
    } else {
      assert (k * TWO_64) % TWO_64 == 0;
    }
  }

  /** Division truncates: the remainder is smaller than the divisor and has the sign of the dividend. */
  lemma TruncatesExactly(x: int, y: int)
    requires y != 0
    ensures var r := x - TruncDiv(x, y) * y;
            && (x >= 0 ==> 0 <= r) && (x <= 0 ==> r <= 0)
            && (y > 0 ==> -y < r < y) && (y < 0 ==> y < r < -y)
  {
    var n := if x >= 0 then x else -x;
    assert n == n / y * y + n % y;
  }

  /** A difference of instants outside the range of durations is the nearest duration. */
  lemma SaturatesExactly(x: int, r: Int64)
    ensures r == Saturate64(x) <==>
            if -TWO_63 <= x < TWO_63 then r == x else if x < 0 then r == -TWO_63 else r == TWO_63 - 1
  {
  }

  /** The least duration is its own opposite. */
  function Opposite(d: Int64): Int64 { if d == -TWO_63 then d else -d }

  // ---------------------------------------------------------------------------------------
  // Operators
  // ---------------------------------------------------------------------------------------

  predicate IsNumber(x: Datum) { x.Count? || x.Real? }

  function AsReal(p: Prims, x: Datum): Float
    requires IsNumber(x)
  {
    if x.Count? then p.ofInt(x.i) else x.f
  }

  /** A factor or divisor of a duration. */
  function Whole(p: Prims, x: Datum): Int64
    requires IsNumber(x)
  {
    if x.Count? then x.i else p.toInt(x.f)
  }

  predicate IsZero(p: Prims, x: Datum)
    requires IsNumber(x)
  {
    if x.Count? then x.i == 0 else p.eq(x.f, p.zero)
  }

  /** An instant, or an integer read as one. */
  predicate IsTime(x: Datum) { x.Instant? || x.Count? }

  function Nanoseconds(x: Datum): int
    requires IsTime(x)
  {
    if x.Instant? then x.t else x.i
  }

  function Sum(p: Prims, x: Datum, y: Datum): Option<Datum> {
    if x.Count? && y.Count? then Some(Count(Wrap64(x.i + y.i)))
    else if IsNumber(x) && IsNumber(y) then Some(Real(p.add(AsReal(p, x), AsReal(p, y))))
    else if x.Text? && y.Text? then Some(Text(x.s + y.s))
    else if x.Span? && y.Span? then Some(Span(Wrap64(x.d + y.d)))
    else if IsTime(x) && y.Span? then Some(Instant(Nanoseconds(x) + y.d))
    else if x.Span? && y.Instant? then Some(Instant(y.t + x.d))
    else None
  }

  function Difference(p: Prims, x: Datum, y: Datum): Option<Datum> {
    if x.Count? && y.Count? then Some(Count(Wrap64(x.i - y.i)))
    else if IsNumber(x) && IsNumber(y) then Some(Real(p.sub(AsReal(p, x), AsReal(p, y))))
    else if x.Span? && y.Span? then Some(Span(Wrap64(x.d - y.d)))
    else if IsTime(x) && y.Span? then Some(Instant(Nanoseconds(x) + Opposite(y.d)))
    else if x.Instant? && y.Instant? then Some(Span(Saturate64(x.t - y.t)))
    else None
  }

  function Product(p: Prims, x: Datum, y: Datum): Option<Datum> {
    if x.Count? && y.Count? then Some(Count(Wrap64(x.i * y.i)))
    else if IsNumber(x) && IsNumber(y) then Some(Real(p.mul(AsReal(p, x), AsReal(p, y))))
    else if x.Span? && IsNumber(y) then Some(Span(Wrap64(x.d * Whole(p, y))))
    else None
  }

  /** Integers divide as floats. Over zero everything is zero. A duration over a number that is zero once
      whole has no value. */
  function Ratio(p: Prims, x: Datum, y: Datum): Option<Datum> {
    if IsNumber(x) && IsNumber(y) then
      var noDivisor := if x.Count? && y.Count? then y.i == 0 else p.eq(AsReal(p, y), p.zero);
      Some(Real(if noDivisor then p.zero else p.div(AsReal(p, x), AsReal(p, y))))
    else if x.Span? && IsNumber(y) then
      if IsZero(p, y) then Some(Span(0))
      else if Whole(p, y) == 0 then None
      else Some(Span(Wrap64(TruncDiv(x.d, Whole(p, y)))))
    else None
  }

  function Same(p: Prims, x: Datum, y: Datum): Option<bool> {
    if x.Count? && y.Count? then Some(x.i == y.i)
    else if IsNumber(x) && IsNumber(y) then Some(p.eq(AsReal(p, x), AsReal(p, y)))
    else if x.Truth? && y.Truth? then Some(x.b == y.b)
    else if x.Text? && y.Text? then Some(x.s == y.s)
    else if x.Span? && y.Span? then Some(x.d == y.d)
    else if x.Instant? && y.Instant? then Some(x.t == y.t)
    else None
  }

  /** `x` is before `y`, or with `orSame` not after it. */
  function InOrder(p: Prims, x: Datum, y: Datum, orSame: bool): Option<bool> {
    if x.Count? && y.Count? then Some(x.i < y.i || (orSame && x.i == y.i))
    else if IsNumber(x) && IsNumber(y) then
      Some(if orSame then p.le(AsReal(p, x), AsReal(p, y)) else p.lt(AsReal(p, x), AsReal(p, y)))
    else if x.Span? && y.Span? then Some(x.d < y.d || (orSame && x.d == y.d))
    else if x.Instant? && y.Instant? then Some(x.t < y.t || (orSame && x.t == y.t))
    else None
  }

  function AsTruth(b: Option<bool>): Option<Datum> {
    if b.None? then None else Some(Truth(b.value))
  }

  function Not(b: Option<bool>): Option<bool> {
    if b.None? then None else Some(!b.value)
  }

  function Compute(p: Prims, op: Op, x: Datum, y: Datum): Option<Datum> {
    match op
    case ADD => Sum(p, x, y)
    case SUB => Difference(p, x, y)
    case MUL => Product(p, x, y)
    case DIV => Ratio(p, x, y)
    case EQ => AsTruth(Same(p, x, y))
    case NEQ => AsTruth(Not(Same(p, x, y)))
    case LT => AsTruth(InOrder(p, x, y, false))
    case LTE => AsTruth(InOrder(p, x, y, true))
    case GT => AsTruth(InOrder(p, y, x, false))
    case GTE => AsTruth(InOrder(p, y, x, true))
    case _ => None
  }

  /** A node by the values of its operands, as far as they have one: a truth value may decide AND and OR or
      leave the other operand, and nothing is equal or unequal to `Nothing`. */
  function Combine(p: Prims, op: Op, x: Option<Datum>, y: Option<Datum>): Option<Datum> {
    if op.AND? && (x == Some(Truth(false)) || y == Some(Truth(false))) then Some(Truth(false))
    else if op.OR? && (x == Some(Truth(true)) || y == Some(Truth(true))) then Some(Truth(true))
    else if IsLogical(op) && x.Some? && x.value.Truth? then y
    else if IsLogical(op) && y.Some? && y.value.Truth? then x
    else if x == Some(Nothing) then (if IsEquality(op) then Some(Truth(false)) else None)
    else if x.None? || y.None? then None
    else if y == Some(Nothing) then (if x.value.Text? && !IsEquality(op) then None else Some(Truth(false)))
    else Compute(p, op, x.value, y.value)
  }

  // ---------------------------------------------------------------------------------------
  // Expressions
  // ---------------------------------------------------------------------------------------

  function ValueOf(k: Known): Datum {
    match k
    case KBool(b) => Truth(b)
    case KDur(d) => Span(d)
    case KNum(f) => Real(f)
    case KStr(s) => Text(s)
    case KTime(t) => Instant(t)
    case KOther(_) => Nothing
  }

  /** The call `now()` reads a value of another type than a time as the zero time. */
  function Now(k: Known): Datum {
    Instant(if k.KTime? then k.t else ZERO_TIME)
  }

  function Denote(p: Prims, e: Expr, w: World): Option<Datum>
    decreases e, 1
  {
    match e
    case BoolLit(b) => Some(Truth(b))
    case DurLit(d) => Some(Span(d))
    case IntLit(i) => Some(Count(i))
    case NumLit(f) => Some(Real(f))
    case StrLit(s) => Some(Text(s))
    case TimeLit(t) => Some(Instant(t))
    case NilLit => Some(Nothing)
    case VarRef(n, _) => if w.vars(n).None? then None else Some(ValueOf(w.vars(n).value))
    case Paren(x) => Denote(p, x, w)
    case Binary(op, l, r) => Combine(p, op, Denote(p, l, w), Denote(p, r, w))
    case Call(fn, args) =>
      if fn == "now" && args == [] && w.vars("now()").Some? then Some(Now(w.vars("now()").value))
      else w.calls(fn, DenoteAll(p, args, w))
    case _ => None
  }

  function DenoteAll(p: Prims, es: seq<Expr>, w: World): seq<Option<Datum>>
    decreases es, 0
  {
    if es == [] then [] else [Denote(p, es[0], w)] + DenoteAll(p, es[1..], w)
  }

  // ---------------------------------------------------------------------------------------
  // Folding keeps the value
  // ---------------------------------------------------------------------------------------

  predicate FoldDenotes(p: Prims, op: Op, l: Expr, r: Expr, w: World)
    requires FoldNode(p, op, l, r).Some?
  {
    Denote(p, FoldNode(p, op, l, r).value, w) == Combine(p, op, Denote(p, l, w), Denote(p, r, w))
  }

  lemma LogicalDenotes(p: Prims, op: Op, l: Expr, r: Expr, w: World)
    requires IsLogical(op) && (l.BoolLit? || r.BoolLit?)
    ensures FoldNode(p, op, l, r).Some? && FoldDenotes(p, op, l, r, w)
  {
  }

  lemma BoolDenotes(p: Prims, op: Op, b: bool, r: Expr, w: World)
    requires !IsLogical(op) && !r.Missing?
    ensures FoldNode(p, op, BoolLit(b), r).Some? && FoldDenotes(p, op, BoolLit(b), r, w)
  {
  }

  lemma StrDenotes(p: Prims, op: Op, s: string, r: Expr, w: World)
    requires !(IsLogical(op) && r.BoolLit?) && !r.Missing?
    ensures FoldNode(p, op, StrLit(s), r).Some? && FoldDenotes(p, op, StrLit(s), r, w)
  {
  }

  lemma NilDenotes(p: Prims, op: Op, r: Expr, w: World)
    requires !(IsLogical(op) && r.BoolLit?) && !r.Missing?
    ensures FoldNode(p, op, NilLit, r).Some? && FoldDenotes(p, op, NilLit, r, w)
  {
  }

  lemma DurDenotes(p: Prims, op: Op, d: Int64, r: Expr, w: World)
    requires !(IsLogical(op) && r.BoolLit?) && !r.Missing? && FoldNode(p, op, DurLit(d), r).Some?
    ensures FoldDenotes(p, op, DurLit(d), r, w)
  {
  }

  lemma TimeDenotes(p: Prims, op: Op, t: int, r: Expr, w: World)
    requires !(IsLogical(op) && r.BoolLit?) && !r.Missing?
    ensures FoldNode(p, op, TimeLit(t), r).Some? && FoldDenotes(p, op, TimeLit(t), r, w)
  {
  }

  lemma FloatsDenote(p: Prims, op: Op, f: Float, g: Float, stuck: Expr, w: World)
    requires Denote(p, stuck, w) == Compute(p, op, Real(f), Real(g))
    ensures Denote(p, FoldFloats(p, op, f, g, stuck), w) == Compute(p, op, Real(f), Real(g))
  {
  }

  lemma NumNumDenotes(p: Prims, op: Op, f: Float, g: Float, w: World)
    ensures FoldNode(p, op, NumLit(f), NumLit(g)).Some? && FoldDenotes(p, op, NumLit(f), NumLit(g), w)
  {
    FloatsDenote(p, op, f, g, Binary(op, NumLit(f), NumLit(g)), w);
  }

  lemma PromotedCompute(p: Prims, op: Op, x: Datum, y: Datum)
    requires IsNumber(x) && IsNumber(y) && (x.Real? || y.Real?)
    ensures Compute(p, op, x, y) == Compute(p, op, Real(AsReal(p, x)), Real(AsReal(p, y)))
  {
  }

  lemma NumIntDenotes(p: Prims, op: Op, f: Float, j: Int64, w: World)
    ensures FoldNode(p, op, NumLit(f), IntLit(j)).Some? && FoldDenotes(p, op, NumLit(f), IntLit(j), w)
  {
    PromotedCompute(p, op, Real(f), Count(j));
    FloatsDenote(p, op, f, p.ofInt(j), Binary(op, NumLit(f), IntLit(j)), w);
  }

  lemma IntNumDenotes(p: Prims, op: Op, i: Int64, g: Float, w: World)
    ensures FoldNode(p, op, IntLit(i), NumLit(g)).Some? && FoldDenotes(p, op, IntLit(i), NumLit(g), w)
  {
    PromotedCompute(p, op, Count(i), Real(g));
    FloatsDenote(p, op, p.ofInt(i), g, Binary(op, NumLit(p.ofInt(i)), NumLit(g)), w);
  }

  lemma IntIntDenotes(p: Prims, op: Op, i: Int64, j: Int64, w: World)
    ensures FoldNode(p, op, IntLit(i), IntLit(j)).Some? && FoldDenotes(p, op, IntLit(i), IntLit(j), w)
  {
  }

  lemma NumOtherDenotes(p: Prims, op: Op, f: Float, r: Expr, w: World)
    requires !(IsLogical(op) && r.BoolLit?) && !r.Missing? && !r.NumLit? && !r.IntLit?
    ensures FoldNode(p, op, NumLit(f), r).Some? && FoldDenotes(p, op, NumLit(f), r, w)
  {
  }

  lemma IntOtherDenotes(p: Prims, op: Op, i: Int64, r: Expr, w: World)
    requires !(IsLogical(op) && r.BoolLit?) && !r.Missing? && !r.NumLit? && !r.IntLit?
    ensures FoldNode(p, op, IntLit(i), r).Some? && FoldDenotes(p, op, IntLit(i), r, w)
  {
  }

  lemma NumDenotes(p: Prims, op: Op, f: Float, r: Expr, w: World)
    requires !(IsLogical(op) && r.BoolLit?) && !r.Missing?
    ensures FoldNode(p, op, NumLit(f), r).Some? && FoldDenotes(p, op, NumLit(f), r, w)
  {
    match r
    case NumLit(g) => NumNumDenotes(p, op, f, g, w);
    case IntLit(j) => NumIntDenotes(p, op, f, j, w);
    case _ => NumOtherDenotes(p, op, f, r, w);
  }

  lemma IntDenotes(p: Prims, op: Op, i: Int64, r: Expr, w: World)
    requires !(IsLogical(op) && r.BoolLit?) && !r.Missing?
    ensures FoldNode(p, op, IntLit(i), r).Some? && FoldDenotes(p, op, IntLit(i), r, w)
  {
    match r
    case NumLit(g) => IntNumDenotes(p, op, i, g, w);
    case IntLit(j) => IntIntDenotes(p, op, i, j, w);
    case _ => IntOtherDenotes(p, op, i, r, w);
  }

  /** An operand without a literal form is not folded. */
  lemma OpenDenotes(p: Prims, op: Op, l: Expr, r: Expr, w: World)
    requires !IsLiteral(l) && !l.Missing? && !r.Missing? && !(IsLogical(op) && r.BoolLit?)
    ensures FoldNode(p, op, l, r).Some? && FoldDenotes(p, op, l, r, w)
  {
  }

  lemma FoldKeepsDenotation(p: Prims, op: Op, l: Expr, r: Expr, w: World)
    requires FoldNode(p, op, l, r).Some?
    ensures FoldDenotes(p, op, l, r, w)
  {
    if l.Missing? || r.Missing? {
    } else if IsLogical(op) && (l.BoolLit? || r.BoolLit?) {
      LogicalDenotes(p, op, l, r, w);
    } else {
      match l
      case BoolLit(b) => BoolDenotes(p, op, b, r, w);
      case DurLit(d) => DurDenotes(p, op, d, r, w);
      case IntLit(i) => IntDenotes(p, op, i, r, w);
      case NumLit(f) => NumDenotes(p, op, f, r, w);
      case StrLit(s) => StrDenotes(p, op, s, r, w);
      case TimeLit(t) => TimeDenotes(p, op, t, r, w);
      case NilLit => NilDenotes(p, op, r, w);
      case _ => OpenDenotes(p, op, l, r, w);
    }
  }

  /** The world knows all that the valuer knows, and agrees with it. */
  ghost predicate Extends(w: World, v: Valuer) {
    forall n: string :: v(n).Some? ==> w.vars(n) == v(n)
  }

  /** The main theorem: reducing with a part of what is known changes no value. */
  lemma {:induction false} ReduceNodeKeepsDenotation(p: Prims, e: Expr, v: Valuer, w: World)
    requires Extends(w, v) && ReduceNode(p, e, v).Some?
    ensures Denote(p, ReduceNode(p, e, v).value, w) == Denote(p, e, w)
    decreases e, 1
  {
    match e
    case Binary(op, l, r) =>
      ReduceNodeKeepsDenotation(p, l, v, w);
      ReduceNodeKeepsDenotation(p, r, v, w);
      FoldKeepsDenotation(p, op, ReduceNode(p, l, v).value, ReduceNode(p, r, v).value, w);
    case Call(_, args) =>
      if !IsNowCall(v, e) {
        ReduceArgsKeepDenotation(p, args, v, w);
      }
    case Paren(x) => ReduceNodeKeepsDenotation(p, x, v, w);
    case _ =>
  }

  lemma {:induction false} ReduceArgsKeepDenotation(p: Prims, args: seq<Expr>, v: Valuer, w: World)
    requires Extends(w, v) && ReduceArgs(p, args, v).Some?
    ensures DenoteAll(p, ReduceArgs(p, args, v).value, w) == DenoteAll(p, args, w)
    decreases args, 0
  {
    if args != [] {
      ReduceNodeKeepsDenotation(p, args[0], v, w);
      ReduceArgsKeepDenotation(p, args[1..], v, w);
      assert ReduceArgs(p, args, v).value[1..] == ReduceArgs(p, args[1..], v).value;
    }
  }

  lemma ReduceKeepsDenotation(p: Prims, e: Expr, v: Valuer, w: World)
    requires Extends(w, v) && Reduce(p, e, v).Some?
    ensures Denote(p, Reduce(p, e, v).value, w) == Denote(p, e, w)
  {
    ReduceNodeKeepsDenotation(p, e, v, w);
  }

  // ---------------------------------------------------------------------------------------
  // A literal comes out exactly if the value is determined
  // ---------------------------------------------------------------------------------------

  /** What the valuer alone tells. */
  function Knowing(v: Valuer): World { World(v, (_: string, _: seq<Option<Datum>>) => None) }

  predicate HasMissing(e: Expr) {
    match e
    case Missing => true
    case Binary(_, l, r) => HasMissing(l) || HasMissing(r)
    case Paren(x) => HasMissing(x)
    case _ => false
  }

  lemma {:induction false} ReduceMakesNoMissing(p: Prims, e: Expr, v: Valuer)
    requires !HasMissing(e) && ReduceNode(p, e, v).Some?
    ensures !HasMissing(ReduceNode(p, e, v).value)
  {
    match e
    case Binary(op, l, r) =>
      ReduceMakesNoMissing(p, l, v);
      ReduceMakesNoMissing(p, r, v);
      FoldShape(p, op, ReduceNode(p, l, v).value, ReduceNode(p, r, v).value);
    case Paren(x) => ReduceMakesNoMissing(p, x, v);
    case _ =>
  }

  /** What does not fold has no value. */
  lemma UnfoldableHasNoValue(p: Prims, op: Op, l: Expr, r: Expr, w: World)
    requires IsLiteral(l) && IsLiteral(r) && Irreducible(op, l, r)
    ensures Combine(p, op, Denote(p, l, w), Denote(p, r, w)).None?
  {
    var x, y := Denote(p, l, w).value, Denote(p, r, w).value;
    if !l.NilLit? && !r.NilLit? {
      UnfoldableComputesNothing(p, op, l, r, x, y);
    }
  }

  lemma UnfoldableComputesNothing(p: Prims, op: Op, l: Expr, r: Expr, x: Datum, y: Datum)
    requires IsFolded(l) && IsFolded(r) && !Foldable(op, l, r)
    requires (l.BoolLit? <==> x.Truth?) && (l.DurLit? <==> x.Span?) && (l.IntLit? <==> x.Count?)
    requires (l.NumLit? <==> x.Real?) && (l.StrLit? <==> x.Text?) && (l.TimeLit? <==> x.Instant?)
    requires (r.BoolLit? <==> y.Truth?) && (r.DurLit? <==> y.Span?) && (r.IntLit? <==> y.Count?)
    requires (r.NumLit? <==> y.Real?) && (r.StrLit? <==> y.Text?) && (r.TimeLit? <==> y.Instant?)
    ensures Compute(p, op, x, y).None?
  {
  }

  lemma OpenHasNoValue(p: Prims, op: Op, l: Expr, r: Expr, w: World)
    requires !l.Missing? && !r.Missing? && Irreducible(op, l, r)
    requires Denote(p, l, w).Some? <==> IsLiteral(l)
    requires Denote(p, r, w).Some? <==> IsLiteral(r)
    requires !IsLiteral(l) || !IsLiteral(r)
    ensures Combine(p, op, Denote(p, l, w), Denote(p, r, w)).None?
  {
  }

  lemma {:induction false} NormalIsDetermined(p: Prims, e: Expr, v: Valuer)
    requires Normal(e, v) && !HasMissing(e)
    ensures Denote(p, e, Knowing(v)).Some? <==> IsLiteral(e)
  {
    match e
    case Binary(op, l, r) =>
      NormalIsDetermined(p, l, v);
      NormalIsDetermined(p, r, v);
      if IsLiteral(l) && IsLiteral(r) {
        UnfoldableHasNoValue(p, op, l, r, Knowing(v));
      } else {
        OpenHasNoValue(p, op, l, r, Knowing(v));
      }
    case Paren(x) => NormalIsDetermined(p, x, v);
    case _ =>
  }

  /** `Reduce` gives a literal if and only if the valuer determines the value, and then it is that value's. */
  lemma LiteralExactly(p: Prims, e: Expr, v: Valuer)
    requires !HasMissing(e) && Reduce(p, e, v).Some?
    ensures IsLiteral(Reduce(p, e, v).value) <==> Denote(p, e, Knowing(v)).Some?
    ensures Denote(p, Reduce(p, e, v).value, Knowing(v)) == Denote(p, e, Knowing(v))
  {
    ReduceMakesNoMissing(p, e, v);
    ReduceIdempotent(p, e, v);
    NormalIsDetermined(p, Reduce(p, e, v).value, v);
    ReduceKeepsDenotation(p, e, v, Knowing(v));
  }

  /** `now() - 1h` is an hour ago. */
  lemma AnHourAgo(p: Prims, now: int)
    ensures var e := Binary(SUB, Call("now", []), DurLit(3_600_000_000_000));
            Reduce(p, e, NowValuer(now)) == Some(TimeLit(now - 3_600_000_000_000))
  {
    var call, hour := Call("now", []), DurLit(3_600_000_000_000);
    assert ReduceNode(p, call, NowValuer(now)) == Some(TimeLit(now));
    assert ReduceNode(p, hour, NowValuer(now)) == Some(hour);
  }
}
