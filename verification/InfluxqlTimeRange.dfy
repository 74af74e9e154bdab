/** `TimeRange`: the time bounds of a WHERE clause, collected by a walk over the expression. */
module InfluxqlTimeRange {
  import opened Common
  import opened InfluxqlAst
  import opened InfluxqlTimeCuts

  const MIN_TIME: int := 0
  const MAX_TIME: int := TWO_63 - 2

  /** How a string literal reads as a date. */
  datatype DateText = NotADate | Unparsable | Date(t: int)

  /** What the walk takes from elsewhere: whether a name lower-cases to "time", how a string
      reads as a date, and the conversion of a float64 to int64. */
  datatype TimePrims = TimePrims(isTime: string -> bool, date: string -> DateText, toInt: Float -> Int64)

  datatype TimeError = InvalidTime | Overflow | Underflow | Incompatible

  /** A Go result pair: the zero time with no error means "not a time comparison". */
  datatype Moment = Moment(t: int, err: Option<TimeError>)

  const NO_TIME: Moment := Moment(ZERO_TIME, None)

  function BoundedTime(t: int): Moment {
    if t > MAX_TIME then Moment(ZERO_TIME, Some(Overflow))
    else if t < MIN_TIME then Moment(ZERO_TIME, Some(Underflow))
    else Moment(t, None)
  }

  /** `timeExprValue`. */
  function TimeExprValue(q: TimePrims, ref: Expr, lit: Expr): (m: Moment)
    ensures m.err.Some? ==> m.t == ZERO_TIME
    ensures m.t == ZERO_TIME || -TWO_63 <= m.t < TWO_63
  {
    if !(ref.VarRef? && q.isTime(ref.name)) then NO_TIME
    else
      match lit
      case StrLit(s) =>
        (match q.date(s)
         case NotADate => Moment(ZERO_TIME, Some(Incompatible))
         case Unparsable => Moment(ZERO_TIME, Some(InvalidTime))
         case Date(t) => BoundedTime(t))
      case TimeLit(t) => BoundedTime(t)
      case DurLit(d) => Moment(d, None)
      case NumLit(f) => Moment(q.toInt(f), None)
      case IntLit(i) => Moment(i, None)
      case _ => Moment(ZERO_TIME, Some(Incompatible))
  }

  // ---------------------------------------------------------------------------------------
  // What the walk should find
  // ---------------------------------------------------------------------------------------

  function FirstOf<T>(a: Option<T>, b: Option<T>): Option<T> {
    if a.Some? then a else b
  }

  /** The error a comparison raises, given its two readings: the left one is tried first. */
  function ReadingError(left: Moment, right: Moment): Option<TimeError> {
    if left.err.Some? then left.err
    else if left.t == ZERO_TIME then right.err
    else None
  }

  function NodeError(q: TimePrims, l: Expr, r: Expr): Option<TimeError> {
    ReadingError(TimeExprValue(q, l, r), TimeExprValue(q, r, l))
  }

  /** The first error in walking order. */
  function FirstError(q: TimePrims, e: Expr): Option<TimeError>
    decreases e, 1
  {
    match e
    case Binary(_, l, r) => FirstOf(FirstOf(NodeError(q, l, r), FirstError(q, l)), FirstError(q, r))
    case Paren(x) => FirstError(q, x)
    case Call(_, args) => FirstErrorOf(q, args)
    case _ => None
  }

  function FirstErrorOf(q: TimePrims, es: seq<Expr>): Option<TimeError>
    decreases es, 0
  {
    if es == [] then None else FirstOf(FirstError(q, es[0]), FirstErrorOf(q, es[1..]))
  }

  /** `time` compared with `t`, or `t` with `time`. */
  datatype Side = TimeLeft(t: int) | TimeRight(t: int) | NoTime

  function ReadingSide(left: Moment, right: Moment): Side {
    if left.t != ZERO_TIME then TimeLeft(left.t)
    else if right.t != ZERO_TIME then TimeRight(right.t)
    else NoTime
  }

  function SideOf(q: TimePrims, l: Expr, r: Expr): Side {
    ReadingSide(TimeExprValue(q, l, r), TimeExprValue(q, r, l))
  }

  /** A set of times given by the ends that are present. */
  datatype Interval = Interval(lo: Option<int>, hi: Option<int>)

  const ALL_TIME: Interval := Interval(None, None)

  function Meet(a: Interval, b: Interval): Interval {
    Interval(
      if a.lo.None? || (b.lo.Some? && b.lo.value > a.lo.value) then b.lo else a.lo,
      if a.hi.None? || (b.hi.Some? && b.hi.value < a.hi.value) then b.hi else a.hi)
  }

  /** The times one comparison allows. */
  function SideInterval(op: Op, s: Side): Interval {
    match s
    case TimeLeft(t) =>
      (match op
       case GT => Interval(Some(t + 1), None)
       case GTE => Interval(Some(t), None)
       case LT => Interval(None, Some(t - 1))
       case LTE => Interval(None, Some(t))
       case EQ => Interval(Some(t), Some(t))
       case _ => ALL_TIME)
    case TimeRight(t) =>
      (match op
       case LT => Interval(Some(t + 1), None)
       case LTE => Interval(Some(t), None)
       case GT => Interval(None, Some(t - 1))
       case GTE => Interval(None, Some(t))
       case EQ => Interval(Some(t), Some(t))
       case _ => ALL_TIME)
    case NoTime => ALL_TIME
  }

  /** The times every comparison in the tree allows. */
  function Bounds(q: TimePrims, e: Expr): Interval
    decreases e, 1
  {
    match e
    case Binary(op, l, r) => Meet(Meet(SideInterval(op, SideOf(q, l, r)), Bounds(q, l)), Bounds(q, r))
    case Paren(x) => Bounds(q, x)
    case Call(_, args) => BoundsOf(q, args)
    case _ => ALL_TIME
  }

  function BoundsOf(q: TimePrims, es: seq<Expr>): Interval
    decreases es, 0
  {
    if es == [] then ALL_TIME else Meet(Bounds(q, es[0]), BoundsOf(q, es[1..]))
  }

  // ---------------------------------------------------------------------------------------
  // The comparisons in walking order
  // ---------------------------------------------------------------------------------------

  function Flip(op: Op): Op {
    match op
    case LT => GT
    case LTE => GTE
    case GT => LT
    case GTE => LTE
    case _ => op
  }

  /** What a comparison of `time` with `t` does to the lower end, or to the upper one with times negated.
      An equality puts the upper end one nanosecond too late. */
  function CutsAt(op: Op, t: int, upper: bool): seq<Cut> {
    match op
    case GT => if upper then [] else [Cut(t, Strict)]
    case GTE => if upper then [] else [Cut(t, Weak)]
    case LT => if upper then [Cut(-t, Strict)] else []
    case LTE => if upper then [Cut(-t, Weak)] else []
    case EQ => if upper then [Cut(-t - 1, Loose)] else [Cut(t, Weak)]
    case _ => []
  }

  function SideCuts(op: Op, s: Side, upper: bool): seq<Cut> {
    match s
    case TimeLeft(t) => CutsAt(op, t, upper)
    case TimeRight(t) => CutsAt(Flip(op), t, upper)
    case NoTime => []
  }

  /** All comparisons in the tree, a node before its children, left to right. */
  function Cuts(q: TimePrims, e: Expr, upper: bool): seq<Cut>
    decreases e, 1
  {
    match e
    case Binary(op, l, r) => SideCuts(op, SideOf(q, l, r), upper) + Cuts(q, l, upper) + Cuts(q, r, upper)
    case Paren(x) => Cuts(q, x, upper)
    case Call(_, args) => CutsOf(q, args, upper)
    case _ => []
  }

  function CutsOf(q: TimePrims, es: seq<Expr>, upper: bool): seq<Cut>
    decreases es, 0
  {
    if es == [] then [] else Cuts(q, es[0], upper) + CutsOf(q, es[1..], upper)
  }

  /** An end of the range after these comparisons; the zero time if there are none. */
  function EndAfter(cuts: seq<Cut>, upper: bool): int {
    match Running(cuts)
    case None => ZERO_TIME
    case Some(t) => if upper then -t else t
  }

  function Min(q: TimePrims, e: Expr): int { EndAfter(Cuts(q, e, false), false) }
  function Max(q: TimePrims, e: Expr): int { EndAfter(Cuts(q, e, true), true) }

  /** The times are within reach of 64 bits, so no end is mistaken for the zero time. */
  predicate InReach(cuts: seq<Cut>) {
    forall i :: 0 <= i < |cuts| ==> -TWO_63 <= cuts[i].at <= TWO_63
  }

  lemma EndIsSet(cuts: seq<Cut>, upper: bool)
    requires InReach(cuts)
    ensures cuts == [] <==> EndAfter(cuts, upper) == ZERO_TIME
  {
    if cuts != [] {
      RunningIsPlaced(cuts);
    }
  }

  lemma NextLower(cuts: seq<Cut>, c: Cut)
    requires InReach(cuts)
    ensures var min := EndAfter(cuts, false);
            EndAfter(cuts + [c], false) == if min == ZERO_TIME || c.at > min then Placed(c) else min
  {
    EndIsSet(cuts, false);
    RunningNext(cuts, c);
  }

  lemma NextUpper(cuts: seq<Cut>, c: Cut)
    requires InReach(cuts)
    ensures var max := EndAfter(cuts, true);
            EndAfter(cuts + [c], true) == if max == ZERO_TIME || -c.at < max then -Placed(c) else max
  {
    EndIsSet(cuts, true);
    RunningNext(cuts, c);
  }

  /** How a comparison of `time` with `value` moves the ends. */
  function NextMin(op: Op, value: int, min: int): int {
    if !(op.GT? || op.GTE? || op.EQ?) then min
    else if min != ZERO_TIME && value <= min then min
    else if op.GT? then value + 1
    else value
  }

  function NextMax(op: Op, value: int, max: int): int {
    if !(op.LT? || op.LTE? || op.EQ?) then max
    else
      var last := if op.EQ? then value + 1 else value;
      if max != ZERO_TIME && last >= max then max else if op.LT? then value - 1 else last
  }

  lemma NextMinOfCuts(low: seq<Cut>, op: Op, value: int)
    requires InReach(low) && -TWO_63 <= value < TWO_63
    ensures var cuts := low + CutsAt(op, value, false);
            InReach(cuts) && EndAfter(cuts, false) == NextMin(op, value, EndAfter(low, false))
  {
    var lower := CutsAt(op, value, false);
    if lower == [] {
      assert low + lower == low;
    } else {
      assert lower == [lower[0]];
      NextLower(low, lower[0]);
    }
  }

  lemma NextMaxOfCuts(high: seq<Cut>, op: Op, value: int)
    requires InReach(high) && -TWO_63 <= value < TWO_63
    ensures var cuts := high + CutsAt(op, value, true);
            InReach(cuts) && EndAfter(cuts, true) == NextMax(op, value, EndAfter(high, true))
  {
    var upper := CutsAt(op, value, true);
    if upper == [] {
      assert high + upper == high;
    } else {
      assert upper == [upper[0]];
      NextUpper(high, upper[0]);
    }
  }

  lemma {:induction false} CutsInReach(q: TimePrims, e: Expr, upper: bool)
    ensures InReach(Cuts(q, e, upper))
    decreases e, 1
  {
    match e
    case Binary(_, l, r) =>
      CutsInReach(q, l, upper);
      CutsInReach(q, r, upper);
    case Paren(x) => CutsInReach(q, x, upper);
    case Call(_, args) => CutsOfInReach(q, args, upper);
    case _ =>
  }

  lemma {:induction false} CutsOfInReach(q: TimePrims, es: seq<Expr>, upper: bool)
    ensures InReach(CutsOf(q, es, upper))
    decreases es, 0
  {
    if es != [] {
      CutsInReach(q, es[0], upper);
      CutsOfInReach(q, es[1..], upper);
    }
  }

  function Negated(t: Option<int>): Option<int> {
    if t.None? then None else Some(-t.value)
  }

  /** The interval that comparisons mean. */
  function IntervalOf(low: seq<Cut>, high: seq<Cut>): Interval {
    Interval(Tightest(low), Negated(Tightest(high)))
  }

  lemma IntervalAt(op: Op, t: int)
    ensures SideInterval(op, TimeLeft(t)) == IntervalOf(CutsAt(op, t, false), CutsAt(op, t, true))
  {
    TightestOne(Cut(t, Strict));
    TightestOne(Cut(t, Weak));
    TightestOne(Cut(-t, Strict));
    TightestOne(Cut(-t, Weak));
    TightestOne(Cut(-t - 1, Loose));
  }

  lemma SideIntervalOfCuts(op: Op, s: Side)
    ensures SideInterval(op, s) == IntervalOf(SideCuts(op, s, false), SideCuts(op, s, true))
  {
    match s
    case TimeLeft(t) => IntervalAt(op, t);
    case TimeRight(t) => IntervalAt(Flip(op), t);
    case NoTime =>
  }

  lemma MeetOfCuts(low: seq<Cut>, high: seq<Cut>, low': seq<Cut>, high': seq<Cut>)
    ensures Meet(IntervalOf(low, high), IntervalOf(low', high')) == IntervalOf(low + low', high + high')
  {
    TightestAppend(low, low');
    TightestAppend(high, high');
  }

  /** The bounds are what the comparisons mean, whatever their order. */
  lemma {:induction false} BoundsOfCuts(q: TimePrims, e: Expr)
    ensures Bounds(q, e) == IntervalOf(Cuts(q, e, false), Cuts(q, e, true))
    decreases e, 1
  {
    match e
    case Binary(op, l, r) =>
      var s := SideOf(q, l, r);
      var low, high := SideCuts(op, s, false), SideCuts(op, s, true);
      SideIntervalOfCuts(op, s);
      BoundsOfCuts(q, l);
      BoundsOfCuts(q, r);
      MeetOfCuts(low, high, Cuts(q, l, false), Cuts(q, l, true));
      MeetOfCuts(low + Cuts(q, l, false), high + Cuts(q, l, true), Cuts(q, r, false), Cuts(q, r, true));
    case Paren(x) => BoundsOfCuts(q, x);
    case Call(_, args) => BoundsOfCutsOf(q, args);
    case _ =>
  }

  lemma {:induction false} BoundsOfCutsOf(q: TimePrims, es: seq<Expr>)
    ensures BoundsOf(q, es) == IntervalOf(CutsOf(q, es, false), CutsOf(q, es, true))
    decreases es, 0
  {
    if es != [] {
      BoundsOfCuts(q, es[0]);
      BoundsOfCutsOf(q, es[1..]);
      MeetOfCuts(Cuts(q, es[0], false), Cuts(q, es[0], true), CutsOf(q, es[1..], false), CutsOf(q, es[1..], true));
    }
  }

  // ---------------------------------------------------------------------------------------
  // The walk
  // ---------------------------------------------------------------------------------------

  /** The variables the walking closure updates. `low` and `high` are the comparisons visited so far. */
  class RangeVisitor {
    var min: int
    var max: int
    var err: Option<TimeError>
    ghost var low: seq<Cut>
    ghost var high: seq<Cut>

    ghost predicate Valid()
      reads this
    {
      && min == EndAfter(low, false) && max == EndAfter(high, true)
      && InReach(low) && InReach(high)
    }

    constructor ()
      ensures Valid() && err == None && low == [] && high == []
    {
      min, max, err, low, high := ZERO_TIME, ZERO_TIME, None, [], [];
    }

    /** One comparison of `time` with `value`. */
    method Narrow(op: Op, value: int)
      requires -TWO_63 <= value < TWO_63
      requires Valid()
      modifies this`min, this`max, this`low, this`high
      ensures Valid()
      ensures low == old(low) + CutsAt(op, value, false) && high == old(high) + CutsAt(op, value, true)
      ensures min == NextMin(op, value, old(min)) && max == NextMax(op, value, old(max))
    {
      NextMinOfCuts(low, op, value);
      NextMaxOfCuts(high, op, value);
      low, high := low + CutsAt(op, value, false), high + CutsAt(op, value, true);
      match op {
        case GT =>
          if min == ZERO_TIME || value > min {
            min := value + 1;
          }
        case GTE =>
          if min == ZERO_TIME || value > min {
            min := value;
          }
        case LT =>
          if max == ZERO_TIME || value < max {
            max := value - 1;
          }
        case LTE =>
          if max == ZERO_TIME || value < max {
            max := value;
          }
        case EQ =>
          if min == ZERO_TIME || value > min {
            min := value;
          }
          if max == ZERO_TIME || value + 1 < max {
            max := value + 1;
          }
        case _ =>
      }
    }

    /** The closure on one binary node, given the two readings of its operands. */
    method Visit(op: Op, left: Moment, right: Moment)
      requires left.t == ZERO_TIME || (-TWO_63 <= left.t < TWO_63 && left.err.None?)
      requires right.t == ZERO_TIME || (-TWO_63 <= right.t < TWO_63 && right.err.None?)
      requires Valid()
      modifies this
      ensures Valid() && err == FirstOf(old(err), ReadingError(left, right))
      ensures err.None? ==> low == old(low) + SideCuts(op, ReadingSide(left, right), false)
      ensures err.None? ==> high == old(high) + SideCuts(op, ReadingSide(left, right), true)
    {
      if err.Some? {
        return;
      }
      var value := left.t;
      var o := op;
      err := left.err;
      if err.Some? {
        return;
      } else if value == ZERO_TIME {
        value, err := right.t, right.err;
        if value == ZERO_TIME || err.Some? {
          return;
        }
        o := Flip(o);
      }
      Narrow(o, value);
    }

    /** The walk visits a node before its children, left to right. */
    method Walk(q: TimePrims, e: Expr)
      requires Valid()
      modifies this
      ensures Valid() && err == FirstOf(old(err), FirstError(q, e))
      ensures err.None? ==> low == old(low) + Cuts(q, e, false) && high == old(high) + Cuts(q, e, true)
      decreases e, 1
    {
      match e {
        case Binary(op, l, r) =>
          var left, right := TimeExprValue(q, l, r), TimeExprValue(q, r, l);
          ghost var side := SideOf(q, l, r);
          Visit(op, left, right);
          Walk(q, l);
          Walk(q, r);
          Regroup(old(low), SideCuts(op, side, false), Cuts(q, l, false), Cuts(q, r, false));
          Regroup(old(high), SideCuts(op, side, true), Cuts(q, l, true), Cuts(q, r, true));
        case Paren(x) =>
          Walk(q, x);
        case Call(_, args) =>
          WalkAll(q, args);
        case _ =>
      }
    }

    method WalkAll(q: TimePrims, es: seq<Expr>)
      requires Valid()
      modifies this
      ensures Valid() && err == FirstOf(old(err), FirstErrorOf(q, es))
      ensures err.None? ==> low == old(low) + CutsOf(q, es, false) && high == old(high) + CutsOf(q, es, true)
      decreases es, 0
    {
      for i := 0 to |es|
        invariant Valid()
        invariant FirstOf(err, FirstErrorOf(q, es[i..])) == FirstOf(old(err), FirstErrorOf(q, es))
        invariant err.None? ==> low + CutsOf(q, es[i..], false) == old(low) + CutsOf(q, es, false)
        invariant err.None? ==> high + CutsOf(q, es[i..], true) == old(high) + CutsOf(q, es, true)
      {
        assert es[i..][0] == es[i] && es[i..][1..] == es[i + 1..];
        Walk(q, es[i]);
      }
    }
  }

  lemma Regroup(a: seq<Cut>, b: seq<Cut>, c: seq<Cut>, d: seq<Cut>)
    ensures a + b + c + d == a + (b + c + d)
  {
  }

  // ---------------------------------------------------------------------------------------
  // What the bounds mean
  // ---------------------------------------------------------------------------------------

  predicate Compare(op: Op, x: int, y: int) {
    match op
    case LT => x < y
    case LTE => x <= y
    case GT => x > y
    case GTE => x >= y
    case EQ => x == y
    case _ => true
  }

  predicate IsTimeRef(q: TimePrims, e: Expr) {
    e.VarRef? && q.isTime(e.name)
  }

  /** The instant that a time literal or a date names. */
  function InstantOf(q: TimePrims, lit: Expr): Option<int> {
    if lit.TimeLit? then Some(lit.t)
    else if lit.StrLit? && q.date(lit.s).Date? then Some(q.date(lit.s).t)
    else None
  }

  /** What a literal means beside `time`: an instant from the epoch to the year 2262, or so many nanoseconds
      since the epoch. */
  function Meaning(q: TimePrims, lit: Expr): Option<int> {
    if lit.DurLit? then Some(lit.d)
    else if lit.IntLit? then Some(lit.i)
    else if lit.NumLit? then Some(q.toInt(lit.f))
    else
      var at := InstantOf(q, lit);
      if at.Some? && 0 <= at.value <= 0x7fff_ffff_ffff_fffe then at else None
  }

  /** Why it means nothing there. */
  function Refusal(q: TimePrims, lit: Expr): Option<TimeError> {
    if Meaning(q, lit).Some? then None
    else if InstantOf(q, lit).Some? then Some(if InstantOf(q, lit).value < 0 then Underflow else Overflow)
    else if lit.StrLit? && q.date(lit.s).Unparsable? then Some(InvalidTime)
    else Some(Incompatible)
  }

  /** Time `t` meets a comparison of `time` with what stands on its other side. Inequality (!=) and conditions
      on anything else are not part of the time range. */
  predicate Meets(q: TimePrims, op: Op, l: Expr, r: Expr, t: int) {
    if IsTimeRef(q, l) then Meaning(q, r).Some? ==> Compare(op, t, Meaning(q, r).value)
    else if IsTimeRef(q, r) then Meaning(q, l).Some? ==> Compare(op, Meaning(q, l).value, t)
    else true
  }

  /** Every comparison of `time` in the expression, wherever it stands, holds of `t`. */
  predicate PassesAll(q: TimePrims, e: Expr, t: int) {
    match e
    case Binary(op, l, r) => Meets(q, op, l, r, t) && PassesAll(q, l, t) && PassesAll(q, r, t)
    case Paren(x) => PassesAll(q, x, t)
    case Call(_, args) => forall i :: 0 <= i < |args| ==> PassesAll(q, args[i], t)
    case _ => true
  }

  /** The clause lets `t` through, as far as it speaks of times. */
  predicate Allows(q: TimePrims, e: Expr, t: int) {
    match e
    case Binary(op, l, r) =>
      if op.AND? then Allows(q, l, t) && Allows(q, r, t)
      else if op.OR? then Allows(q, l, t) || Allows(q, r, t)
      else Meets(q, op, l, r, t)
    case Paren(x) => Allows(q, x, t)
    case _ => true
  }

  predicate HasComparison(e: Expr) {
    match e
    case Binary(op, l, r) => IsComparison(op) || HasComparison(l) || HasComparison(r)
    case Paren(x) => HasComparison(x)
    case Call(_, args) => exists i :: 0 <= i < |args| && HasComparison(args[i])
    case _ => false
  }

  /** A conjunction whose conjuncts are comparisons, arithmetic or other terms, with no further
      comparison inside a conjunct. */
  predicate IsConjunction(e: Expr) {
    match e
    case Binary(op, l, r) =>
      if op.AND? then IsConjunction(l) && IsConjunction(r) else !HasComparison(l) && !HasComparison(r)
    case Paren(x) => IsConjunction(x)
    case _ => !HasComparison(e)
  }

  predicate Contains(i: Interval, t: int) {
    (i.lo.Some? ==> i.lo.value <= t) && (i.hi.Some? ==> t <= i.hi.value)
  }

  lemma ReadingExactly(q: TimePrims, ref: Expr, lit: Expr)
    ensures var m := TimeExprValue(q, ref, lit);
            if !IsTimeRef(q, ref) then m == NO_TIME
            else m == Moment(if Meaning(q, lit).Some? then Meaning(q, lit).value else ZERO_TIME, Refusal(q, lit))
  {
  }

  /** A comparison is read from its left operand if that is the time, else from its right one, and an error is
      the refusal of the literal on the other side. */
  lemma SideExactly(q: TimePrims, l: Expr, r: Expr)
    ensures SideOf(q, l, r) ==
            if IsTimeRef(q, l) then (if Meaning(q, r).Some? then TimeLeft(Meaning(q, r).value) else NoTime)
            else if IsTimeRef(q, r) then (if Meaning(q, l).Some? then TimeRight(Meaning(q, l).value) else NoTime)
            else NoTime
    ensures NodeError(q, l, r) ==
            if IsTimeRef(q, l) then Refusal(q, r) else if IsTimeRef(q, r) then Refusal(q, l) else None
  {
    ReadingExactly(q, l, r);
    ReadingExactly(q, r, l);
  }

  /** The refusals of all comparisons of `time` in the tree, a node's before those in its operands. */
  function Refusals(q: TimePrims, e: Expr): seq<TimeError>
    decreases e, 1
  {
    match e
    case Binary(_, l, r) =>
      var here := if IsTimeRef(q, l) then Refusal(q, r) else if IsTimeRef(q, r) then Refusal(q, l) else None;
      (if here.Some? then [here.value] else []) + Refusals(q, l) + Refusals(q, r)
    case Paren(x) => Refusals(q, x)
    case Call(_, args) => AllRefusals(q, args)
    case _ => []
  }

  function AllRefusals(q: TimePrims, es: seq<Expr>): seq<TimeError>
    decreases es, 0
  {
    if es == [] then [] else Refusals(q, es[0]) + AllRefusals(q, es[1..])
  }

  function FirstIn<T>(s: seq<T>): Option<T> { if s == [] then None else Some(s[0]) }

  /** The error of an expression is the first refusal in it. */
  lemma {:induction false} FirstErrorExactly(q: TimePrims, e: Expr)
    ensures FirstError(q, e) == FirstIn(Refusals(q, e))
    decreases e, 1
  {
    match e
    case Binary(_, l, r) =>
      SideExactly(q, l, r);
      FirstErrorExactly(q, l);
      FirstErrorExactly(q, r);
    case Paren(x) => FirstErrorExactly(q, x);
    case Call(_, args) => FirstErrorsExactly(q, args);
    case _ =>
  }

  lemma {:induction false} FirstErrorsExactly(q: TimePrims, es: seq<Expr>)
    ensures FirstErrorOf(q, es) == FirstIn(AllRefusals(q, es))
    decreases es, 0
  {
    if es != [] {
      FirstErrorExactly(q, es[0]);
      FirstErrorsExactly(q, es[1..]);
    }
  }

  lemma SideIsExact(q: TimePrims, op: Op, l: Expr, r: Expr, t: int)
    ensures Contains(SideInterval(op, SideOf(q, l, r)), t) <==> Meets(q, op, l, r, t)
  {
    SideExactly(q, l, r);
  }

  lemma MeetContains(a: Interval, b: Interval, t: int)
    ensures Contains(Meet(a, b), t) <==> Contains(a, t) && Contains(b, t)
  {
  }

  /** For every expression, the bounds are exactly the times that meet each comparison in it. */
  lemma {:induction false} BoundsAreExact(q: TimePrims, e: Expr, t: int)
    ensures Contains(Bounds(q, e), t) <==> PassesAll(q, e, t)
    decreases e, 1
  {
    match e
    case Binary(op, l, r) =>
      var side := SideInterval(op, SideOf(q, l, r));
      SideIsExact(q, op, l, r, t);
      MeetContains(side, Bounds(q, l), t);
      MeetContains(Meet(side, Bounds(q, l)), Bounds(q, r), t);
      BoundsAreExact(q, l, t);
      BoundsAreExact(q, r, t);
    case Paren(x) => BoundsAreExact(q, x, t);
    case Call(_, args) => BoundsOfAreExact(q, args, t);
    case _ =>
  }

  lemma {:induction false} BoundsOfAreExact(q: TimePrims, es: seq<Expr>, t: int)
    ensures Contains(BoundsOf(q, es), t) <==> forall i :: 0 <= i < |es| ==> PassesAll(q, es[i], t)
    decreases es, 0
  {
    if es != [] {
      MeetContains(Bounds(q, es[0]), BoundsOf(q, es[1..]), t);
      BoundsAreExact(q, es[0], t);
      BoundsOfAreExact(q, es[1..], t);
      assert es == [es[0]] + es[1..];
    }
  }

  lemma {:induction false} NoComparisonNoBound(q: TimePrims, e: Expr, t: int)
    requires !HasComparison(e)
    ensures PassesAll(q, e, t) && Allows(q, e, t)
    decreases e
  {
    match e
    case Binary(_, l, r) =>
      NoComparisonNoBound(q, l, t);
      NoComparisonNoBound(q, r, t);
    case Paren(x) => NoComparisonNoBound(q, x, t);
    case Call(_, args) =>
      forall i | 0 <= i < |args| ensures PassesAll(q, args[i], t) {
        NoComparisonNoBound(q, args[i], t);
      }
    case _ =>
  }

  lemma {:induction false} ConjunctionPasses(q: TimePrims, e: Expr, t: int)
    requires IsConjunction(e)
    ensures Allows(q, e, t) <==> PassesAll(q, e, t)
  {
    match e
    case Binary(op, l, r) =>
      if op.AND? {
        ConjunctionPasses(q, l, t);
        ConjunctionPasses(q, r, t);
      } else {
        NoComparisonNoBound(q, l, t);
        NoComparisonNoBound(q, r, t);
      }
    case Paren(x) => ConjunctionPasses(q, x, t);
    case _ => NoComparisonNoBound(q, e, t);
  }

  /** The times a conjunction allows are exactly those within its bounds, in whatever order
      its conjuncts stand. */
  lemma ConjunctionIsInterval(q: TimePrims, e: Expr, t: int)
    requires IsConjunction(e)
    ensures Allows(q, e, t) <==> Contains(Bounds(q, e), t)
  {
    ConjunctionPasses(q, e, t);
    BoundsAreExact(q, e, t);
  }

  predicate IsEmpty(i: Interval) {
    i.lo.Some? && i.hi.Some? && i.lo.value > i.hi.value
  }

  predicate InRange(min: int, max: int, slack: int, t: int) {
    (min == ZERO_TIME || min + slack <= t) && (max == ZERO_TIME || t <= max - slack)
  }

  function Slack(cuts: seq<Cut>): int { if IsSlack(cuts) then 1 else 0 }

  /** What the range would be with these nanoseconds less at its ends. */
  function Narrowed(min: int, max: int, fromMin: int, fromMax: int): Interval {
    Interval(if min == ZERO_TIME then None else Some(min + fromMin),
             if max == ZERO_TIME then None else Some(max - fromMax))
  }

  lemma EndOfTightest(cuts: seq<Cut>, upper: bool)
    requires InReach(cuts)
    ensures var end := EndAfter(cuts, upper);
            if end == ZERO_TIME then Tightest(cuts).None?
            else Tightest(cuts) == Some((if upper then -end else end) + Slack(cuts))
  {
    EndIsSet(cuts, upper);
    if cuts != [] {
      RunningExactly(cuts);
    }
  }

  lemma EndsOfCuts(low: seq<Cut>, high: seq<Cut>)
    requires InReach(low) && InReach(high)
    ensures IntervalOf(low, high) ==
            Narrowed(EndAfter(low, false), EndAfter(high, true), Slack(low), Slack(high))
  {
    EndOfTightest(low, false);
    EndOfTightest(high, true);
  }

  /** Each end is where the bounds have it or one nanosecond outside, the latter exactly if its comparisons
      leave it slack. */
  lemma EndsOfBounds(q: TimePrims, e: Expr)
    ensures Bounds(q, e) == Narrowed(Min(q, e), Max(q, e), Slack(Cuts(q, e, false)), Slack(Cuts(q, e, true)))
  {
    BoundsOfCuts(q, e);
    CutsInReach(q, e, false);
    CutsInReach(q, e, true);
    EndsOfCuts(Cuts(q, e, false), Cuts(q, e, true));
  }

  /** The range covers every time that meets all the comparisons, and every time at least one nanosecond
      inside it at both ends meets them. */
  lemma RangeIsNear(q: TimePrims, e: Expr, t: int)
    ensures PassesAll(q, e, t) ==> InRange(Min(q, e), Max(q, e), 0, t)
    ensures InRange(Min(q, e), Max(q, e), 1, t) ==> PassesAll(q, e, t)
  {
    EndsOfBounds(q, e);
    BoundsAreExact(q, e, t);
  }

  /** No comparison that decides an end slips, or the ends have crossed. */
  predicate IsExact(q: TimePrims, e: Expr) {
    || (!IsSlack(Cuts(q, e, false)) && !IsSlack(Cuts(q, e, true)))
    || (Min(q, e) != ZERO_TIME && Max(q, e) != ZERO_TIME && Min(q, e) > Max(q, e))
  }

  /** Taking something off the ends changes nothing exactly if it is nothing, or there was nothing left. */
  lemma NarrowedExactly(min: int, max: int, fromMin: nat, fromMax: nat)
    requires (fromMin > 0 ==> min != ZERO_TIME) && (fromMax > 0 ==> max != ZERO_TIME)
    ensures (forall t: int :: InRange(min, max, 0, t) <==> Contains(Narrowed(min, max, fromMin, fromMax), t)) <==>
            (fromMin == 0 && fromMax == 0) || (min != ZERO_TIME && max != ZERO_TIME && min > max)
  {
    if fromMin > 0 && (max == ZERO_TIME || min <= max) {
      assert InRange(min, max, 0, min) && !Contains(Narrowed(min, max, fromMin, fromMax), min);
    } else if fromMax > 0 && (min == ZERO_TIME || min <= max) {
      assert InRange(min, max, 0, max) && !Contains(Narrowed(min, max, fromMin, fromMax), max);
    }
  }

  /** For every expression: the range is exactly the times that meet all its comparisons if and only if no
      comparison that decides an end slips, the case of crossed ends apart. */
  lemma RangeIsExact(q: TimePrims, e: Expr)
    ensures (forall t: int :: InRange(Min(q, e), Max(q, e), 0, t) <==> PassesAll(q, e, t)) <==> IsExact(q, e)
  {
    var low, high := Cuts(q, e, false), Cuts(q, e, true);
    CutsInReach(q, e, false);
    CutsInReach(q, e, true);
    EndIsSet(low, false);
    EndIsSet(high, true);
    EndsOfBounds(q, e);
    NarrowedExactly(Min(q, e), Max(q, e), Slack(low), Slack(high));
    forall t: int
      ensures Contains(Bounds(q, e), t) <==> PassesAll(q, e, t)
    {
      BoundsAreExact(q, e, t);
    }
  }

  /** A condition on the comparisons one by one: none is an equality, and those that bound the same end
      are at least two nanoseconds apart. */
  lemma SpacedRangeIsExact(q: TimePrims, e: Expr)
    requires IsSpaced(Cuts(q, e, false)) && IsSpaced(Cuts(q, e, true))
    ensures IsExact(q, e)
  {
    SpacedIsTight(Cuts(q, e, false));
    SpacedIsTight(Cuts(q, e, true));
  }

  /** The two ends, the first error, and what the range means: for a conjunction the times that meet all
      comparisons are those it allows. */
  method TimeRange(q: TimePrims, e: Expr) returns (min: int, max: int, err: Option<TimeError>)
    ensures err == FirstError(q, e) == FirstIn(Refusals(q, e))
    ensures err.None? ==> min == Min(q, e) && max == Max(q, e)
    ensures err.None? ==> Bounds(q, e) == Narrowed(min, max, Slack(Cuts(q, e, false)), Slack(Cuts(q, e, true)))
    ensures err.None? ==> forall t: int :: PassesAll(q, e, t) ==> InRange(min, max, 0, t)
    ensures err.None? ==> forall t: int :: InRange(min, max, 1, t) ==> PassesAll(q, e, t)
    ensures err.None? ==> ((forall t: int :: InRange(min, max, 0, t) <==> PassesAll(q, e, t)) <==> IsExact(q, e))
    ensures err.None? && IsConjunction(e) ==> forall t: int :: Allows(q, e, t) <==> PassesAll(q, e, t)
  {
    var visitor := new RangeVisitor();
    visitor.Walk(q, e);
    min, max, err := visitor.min, visitor.max, visitor.err;
    if err.None? {
      assert visitor.low == Cuts(q, e, false) && visitor.high == Cuts(q, e, true);
    }
    FirstErrorExactly(q, e);
    EndsOfBounds(q, e);
    RangeIsExact(q, e);
    forall t: int {
      RangeIsNear(q, e, t);
    }
    if IsConjunction(e) {
      forall t: int {
        ConjunctionPasses(q, e, t);
      }
    }
  }

  // ---------------------------------------------------------------------------------------
  // Where it is not exact
  // ---------------------------------------------------------------------------------------

  /** `time` compared with a literal, or a literal with `time`. */
  function Comparison(op: Op, lit: Expr, swapped: bool): Expr {
    var time := VarRef("time", 0);
    if swapped then Binary(op, lit, time) else Binary(op, time, lit)
  }

  function Time(op: Op, k: Int64): Expr { Comparison(op, IntLit(k), false) }

  /** No comparison is inside. */
  predicate IsLeaf(e: Expr) { !e.Binary? && !e.Paren? && !e.Call? }

  lemma LeafComparison(q: TimePrims, op: Op, l: Expr, r: Expr, upper: bool)
    requires IsLeaf(l) && IsLeaf(r)
    ensures FirstError(q, Binary(op, l, r)) == NodeError(q, l, r)
    ensures Cuts(q, Binary(op, l, r), upper) == SideCuts(op, SideOf(q, l, r), upper)
  {
    assert Cuts(q, l, upper) == [] && Cuts(q, r, upper) == [];
    assert FirstError(q, l) == None && FirstError(q, r) == None;
  }

  lemma OneComparison(q: TimePrims, op: Op, lit: Expr, swapped: bool, upper: bool)
    requires q.isTime("time") && !IsTimeRef(q, lit) && IsLeaf(lit)
    ensures var e := Comparison(op, lit, swapped);
            && FirstError(q, e) == Refusal(q, lit)
            && Cuts(q, e, upper) ==
               if Meaning(q, lit).None? then []
               else CutsAt(if swapped then Flip(op) else op, Meaning(q, lit).value, upper)
  {
    var time := VarRef("time", 0);
    var l, r := if swapped then lit else time, if swapped then time else lit;
    LeafComparison(q, op, l, r, upper);
    SideExactly(q, l, r);
  }

  lemma EndsOfOne(op: Op, u: int, t: int)
    requires -TWO_63 <= u < TWO_63
    ensures InRange(EndAfter(CutsAt(op, u, false), false), EndAfter(CutsAt(op, u, true), true), 0, t) <==>
            Compare(op, t, u) || (op.EQ? && t == u + 1)
  {
    var lower, upper := CutsAt(op, u, false), CutsAt(op, u, true);
    if lower != [] {
      RunningOne(lower[0]);
    }
    if upper != [] {
      RunningOne(upper[0]);
    }
  }

  /** A single comparison with a literal of any kind, on either side: an error exactly if the literal is
      refused; otherwise the range is the times that compare so with what the literal means, and for an equality
      also the nanosecond after. */
  lemma RangeOfComparison(q: TimePrims, op: Op, lit: Expr, swapped: bool, t: int)
    requires q.isTime("time") && !IsTimeRef(q, lit) && IsLeaf(lit)
    ensures FirstError(q, Comparison(op, lit, swapped)) == Refusal(q, lit)
    ensures var e := Comparison(op, lit, swapped);
            Meaning(q, lit).Some? ==>
              var u := Meaning(q, lit).value;
              InRange(Min(q, e), Max(q, e), 0, t) <==>
              (if swapped then Compare(op, u, t) else Compare(op, t, u)) || (op.EQ? && t == u + 1)
  {
    OneComparison(q, op, lit, swapped, false);
    OneComparison(q, op, lit, swapped, true);
    if Meaning(q, lit).Some? {
      EndsOfOne(if swapped then Flip(op) else op, Meaning(q, lit).value, t);
    }
  }

  lemma TwoComparisons(q: TimePrims, op: Op, l: Expr, r: Expr)
    requires IsLogical(op) && l.Binary? && r.Binary?
    ensures FirstError(q, Binary(op, l, r)) == FirstOf(FirstError(q, l), FirstError(q, r))
    ensures Cuts(q, Binary(op, l, r), false) == Cuts(q, l, false) + Cuts(q, r, false)
    ensures Cuts(q, Binary(op, l, r), true) == Cuts(q, l, true) + Cuts(q, r, true)
  {
  }

  lemma EndsOfTwo(q: TimePrims, op: Op, a: Op, j: Int64, b: Op, k: Int64)
    requires q.isTime("time") && IsLogical(op)
    ensures var e := Binary(op, Time(a, j), Time(b, k));
            && FirstError(q, e) == None
            && Min(q, e) == EndAfter(CutsAt(a, j, false) + CutsAt(b, k, false), false)
            && Max(q, e) == EndAfter(CutsAt(a, j, true) + CutsAt(b, k, true), true)
  {
    OneComparison(q, a, IntLit(j), false, false);
    OneComparison(q, a, IntLit(j), false, true);
    OneComparison(q, b, IntLit(k), false, false);
    OneComparison(q, b, IntLit(k), false, true);
    TwoComparisons(q, op, Time(a, j), Time(b, k));
  }

  lemma EndsOfChain()
    ensures EndAfter(CutsAt(GT, 3, false) + CutsAt(GT, 4, false), false) == 4
  {
    RunningOne(Cut(3, Strict));
    RunningNext([Cut(3, Strict)], Cut(4, Strict));
  }

  lemma NotAllowed(q: TimePrims)
    requires q.isTime("time")
    ensures !Allows(q, Time(GT, 4), 4)
  {
  }

  /** Without an equality: `time > 3 AND time > 4` gets the lower end 4, which it does not allow. */
  lemma RangeOfStrictChain(q: TimePrims)
    requires q.isTime("time")
    ensures var e := Binary(AND, Time(GT, 3), Time(GT, 4));
            && FirstError(q, e) == None && Min(q, e) == 4 && Max(q, e) == ZERO_TIME
            && InRange(Min(q, e), Max(q, e), 0, 4) && !Allows(q, e, 4)
  {
    EndsOfTwo(q, AND, GT, 3, GT, 4);
    EndsOfChain();
    NotAllowed(q);
  }

  // ---------------------------------------------------------------------------------------
  // Disjunctions
  // ---------------------------------------------------------------------------------------

  /** A disjunction of any number of conjunctions. */
  predicate IsDisjunction(e: Expr) {
    match e
    case Binary(OR, l, r) => IsDisjunction(l) && IsDisjunction(r)
    case Paren(x) => IsDisjunction(x)
    case _ => IsConjunction(e)
  }

  /** All of `i` is in the range. */
  predicate IsWithin(i: Interval, min: int, max: int) {
    || IsEmpty(i)
    || (&& (min == ZERO_TIME || (i.lo.Some? && min <= i.lo.value))
        && (max == ZERO_TIME || (i.hi.Some? && i.hi.value <= max)))
  }

  /** The bounds of every conjunction are. */
  predicate SidesWithin(q: TimePrims, e: Expr, min: int, max: int) {
    match e
    case Binary(OR, l, r) => SidesWithin(q, l, min, max) && SidesWithin(q, r, min, max)
    case Paren(x) => SidesWithin(q, x, min, max)
    case _ => IsWithin(Bounds(q, e), min, max)
  }

  /** A time of `i` out of range. */
  lemma OutsideTime(i: Interval, min: int, max: int) returns (t: int)
    requires !IsWithin(i, min, max)
    ensures Contains(i, t) && !InRange(min, max, 0, t)
  {
    if min != ZERO_TIME && !(i.lo.Some? && min <= i.lo.value) {
      t := if i.lo.Some? then i.lo.value
           else if i.hi.Some? && i.hi.value < min then i.hi.value
           else min - 1;
    } else {
      t := if i.hi.Some? then i.hi.value
           else if i.lo.Some? && i.lo.value > max then i.lo.value
           else max + 1;
    }
  }

  ghost predicate Covers(q: TimePrims, e: Expr, min: int, max: int) {
    forall t: int :: Allows(q, e, t) ==> InRange(min, max, 0, t)
  }

  lemma ConjunctionCovered(q: TimePrims, e: Expr, min: int, max: int)
    requires IsConjunction(e)
    ensures Covers(q, e, min, max) <==> IsWithin(Bounds(q, e), min, max)
  {
    forall t: int {
      ConjunctionIsInterval(q, e, t);
    }
    if !IsWithin(Bounds(q, e), min, max) {
      var t := OutsideTime(Bounds(q, e), min, max);
      assert Allows(q, e, t);
    }
  }

  /** Any range covers the times that a disjunction allows exactly if it holds the bounds of each of the
      conjunctions that allow any. */
  lemma {:induction false} CoveredExactly(q: TimePrims, e: Expr, min: int, max: int)
    requires IsDisjunction(e)
    ensures Covers(q, e, min, max) <==> SidesWithin(q, e, min, max)
  {
    match e
    case Binary(OR, l, r) =>
      CoveredExactly(q, l, min, max);
      CoveredExactly(q, r, min, max);
      assert forall t: int :: Allows(q, e, t) <==> Allows(q, l, t) || Allows(q, r, t);
    case Paren(x) =>
      CoveredExactly(q, x, min, max);
      assert forall t: int :: Allows(q, e, t) <==> Allows(q, x, t);
    case _ => ConjunctionCovered(q, e, min, max);
  }

  /** A disjunction is walked like a conjunction: the range covers the times it allows exactly if it holds
      the bounds of each of the conjunctions that allow any. */
  lemma DisjunctionCoveredExactly(q: TimePrims, e: Expr)
    requires IsDisjunction(e)
    ensures Covers(q, e, Min(q, e), Max(q, e)) <==> SidesWithin(q, e, Min(q, e), Max(q, e))
  {
    CoveredExactly(q, e, Min(q, e), Max(q, e));
  }

  lemma EndsOfSides()
    ensures EndAfter(CutsAt(LT, 5, false) + CutsAt(GT, 10, false), false) == 11
    ensures EndAfter(CutsAt(LT, 5, true) + CutsAt(GT, 10, true), true) == 4
  {
    RunningOne(Cut(-5, Strict));
    RunningOne(Cut(10, Strict));
    assert [] + [Cut(10, Strict)] == [Cut(10, Strict)] && [Cut(-5, Strict)] + [] == [Cut(-5, Strict)];
  }

  /** `time < 5 OR time > 10` gets ends with nothing between. */
  lemma RangeOfDisjunction(q: TimePrims)
    requires q.isTime("time")
    ensures var e := Binary(OR, Time(LT, 5), Time(GT, 10));
            FirstError(q, e) == None && Min(q, e) == 11 && Max(q, e) == 4
  {
    EndsOfTwo(q, OR, LT, 5, GT, 10);
    EndsOfSides();
  }
}
