/** `SelectStatement.ColumnNames`: aliases are kept, other columns are named after their expression, with
    a number appended where that name is taken. */
module InfluxqlColumns {
  import opened InfluxqlAst

  /** A selected field; an empty alias is no alias. */
  datatype Field = Field(expr: Expr, alias: string)

  // ---------------------------------------------------------------------------------------
  // Names before conflicts are resolved
  // ---------------------------------------------------------------------------------------

  /** The variables and calls of an expression from left to right; calls are not entered. */
  function References(e: Expr): seq<string> {
    match e
    case VarRef(name, _) => [name]
    case Call(fn, _) => [fn]
    case Binary(_, lhs, rhs) => References(lhs) + References(rhs)
    case Paren(inner) => References(inner)
    case _ => []
  }

  function Underscored(names: seq<string>): string {
    if names == [] then "" else if |names| == 1 then names[0] else names[0] + "_" + Underscored(names[1..])
  }

  function Name(f: Field): string
    decreases f.expr
  {
    if f.alias != "" then f.alias
    else
      match f.expr
      case Call(fn, _) => fn
      case Binary(_, _, _) => Underscored(References(f.expr))
      case Paren(inner) => Name(Field(inner, ""))
      case VarRef(name, _) => name
      case _ => ""
  }

  predicate IsSelector(e: Expr) {
    e.Call? && (e.fn == "top" || e.fn == "bottom")
  }

  /** Calls of `top` and `bottom` have a first argument. */
  predicate WellFormed(f: Field) {
    IsSelector(f.expr) ==> f.expr.args != []
  }

  function RefsOf(args: seq<Expr>): seq<Field> {
    if args == [] then []
    else (if args[0].VarRef? then [Field(args[0], "")] else []) + RefsOf(args[1..])
  }

  /** One column per field, and one more per variable among the further arguments of `top` and `bottom`. */
  function Expanded(f: Field): seq<Field>
    requires WellFormed(f)
  {
    if IsSelector(f.expr) then [f] + RefsOf(f.expr.args[1..]) else [f]
  }

  function Columns(fields: seq<Field>): seq<Field>
    requires forall f :: f in fields ==> WellFormed(f)
  {
    if fields == [] then [] else Columns(fields[..|fields| - 1]) + Expanded(fields[|fields| - 1])
  }

  function TimeFieldName(timeAlias: string): string {
    if timeAlias != "" then timeAlias else "time"
  }

  // ---------------------------------------------------------------------------------------
  // Numbered names
  // ---------------------------------------------------------------------------------------

  function Digit(n: nat): char
    requires n < 10
  {
    '0' + n as char
  }

  function Decimal(n: nat): string {
    if n < 10 then [Digit(n)] else Decimal(n / 10) + [Digit(n % 10)]
  }

  lemma {:induction false} DecimalInjective(m: nat, n: nat)
    requires Decimal(m) == Decimal(n)
    ensures m == n
  {
    var a, b := Decimal(m), Decimal(n);
    if m >= 10 && n >= 10 {
      assert a[..|a| - 1] == Decimal(m / 10) && b[..|b| - 1] == Decimal(n / 10);
      assert a[|a| - 1] == Digit(m % 10) && b[|b| - 1] == Digit(n % 10);
      DecimalInjective(m / 10, n / 10);
    } else {
      DecimalNotEmpty(m / 10);
      DecimalNotEmpty(n / 10);
    }
  }

  lemma DecimalNotEmpty(n: nat)
    ensures |Decimal(n)| > 0
  {
  }

  function Numbered(name: string, n: nat): string {
    name + "_" + Decimal(n)
  }

  lemma NumberedInjective(name: string, m: nat, n: nat)
    requires Numbered(name, m) == Numbered(name, n)
    ensures m == n
  {
    var prefix := name + "_";
    assert Decimal(m) == Numbered(name, m)[|prefix|..];
    assert Decimal(n) == Numbered(name, n)[|prefix|..];
    DecimalInjective(m, n);
  }

  // ---------------------------------------------------------------------------------------
  // Resolving conflicts
  // ---------------------------------------------------------------------------------------

  /** Looks for the first number from `count` on whose name is free. Only finitely many names are taken,
      so there is one. */
  method Resolve(name: string, names: map<string, nat>, count: nat) returns (resolved: string, at: nat)
    ensures count <= at && resolved == Numbered(name, at) && resolved !in names
    ensures forall n :: count <= n < at ==> Numbered(name, n) in names
  {
    at := count;
    resolved := Numbered(name, at);
    ghost var left := names.Keys;
    while resolved in names
      invariant count <= at && resolved == Numbered(name, at)
      invariant forall n :: count <= n < at ==> Numbered(name, n) in names
      invariant forall n: nat :: at <= n && Numbered(name, n) in names ==> Numbered(name, n) in left
      decreases left
    {
      forall n: nat | at < n
        ensures Numbered(name, n) != Numbered(name, at)
      {
        if Numbered(name, n) == Numbered(name, at) {
          NumberedInjective(name, n, at);
        }
      }
      left := left - {resolved};
      at := at + 1;
      resolved := Numbered(name, at);
    }
  }

  /** `names` has the number to try next for each name; the numbers before it are taken. */
  ghost predicate Counted(names: map<string, nat>) {
    && (forall x :: x in names ==> names[x] > 0)
    && (forall x, k: nat :: x in names && 0 < k < names[x] ==> Numbered(x, k) in names)
  }

  ghost predicate IsNumbered(x: string, name: string) {
    exists n: nat :: n > 0 && x == Numbered(name, n)
  }

  function Bumped(names: map<string, nat>, x: string): map<string, nat> {
    names[x := (if x in names then names[x] else 0) + 1]
  }

  /** `x` is `name` with the first number that is not in the map. */
  ghost predicate IsFreeIn(names: map<string, nat>, x: string, name: string) {
    exists n: nat :: n > 0 && x == Numbered(name, n) && forall k: nat :: 0 < k < n ==> Numbered(name, k) in names
  }

  method NameColumn(col: Field, names: map<string, nat>) returns (name: string, names': map<string, nat>)
    requires Counted(names)
    ensures Counted(names') && name !in names && names'.Keys == names.Keys + {name}
    ensures Name(col) !in names ==> name == Name(col)
    ensures Name(col) in names ==> IsFreeIn(names, name, Name(col))
  {
    name, names' := Name(col), names;
    if name in names {
      var resolved, at := Resolve(name, names, names[name]);
      names' := names'[name := at + 1];
      name := resolved;
    }
    names' := Bumped(names', name);
  }

  /** Column `j` has its name once the aliases are done and the first `i` columns. */
  predicate Settled(cols: seq<Field>, j: nat, i: nat)
    requires j < |cols|
  {
    cols[j].alias != "" || j < i
  }

  /** Name `x` is given to a settled column. */
  predicate Given(cols: seq<Field>, out: seq<string>, i: nat, x: string)
    requires |out| == |cols|
  {
    exists j :: 0 <= j < |cols| && Settled(cols, j, i) && out[j] == x
  }

  /** `x` is `name` with the first number that is not given. */
  ghost predicate IsFirstFree(cols: seq<Field>, out: seq<string>, i: nat, x: string, name: string)
    requires |out| == |cols|
  {
    exists n: nat :: n > 0 && x == Numbered(name, n) && NumbersGiven(cols, out, i, name, n)
  }

  /** All numbers below `n` are given. */
  ghost predicate NumbersGiven(cols: seq<Field>, out: seq<string>, i: nat, name: string, n: nat)
    requires |out| == |cols|
  {
    forall k: nat :: 0 < k < n ==> Given(cols, out, i, Numbered(name, k))
  }

  /** What is promised of column `j` and its name. */
  ghost predicate Proper(cols: seq<Field>, out: seq<string>, j: nat)
    requires j < |out| == |cols|
  {
    if cols[j].alias != "" then out[j] == cols[j].alias
    else
      // the name is nobody else's, and it is the column's own name, with the first free number if that
      // was taken
      && (forall k :: 0 <= k < |cols| && k != j && Settled(cols, k, j) ==> out[k] != out[j])
      && (Given(cols, out, j, Name(cols[j])) ==> IsFirstFree(cols, out, j, out[j], Name(cols[j])))
      && (!Given(cols, out, j, Name(cols[j])) ==> out[j] == Name(cols[j]))
  }

  ghost predicate IsNaming(cols: seq<Field>, out: seq<string>, i: nat) {
    && |out| == |cols|
    && forall j: nat :: j < |cols| && Settled(cols, j, i) ==> Proper(cols, out, j)
  }

  /** What is given does not depend on a column that is not settled. */
  lemma GivenKept(cols: seq<Field>, out: seq<string>, i: nat, name: string, j: nat, x: string)
    requires i < |cols| == |out| && cols[i].alias == "" && j <= i
    ensures Given(cols, out[i := name], j, x) <==> Given(cols, out, j, x)
  {
    var out' := out[i := name];
    if Given(cols, out, j, x) {
      var k :| 0 <= k < |cols| && Settled(cols, k, j) && out[k] == x;
      assert out'[k] == x;
    }
    if Given(cols, out', j, x) {
      var k :| 0 <= k < |cols| && Settled(cols, k, j) && out'[k] == x;
      assert out[k] == x;
    }
  }

  lemma GivenNext(cols: seq<Field>, out: seq<string>, i: nat, name: string, x: string)
    requires i < |cols| == |out| && cols[i].alias == ""
    ensures Given(cols, out[i := name], i + 1, x) <==> Given(cols, out, i, x) || x == name
  {
    var out' := out[i := name];
    if x == name {
      assert Settled(cols, i, i + 1) && out'[i] == x;
    }
    if Given(cols, out, i, x) {
      var k :| 0 <= k < |cols| && Settled(cols, k, i) && out[k] == x;
      assert Settled(cols, k, i + 1) && out'[k] == x;
    }
    if Given(cols, out', i + 1, x) {
      var k :| 0 <= k < |cols| && Settled(cols, k, i + 1) && out'[k] == x;
      assert k == i || (Settled(cols, k, i) && out[k] == x);
    }
  }

  /** The keys of the map are the names that are given. */
  ghost predicate Tracks(cols: seq<Field>, out: seq<string>, i: nat, names: map<string, nat>) {
    |out| == |cols| && forall x :: x in names <==> Given(cols, out, i, x)
  }

  lemma TracksNext(cols: seq<Field>, out: seq<string>, i: nat, names: map<string, nat>, name: string,
                   names': map<string, nat>)
    requires i < |cols| && cols[i].alias == "" && Tracks(cols, out, i, names)
    requires names'.Keys == names.Keys + {name}
    ensures Tracks(cols, out[i := name], i + 1, names')
  {
    forall x
      ensures x in names' <==> Given(cols, out[i := name], i + 1, x)
    {
      GivenNext(cols, out, i, name, x);
    }
  }

  lemma TracksFree(cols: seq<Field>, out: seq<string>, i: nat, names: map<string, nat>, x: string, name: string)
    requires Tracks(cols, out, i, names) && IsFreeIn(names, x, name)
    ensures IsFirstFree(cols, out, i, x, name)
  {
    var n: nat :| n > 0 && x == Numbered(name, n) && forall k: nat :: 0 < k < n ==> Numbered(name, k) in names;
    assert NumbersGiven(cols, out, i, name, n);
  }

  lemma ProperKept(cols: seq<Field>, out: seq<string>, i: nat, name: string, j: nat)
    requires j < |cols| == |out| && i < |cols| && cols[i].alias == "" && Settled(cols, j, i) && Proper(cols, out, j)
    ensures Proper(cols, out[i := name], j)
  {
    if cols[j].alias == "" {
      GivenKept(cols, out, i, name, j, Name(cols[j]));
      assert forall k :: 0 <= k < |cols| && Settled(cols, k, j) ==> k != i;
      if Given(cols, out, j, Name(cols[j])) {
        FirstFreeKept(cols, out, i, name, j, out[j], Name(cols[j]));
      }
    }
  }

  lemma FirstFreeKept(cols: seq<Field>, out: seq<string>, i: nat, name: string, j: nat, x: string, own: string)
    requires i < |cols| == |out| && cols[i].alias == "" && j <= i && IsFirstFree(cols, out, j, x, own)
    ensures IsFirstFree(cols, out[i := name], j, x, own)
  {
    var n: nat :| n > 0 && x == Numbered(own, n) && NumbersGiven(cols, out, j, own, n);
    forall k: nat | 0 < k < n
      ensures Given(cols, out[i := name], j, Numbered(own, k))
    {
      GivenKept(cols, out, i, name, j, Numbered(own, k));
    }
  }

  lemma ProperNext(cols: seq<Field>, out: seq<string>, i: nat, name: string)
    requires i < |cols| == |out| && cols[i].alias == "" && !Given(cols, out, i, name)
    requires if Given(cols, out, i, Name(cols[i])) then IsFirstFree(cols, out, i, name, Name(cols[i]))
             else name == Name(cols[i])
    ensures Proper(cols, out[i := name], i)
  {
    var out' := out[i := name];
    GivenKept(cols, out, i, name, i, Name(cols[i]));
    if Given(cols, out, i, Name(cols[i])) {
      FirstFreeKept(cols, out, i, name, i, name, Name(cols[i]));
    }
    forall k | 0 <= k < |cols| && k != i && Settled(cols, k, i)
      ensures out'[k] != name
    {
      assert out'[k] == out[k];
    }
  }

  /** Naming one more column leaves the others as they are. */
  lemma NamingNext(cols: seq<Field>, out: seq<string>, i: nat, name: string)
    requires i < |cols| && IsNaming(cols, out, i) && cols[i].alias == "" && !Given(cols, out, i, name)
    requires if Given(cols, out, i, Name(cols[i])) then IsFirstFree(cols, out, i, name, Name(cols[i]))
             else name == Name(cols[i])
    ensures IsNaming(cols, out[i := name], i + 1)
  {
    var out' := out[i := name];
    forall j: nat | j < |cols| && Settled(cols, j, i + 1)
      ensures Proper(cols, out', j)
    {
      if j == i {
        ProperNext(cols, out, i, name);
      } else {
        assert Settled(cols, j, i);
        ProperKept(cols, out, i, name, j);
      }
    }
  }

  // ---------------------------------------------------------------------------------------
  // All columns
  // ---------------------------------------------------------------------------------------

  /** The columns of a slice after the implicit time column. */
  ghost function Named(a: array<string>, offset: nat): seq<string>
    requires offset <= a.Length
    reads a
  {
    a[offset..]
  }

  method ResolveAliases(cols: seq<Field>, a: array<string>, offset: nat) returns (names: map<string, nat>)
    requires a.Length == |cols| + offset
    requires forall j :: 0 <= j < |cols| ==> Named(a, offset)[j] == ""
    modifies a
    ensures a[..offset] == old(a[..offset])
    ensures forall j :: 0 <= j < |cols| ==> Named(a, offset)[j] == cols[j].alias
    ensures Counted(names) && Tracks(cols, Named(a, offset), 0, names)
  {
    names := map[];
    for i := 0 to |cols|
      invariant a[..offset] == old(a[..offset])
      invariant forall j :: 0 <= j < |cols| ==> Named(a, offset)[j] == if j < i then cols[j].alias else ""
      invariant Counted(names)
      invariant forall x :: x in names <==> exists j :: 0 <= j < i && cols[j].alias != "" && cols[j].alias == x
    {
      if cols[i].alias != "" {
        a[i + offset] := cols[i].alias;
        names := names[cols[i].alias := 1];
      }
    }
    forall x
      ensures x in names <==> Given(cols, Named(a, offset), 0, x)
    {
      if Given(cols, Named(a, offset), 0, x) {
        var j :| 0 <= j < |cols| && Settled(cols, j, 0) && Named(a, offset)[j] == x;
        assert cols[j].alias == x;
      }
      if x in names {
        var j :| 0 <= j < |cols| && cols[j].alias != "" && cols[j].alias == x;
        assert Settled(cols, j, 0) && Named(a, offset)[j] == x;
      }
    }
  }

  method ResolveNames(cols: seq<Field>, a: array<string>, offset: nat, aliases: map<string, nat>)
    requires a.Length == |cols| + offset
    requires forall j :: 0 <= j < |cols| ==> Named(a, offset)[j] == cols[j].alias
    requires Counted(aliases) && Tracks(cols, Named(a, offset), 0, aliases)
    modifies a
    ensures a[..offset] == old(a[..offset])
    ensures IsNaming(cols, Named(a, offset), |cols|)
  {
    var names := aliases;
    for i := 0 to |cols|
      invariant a[..offset] == old(a[..offset])
      invariant IsNaming(cols, Named(a, offset), i)
      invariant forall j :: i <= j < |cols| ==> Named(a, offset)[j] == cols[j].alias
      invariant Counted(names) && Tracks(cols, Named(a, offset), i, names)
    {
      ghost var out, before := Named(a, offset), names;
      if a[i + offset] != "" {
        SettledStays(cols, out, i, names);
        continue;
      }
      var name;
      name, names := NameColumn(cols[i], names);
      if Name(cols[i]) in before {
        TracksFree(cols, out, i, before, name, Name(cols[i]));
      }
      NamingNext(cols, out, i, name);
      TracksNext(cols, out, i, before, name, names);
      a[i + offset] := name;
      assert Named(a, offset) == out[i := name];
    }
  }

  /** A column with an alias changes nothing. */
  lemma SettledStays(cols: seq<Field>, out: seq<string>, i: nat, names: map<string, nat>)
    requires i < |cols| && cols[i].alias != "" && IsNaming(cols, out, i) && Tracks(cols, out, i, names)
    ensures IsNaming(cols, out, i + 1) && Tracks(cols, out, i + 1, names)
  {
    assert forall j: nat :: j < |cols| ==> (Settled(cols, j, i + 1) <==> Settled(cols, j, i));
  }

  /** First walks the fields to find the columns. */
  method ColumnFields(fields: seq<Field>) returns (cols: seq<Field>)
    requires forall f :: f in fields ==> WellFormed(f)
    ensures cols == Columns(fields)
  {
    cols := [];
    for i := 0 to |fields|
      invariant cols == Columns(fields[..i])
    {
      assert fields[..i + 1][..i] == fields[..i];
      assert fields[i] in fields;
      var expanded := ExpandField(fields[i]);
      cols := cols + expanded;
    }
    assert fields[..|fields|] == fields;
  }

  method ExpandField(f: Field) returns (cols: seq<Field>)
    requires WellFormed(f)
    ensures cols == Expanded(f)
  {
    cols := [f];
    if IsSelector(f.expr) {
      var refs := ArgumentColumns(f.expr.args[1..]);
      cols := cols + refs;
    }
  }

  method ArgumentColumns(args: seq<Expr>) returns (cols: seq<Field>)
    ensures cols == RefsOf(args)
  {
    cols := [];
    for i := 0 to |args|
      invariant cols + RefsOf(args[i..]) == RefsOf(args)
    {
      assert args[i..][1..] == args[i + 1..];
      if args[i].VarRef? {
        cols := cols + [Field(args[i], "")];
      }
    }
  }

  method ColumnNames(fields: seq<Field>, omitTime: bool, timeAlias: string) returns (columnNames: array<string>)
    requires forall f :: f in fields ==> WellFormed(f)
    ensures var offset := if omitTime then 0 else 1;
            && columnNames.Length == |Columns(fields)| + offset
            && (!omitTime ==> columnNames[0] == TimeFieldName(timeAlias))
            && IsNaming(Columns(fields), columnNames[offset..], |Columns(fields)|)
  {
    var cols := ColumnFields(fields);
    var offset := 0;
    if !omitTime {
      offset := 1;
    }
    columnNames := new string[|cols| + offset](_ => "");
    if !omitTime {
      columnNames[0] := TimeFieldName(timeAlias);
    }
    var names := ResolveAliases(cols, columnNames, offset);
    assert !omitTime ==> columnNames[..offset][0] == TimeFieldName(timeAlias);
    ResolveNames(cols, columnNames, offset, names);
    assert !omitTime ==> columnNames[..offset][0] == TimeFieldName(timeAlias);
  }

  // ---------------------------------------------------------------------------------------
  // What that gives
  // ---------------------------------------------------------------------------------------

  /** A generated name is unlike every other column's name. */
  lemma GeneratedNamesAreUnique(cols: seq<Field>, out: seq<string>, i: nat, j: nat)
    requires IsNaming(cols, out, |cols|) && i < |cols| && j < |cols| && i != j && cols[i].alias == ""
    ensures out[i] != out[j]
  {
    assert Settled(cols, i, |cols|) && Settled(cols, j, |cols|);
    assert Proper(cols, out, i) && Proper(cols, out, j);
    if cols[j].alias == "" && i < j {
      assert Settled(cols, i, j);
    } else {
      assert Settled(cols, j, i);
    }
  }

  /** All columns have different names exactly if the aliases are different. */
  lemma NamesDistinctExactly(cols: seq<Field>, out: seq<string>)
    requires IsNaming(cols, out, |cols|)
    ensures (forall i, j :: 0 <= i < j < |cols| ==> out[i] != out[j])
       <==> (forall i, j :: 0 <= i < j < |cols| && cols[i].alias != "" ==> cols[i].alias != cols[j].alias)
  {
    forall i, j | 0 <= i < j < |cols|
      ensures out[i] == out[j] <==> cols[i].alias != "" && cols[i].alias == cols[j].alias
    {
      assert Settled(cols, i, |cols|) && Settled(cols, j, |cols|);
      assert Proper(cols, out, i) && Proper(cols, out, j);
      if cols[i].alias == "" {
        GeneratedNamesAreUnique(cols, out, i, j);
      } else if cols[j].alias == "" {
        GeneratedNamesAreUnique(cols, out, j, i);
      }
    }
  }

  lemma {:induction false} DecimalEndsInDigit(n: nat)
    ensures |Decimal(n)| > 0 && '0' <= Decimal(n)[|Decimal(n)| - 1] <= '9'
  {
    assert n >= 10 ==> Decimal(n)[|Decimal(n)| - 1] == Digit(n % 10);
  }

  /** A numbered name ends in a digit, so "time" is not one. */
  lemma TimeIsNotNumbered(name: string)
    ensures !IsNumbered("time", name)
  {
    forall n: nat
      ensures Numbered(name, n) != "time"
    {
      DecimalEndsInDigit(n);
      var x := Numbered(name, n);
      assert x[|x| - 1] == Decimal(n)[|Decimal(n)| - 1];
      assert "time"[3] == 'e';
    }
  }

  /** If a column is to be called `x`, some column is. */
  lemma WantedNameIsGiven(cols: seq<Field>, out: seq<string>, x: string, j: nat)
    requires IsNaming(cols, out, |cols|) && j < |cols| && Name(cols[j]) == x
    ensures exists k :: 0 <= k < |cols| && out[k] == x
  {
    assert Settled(cols, j, |cols|) && Proper(cols, out, j);
    if cols[j].alias == "" && Given(cols, out, j, x) {
      var k :| 0 <= k < |cols| && Settled(cols, k, j) && out[k] == x;
    }
  }

  lemma GivenAlike(cols: seq<Field>, a: seq<string>, b: seq<string>, i: nat, x: string)
    requires |a| == |b| == |cols| && (forall k :: 0 <= k < |cols| && Settled(cols, k, i) ==> a[k] == b[k])
    ensures Given(cols, a, i, x) <==> Given(cols, b, i, x)
  {
  }

  lemma FirstFreeOnce(cols: seq<Field>, a: seq<string>, b: seq<string>, i: nat, name: string, m: nat, n: nat)
    requires |a| == |b| == |cols| && (forall k :: 0 <= k < |cols| && Settled(cols, k, i) ==> a[k] == b[k])
    requires 0 < m && 0 < n && !Given(cols, a, i, Numbered(name, m)) && NumbersGiven(cols, b, i, name, n)
    ensures n <= m
  {
    if m < n {
      GivenAlike(cols, a, b, i, Numbered(name, m));
    }
  }

  /** A column whose own name is taken, and `x` is that name with a number that all smaller ones are taken
      for as well. */
  ghost predicate Generates(cols: seq<Field>, out: seq<string>, j: nat, x: string)
    requires j < |cols| == |out|
  {
    cols[j].alias == "" && Given(cols, out, j, Name(cols[j])) && IsFirstFree(cols, out, j, x, Name(cols[j]))
  }

  /** Then `x` is given, to that column or to one before it. */
  lemma GeneratedNameIsGiven(cols: seq<Field>, out: seq<string>, x: string, j: nat)
    requires IsNaming(cols, out, |cols|) && j < |cols| && Generates(cols, out, j, x)
    ensures exists k :: 0 <= k < |cols| && out[k] == x
  {
    var name := Name(cols[j]);
    var n: nat :| n > 0 && x == Numbered(name, n) && NumbersGiven(cols, out, j, name, n);
    assert Settled(cols, j, |cols|) && Proper(cols, out, j);
    var m: nat :| m > 0 && out[j] == Numbered(name, m) && NumbersGiven(cols, out, j, name, m);
    OwnNameIsFree(cols, out, j);
    FirstFreeOnce(cols, out, out, j, name, m, n);
    if n < m {
      assert Given(cols, out, j, x);
    }
  }

  lemma OwnNameIsFree(cols: seq<Field>, out: seq<string>, j: nat)
    requires j < |cols| == |out| && cols[j].alias == "" && Proper(cols, out, j)
    ensures !Given(cols, out, j, out[j])
  {
  }

  /** The implicit time column takes no part in naming. A column repeats its name `x` exactly if a column's
      alias or expression has that name, or one generates it. */
  lemma NameRepeatsExactly(cols: seq<Field>, out: seq<string>, x: string)
    requires IsNaming(cols, out, |cols|)
    ensures (exists j :: 0 <= j < |cols| && out[j] == x)
       <==> (exists j: nat :: j < |cols| && (Name(cols[j]) == x || Generates(cols, out, j, x)))
  {
    if j: nat :| j < |cols| && (Name(cols[j]) == x || Generates(cols, out, j, x)) {
      if Name(cols[j]) == x {
        WantedNameIsGiven(cols, out, x, j);
      } else {
        GeneratedNameIsGiven(cols, out, x, j);
      }
    }
    if j: nat :| j < |cols| && out[j] == x {
      assert Settled(cols, j, |cols|) && Proper(cols, out, j);
      assert Name(cols[j]) == x || Generates(cols, out, j, x);
    }
  }

  /** So the default name of the time column is repeated exactly if a column is called "time". */
  lemma TimeNameRepeatsExactly(cols: seq<Field>, out: seq<string>)
    requires IsNaming(cols, out, |cols|)
    ensures (exists j :: 0 <= j < |cols| && out[j] == TimeFieldName(""))
       <==> (exists j :: 0 <= j < |cols| && Name(cols[j]) == "time")
  {
    forall name: string {
      TimeIsNotNumbered(name);
    }
    NameRepeatsExactly(cols, out, "time");
    forall j: nat | j < |cols|
      ensures !Generates(cols, out, j, "time")
    {
      assert !IsNumbered("time", Name(cols[j]));
    }
  }

  /** `SELECT value AS time` does that. */
  lemma TimeNameMayRepeat(out: seq<string>)
    requires IsNaming([Field(VarRef("value", 0), "time")], out, 1)
    ensures out == [TimeFieldName("")]
  {
    var cols := [Field(VarRef("value", 0), "time")];
    assert Settled(cols, 0, 1) && Proper(cols, out, 0);
  }

  // ---------------------------------------------------------------------------------------
  // The names are determined, and which numbers occur
  // ---------------------------------------------------------------------------------------

  lemma SameName(cols: seq<Field>, a: seq<string>, b: seq<string>, j: nat)
    requires j < |cols| == |a| == |b| && cols[j].alias == "" && Proper(cols, a, j) && Proper(cols, b, j)
    requires forall k :: 0 <= k < |cols| && Settled(cols, k, j) ==> a[k] == b[k]
    ensures a[j] == b[j]
  {
    var name := Name(cols[j]);
    GivenAlike(cols, a, b, j, name);
    if Given(cols, a, j, name) {
      var m: nat :| m > 0 && a[j] == Numbered(name, m) && NumbersGiven(cols, a, j, name, m);
      var n: nat :| n > 0 && b[j] == Numbered(name, n) && NumbersGiven(cols, b, j, name, n);
      OwnNameIsFree(cols, a, j);
      OwnNameIsFree(cols, b, j);
      FirstFreeOnce(cols, a, b, j, name, m, n);
      FirstFreeOnce(cols, b, a, j, name, n, m);
    }
  }

  lemma {:induction false} SameNamesUpTo(cols: seq<Field>, a: seq<string>, b: seq<string>, i: nat)
    requires i <= |cols| && IsNaming(cols, a, |cols|) && IsNaming(cols, b, |cols|)
    ensures forall k :: 0 <= k < |cols| && Settled(cols, k, i) ==> a[k] == b[k]
  {
    forall k: nat | k < |cols|
      ensures Proper(cols, a, k) && Proper(cols, b, k)
      ensures Settled(cols, k, 0) ==> a[k] == b[k]
    {
      assert Settled(cols, k, |cols|);
    }
    if i > 0 {
      SameNamesUpTo(cols, a, b, i - 1);
      if cols[i - 1].alias == "" {
        SameName(cols, a, b, i - 1);
      }
      assert forall k :: 0 <= k < |cols| && Settled(cols, k, i) ==> k == i - 1 || Settled(cols, k, i - 1);
    }
  }

  /** What is promised leaves no freedom. */
  lemma NamingUnique(cols: seq<Field>, a: seq<string>, b: seq<string>)
    requires IsNaming(cols, a, |cols|) && IsNaming(cols, b, |cols|)
    ensures a == b
  {
    SameNamesUpTo(cols, a, b, |cols|);
    assert forall k :: 0 <= k < |cols| ==> Settled(cols, k, |cols|);
  }

  lemma {:induction false} DecimalHasNoUnderscore(n: nat)
    ensures forall i :: 0 <= i < |Decimal(n)| ==> Decimal(n)[i] != '_'
  {
    if n >= 10 {
      DecimalHasNoUnderscore(n / 10);
    }
  }

  /** Name and number can be read off a numbered name. */
  lemma NumberedApart(a: string, m: nat, b: string, n: nat)
    requires Numbered(a, m) == Numbered(b, n)
    ensures a == b && m == n
  {
    var x := Numbered(a, m);
    DecimalHasNoUnderscore(m);
    DecimalHasNoUnderscore(n);
    assert x[|a|] == '_' && forall i :: |a| < i < |x| ==> x[i] == Decimal(m)[i - |a| - 1];
    assert x[|b|] == '_' && forall i :: |b| < i < |x| ==> x[i] == Decimal(n)[i - |b| - 1];
    assert |a| == |b|;
    assert a == x[..|a|] && b == x[..|b|];
    NumberedInjective(a, m, n);
  }

  /** How many of the first `i` columns are called `name` without an alias. */
  function OwnCount(cols: seq<Field>, name: string, i: nat): nat
    requires i <= |cols|
  {
    if i == 0 then 0
    else OwnCount(cols, name, i - 1) + if cols[i - 1].alias == "" && Name(cols[i - 1]) == name then 1 else 0
  }

  predicate HasAlias(cols: seq<Field>, name: string) {
    exists j :: 0 <= j < |cols| && cols[j].alias != "" && cols[j].alias == name
  }

  /** How often `name` is wanted; aliases count once. */
  function Wanted(cols: seq<Field>, name: string, i: nat): nat
    requires i <= |cols|
  {
    OwnCount(cols, name, i) + if HasAlias(cols, name) then 1 else 0
  }

  /** No column is called `name` with a number, and `name` is not a column's name with a number. */
  ghost predicate IsPlain(cols: seq<Field>, name: string) {
    && (forall j, k: nat :: 0 <= j < |cols| ==> Name(cols[j]) != Numbered(name, k))
    && (forall j, k: nat :: 0 <= j < |cols| ==> name != Numbered(Name(cols[j]), k))
  }

  lemma GivenStep(cols: seq<Field>, out: seq<string>, i: nat, x: string)
    requires i < |cols| && IsNaming(cols, out, |cols|)
    ensures Given(cols, out, i + 1, x) <==> Given(cols, out, i, x) || out[i] == x
  {
    assert Settled(cols, i, i + 1);
    if Given(cols, out, i, x) {
      var k :| 0 <= k < |cols| && Settled(cols, k, i) && out[k] == x;
      assert Settled(cols, k, i + 1);
    }
    if Given(cols, out, i + 1, x) {
      var k :| 0 <= k < |cols| && Settled(cols, k, i + 1) && out[k] == x;
      assert k == i || Settled(cols, k, i);
    }
  }

  /** Which of the names `name`, `name_1`, `name_2`, ... are given after `i` columns. */
  ghost predicate NumbersAre(cols: seq<Field>, out: seq<string>, name: string, i: nat, wanted: nat)
    requires |out| == |cols|
  {
    && (Given(cols, out, i, name) <==> wanted > 0)
    && (forall k: nat :: k > 0 ==> (Given(cols, out, i, Numbered(name, k)) <==> k < wanted))
  }

  /** One more column of that name takes the next number. */
  lemma NextNumber(cols: seq<Field>, out: seq<string>, name: string, i: nat, wanted: nat)
    requires i < |cols| && IsNaming(cols, out, |cols|) && cols[i].alias == "" && Name(cols[i]) == name
    requires NumbersAre(cols, out, name, i, wanted)
    ensures out[i] == if wanted == 0 then name else Numbered(name, wanted)
  {
    assert Settled(cols, i, |cols|) && Proper(cols, out, i);
    if wanted > 0 {
      var n: nat :| n > 0 && out[i] == Numbered(name, n) && NumbersGiven(cols, out, i, name, n);
      OwnNameIsFree(cols, out, i);
      FirstFreeOnce(cols, out, out, i, name, wanted, n);
    }
  }

  /** Any other column takes none of these names. */
  lemma OtherNumber(cols: seq<Field>, out: seq<string>, name: string, i: nat, k: nat)
    requires i < |cols| && IsNaming(cols, out, |cols|) && IsPlain(cols, name)
    requires cols[i].alias == "" && Name(cols[i]) != name
    ensures out[i] != name && out[i] != Numbered(name, k)
  {
    var other := Name(cols[i]);
    assert Settled(cols, i, |cols|) && Proper(cols, out, i);
    assert other != Numbered(name, k);
    if Given(cols, out, i, other) {
      var n: nat :| n > 0 && out[i] == Numbered(other, n) && NumbersGiven(cols, out, i, other, n);
      assert name != Numbered(other, n);
      if out[i] == Numbered(name, k) {
        NumberedApart(other, n, name, k);
      }
    }
  }

  lemma NumbersStep(cols: seq<Field>, out: seq<string>, name: string, i: nat)
    requires i < |cols| && IsNaming(cols, out, |cols|) && IsPlain(cols, name)
    requires NumbersAre(cols, out, name, i, Wanted(cols, name, i))
    ensures NumbersAre(cols, out, name, i + 1, Wanted(cols, name, i + 1))
  {
    var w := Wanted(cols, name, i);
    GivenStep(cols, out, i, name);
    forall k: nat
      ensures Given(cols, out, i + 1, Numbered(name, k)) <==>
              Given(cols, out, i, Numbered(name, k)) || out[i] == Numbered(name, k)
    {
      GivenStep(cols, out, i, Numbered(name, k));
    }
    if cols[i].alias != "" {
      assert Settled(cols, i, i) && Given(cols, out, i, out[i]);
    } else if Name(cols[i]) == name {
      NextNumber(cols, out, name, i, w);
      forall k: nat
        ensures out[i] == Numbered(name, k) <==> w > 0 && k == w
      {
        if out[i] == Numbered(name, k) && w > 0 {
          NumberedInjective(name, k, w);
        }
        assert |Numbered(name, k)| > |name|;
      }
    } else {
      forall k: nat
        ensures out[i] != name && out[i] != Numbered(name, k)
      {
        OtherNumber(cols, out, name, i, k);
      }
      OtherNumber(cols, out, name, i, 0);
    }
  }

  lemma {:induction false} NumbersUpTo(cols: seq<Field>, out: seq<string>, name: string, i: nat)
    requires i <= |cols| && IsNaming(cols, out, |cols|) && IsPlain(cols, name)
    ensures NumbersAre(cols, out, name, i, Wanted(cols, name, i))
  {
    if i == 0 {
      forall j: nat | j < |cols|
        ensures Settled(cols, j, 0) ==> out[j] == cols[j].alias == Name(cols[j])
      {
        assert Settled(cols, j, |cols|) && Proper(cols, out, j);
      }
      if HasAlias(cols, name) {
        var j :| 0 <= j < |cols| && cols[j].alias != "" && cols[j].alias == name;
        assert Settled(cols, j, 0) && out[j] == name;
      }
    } else {
      NumbersUpTo(cols, out, name, i - 1);
      NumbersStep(cols, out, name, i - 1);
    }
  }

  /** A time alias of numbered form is repeated exactly if the name without its number is wanted more often
      than that. */
  lemma NumberRepeatsExactly(cols: seq<Field>, out: seq<string>, name: string, n: nat)
    requires IsNaming(cols, out, |cols|) && IsPlain(cols, name) && n > 0
    ensures (exists j :: 0 <= j < |cols| && out[j] == Numbered(name, n)) <==> n < Wanted(cols, name, |cols|)
  {
    NumbersUpTo(cols, out, name, |cols|);
    assert forall j :: 0 <= j < |cols| ==> Settled(cols, j, |cols|);
  }

  /** `SELECT time AS value_1, value, value` repeats `value_1`, which no column asks for. */
  lemma NumberMayRepeat(out: seq<string>)
    requires var value := Field(VarRef("value", 0), ""); IsNaming([value, value], out, 2)
    ensures out == ["value", TimeFieldName("value_1")]
  {
    var value := Field(VarRef("value", 0), "");
    var cols := [value, value];
    assert Settled(cols, 0, 2) && Proper(cols, out, 0) && Settled(cols, 1, 2) && Proper(cols, out, 1);
    assert !Given(cols, out, 0, "value");
    assert Settled(cols, 0, 1) && Given(cols, out, 1, "value");
    var n: nat :| n > 0 && out[1] == Numbered("value", n) && NumbersGiven(cols, out, 1, "value", n);
    assert Decimal(1) == "1" && "value" + "_" + "1" == "value_1";
    assert !Given(cols, out, 1, Numbered("value", 1));
    FirstFreeOnce(cols, out, out, 1, "value", 1, n);
  }

  // ---------------------------------------------------------------------------------------
  // The name of an expression, by its parts
  // ---------------------------------------------------------------------------------------

  function OwnName(e: Expr): string { Name(Field(e, "")) }

  /** Somewhere outside the arguments of calls there is a variable or a call. */
  predicate Mentions(e: Expr) {
    match e
    case VarRef(_, _) => true
    case Call(_, _) => true
    case Binary(_, lhs, rhs) => Mentions(lhs) || Mentions(rhs)
    case Paren(inner) => Mentions(inner)
    case _ => false
  }

  lemma {:induction false} MentionsExactly(e: Expr)
    ensures Mentions(e) <==> References(e) != []
  {
    match e
    case Binary(_, lhs, rhs) =>
      MentionsExactly(lhs);
      MentionsExactly(rhs);
    case Paren(inner) => MentionsExactly(inner);
    case _ =>
  }

  lemma {:induction false} UnderscoredAppend(a: seq<string>, b: seq<string>)
    ensures Underscored(a + b) ==
            if a == [] then Underscored(b) else if b == [] then Underscored(a)
            else Underscored(a) + "_" + Underscored(b)
  {
    if a == [] {
      assert a + b == b;
    } else if b == [] {
      assert a + b == a;
    } else {
      assert (a + b)[1..] == a[1..] + b;
      UnderscoredAppend(a[1..], b);
      if |a| > 1 {
        var x, y, z := a[0] + "_", Underscored(a[1..]), "_" + Underscored(b);
        assert x + (y + z) == x + y + z;
        assert a[1..] != [] && Underscored(a[1..] + b) == y + "_" + Underscored(b) == y + z;
      }
    }
  }

  lemma {:induction false} OwnNameIsReferences(e: Expr)
    ensures OwnName(e) == Underscored(References(e))
  {
    if e.Paren? {
      OwnNameIsReferences(e.inner);
    }
  }

  /** The own name of every expression, by the names of its parts: a variable or a call gives its name,
      parentheses none, an operator joins the names of the operands that have one. */
  lemma OwnNameExactly(e: Expr)
    ensures match e
            case VarRef(name, _) => OwnName(e) == name
            case Call(fn, _) => OwnName(e) == fn
            case Paren(inner) => OwnName(e) == OwnName(inner)
            case Binary(_, lhs, rhs) =>
              OwnName(e) == if !Mentions(lhs) then OwnName(rhs) else if !Mentions(rhs) then OwnName(lhs)
                            else OwnName(lhs) + "_" + OwnName(rhs)
            case _ => OwnName(e) == ""
  {
    if e.Binary? {
      MentionsExactly(e.lhs);
      MentionsExactly(e.rhs);
      UnderscoredAppend(References(e.lhs), References(e.rhs));
      OwnNameIsReferences(e.lhs);
      OwnNameIsReferences(e.rhs);
    }
  }

  /** The further columns of `top` and `bottom`: one for each argument that is a variable, in order. */
  lemma {:induction false} RefsOfAppend(a: seq<Expr>, b: seq<Expr>)
    ensures RefsOf(a + b) == RefsOf(a) + RefsOf(b)
  {
    if a == [] {
      assert a + b == b;
    } else {
      assert (a + b)[1..] == a[1..] + b;
      RefsOfAppend(a[1..], b);
    }
  }

  lemma RefsOfExactly(a: seq<Expr>, e: Expr)
    ensures RefsOf(a + [e]) == if e.VarRef? then RefsOf(a) + [Field(e, "")] else RefsOf(a)
  {
    RefsOfAppend(a, [e]);
    assert [e][1..] == [];
  }

  // ---------------------------------------------------------------------------------------
  // Decimal numerals
  // ---------------------------------------------------------------------------------------

  /** What a numeral stands for, read from the left. */
  function NumeralValue(s: string): int {
    if s == [] then 0 else 10 * NumeralValue(s[..|s| - 1]) + s[|s| - 1] as int - '0' as int
  }

  predicate AllDigits(s: string) {
    forall i :: 0 <= i < |s| ==> '0' <= s[i] <= '9'
  }

  /** `Decimal` writes the number: digits only, of that value, and no leading zero. */
  lemma {:induction false} DecimalExactly(n: nat)
    ensures NumeralValue(Decimal(n)) == n && AllDigits(Decimal(n))
    ensures |Decimal(n)| == 1 || Decimal(n)[0] != '0'
    ensures n > 0 ==> Decimal(n)[0] != '0'
  {
    var d := Decimal(n);
    if n < 10 {
      assert d[..0] == [];
    } else {
      DecimalExactly(n / 10);
      DecimalNotEmpty(n / 10);
      assert d[..|d| - 1] == Decimal(n / 10);
    }
  }
}
