/** Sorted chains: what insertion and deletion do to a chain that is in ascending order, over any
    number of operations. */
module FastdfsChainSorted {
  import opened Common
  import opened FastdfsChain

  /** A comparison function of a total preorder. */
  ghost predicate IsOrder(cmp: Compare) {
    && (forall x, y :: cmp(x, y) < 0 <==> cmp(y, x) > 0)
    && (forall x, y, z :: Transits(cmp, x, y, z))
  }

  predicate Transits(cmp: Compare, x: Data, y: Data, z: Data) {
    cmp(x, y) <= 0 && cmp(y, z) <= 0 ==> cmp(x, z) <= 0
  }

  predicate Ascending(cmp: Compare, s: seq<Data>) {
    forall i, j :: 0 <= i < j < |s| ==> cmp(s[i], s[j]) <= 0
  }

  // ---------------------------------------------------------------------------------------
  // Insertion
  // ---------------------------------------------------------------------------------------

  lemma {:induction false} SlotSplits(cmp: Compare, s: seq<Data>, d: Data)
    ensures var k := Slot(cmp, s, d);
            && (forall i :: 0 <= i < k ==> cmp(s[i], d) < 0)
            && (k < |s| ==> cmp(s[k], d) >= 0)
  {
    if s != [] && cmp(s[0], d) < 0 {
      SlotSplits(cmp, s[1..], d);
      var k := Slot(cmp, s[1..], d);
      assert forall i :: 0 < i <= k ==> s[i] == s[1..][i - 1];
    }
  }

  lemma SlotIsBelow(cmp: Compare, s: seq<Data>, d: Data)
    requires IsOrder(cmp) && Ascending(cmp, s)
    ensures forall i :: Slot(cmp, s, d) <= i < |s| ==> cmp(d, s[i]) <= 0
  {
    SlotSplits(cmp, s, d);
    var k := Slot(cmp, s, d);
    forall i | k <= i < |s|
      ensures cmp(d, s[i]) <= 0
    {
      assert Transits(cmp, d, s[k], s[i]);
    }
  }

  lemma SplicedPair(cmp: Compare, s: seq<Data>, k: nat, d: Data, i: nat, j: nat)
    requires Ascending(cmp, s) && k <= |s| && i < j <= |s|
    requires forall l :: 0 <= l < k ==> cmp(s[l], d) < 0
    requires forall l :: k <= l < |s| ==> cmp(d, s[l]) <= 0
    ensures cmp(SpliceIn(s, k, d)[i], SpliceIn(s, k, d)[j]) <= 0
  {
    var t := SpliceIn(s, k, d);
    assert t[i] == if i < k then s[i] else if i == k then d else s[i - 1];
    assert t[j] == if j < k then s[j] else if j == k then d else s[j - 1];
  }

  /** Insertion keeps a chain ascending. */
  lemma InsertedAscending(cmp: Compare, s: seq<Data>, d: Data)
    requires IsOrder(cmp) && Ascending(cmp, s)
    ensures Ascending(cmp, Inserted(cmp, s, d))
  {
    SlotSplits(cmp, s, d);
    SlotIsBelow(cmp, s, d);
    forall i, j | 0 <= i < j <= |s|
      ensures cmp(Inserted(cmp, s, d)[i], Inserted(cmp, s, d)[j]) <= 0
    {
      SplicedPair(cmp, s, Slot(cmp, s, d), d, i, j);
    }
  }

  // ---------------------------------------------------------------------------------------
  // Deletion
  // ---------------------------------------------------------------------------------------

  /** No element compares equal. */
  predicate NoMatch(cmp: Compare, s: seq<Data>, d: Data) {
    forall i :: 0 <= i < |s| ==> cmp(s[i], d) != 0
  }

  lemma {:induction false} ScanFindsNothing(cmp: Compare, s: seq<Data>, d: Data, all: bool)
    requires NoMatch(cmp, s, d)
    ensures Scan(cmp, s, d, all, false) == Swept(s, [])
  {
    if s != [] {
      assert NoMatch(cmp, s[1..], d) by {
        assert forall i :: 0 <= i < |s[1..]| ==> s[1..][i] == s[i + 1];
      }
      ScanFindsNothing(cmp, s[1..], d, all);
      assert [s[0]] + s[1..] == s;
    }
  }

  lemma AboveHasNoMatch(cmp: Compare, s: seq<Data>, d: Data)
    requires IsOrder(cmp) && Ascending(cmp, s) && s != [] && cmp(s[0], d) > 0
    ensures NoMatch(cmp, s, d)
  {
    forall i | 0 <= i < |s|
      ensures cmp(s[i], d) != 0
    {
      assert Transits(cmp, s[0], s[i], d);
    }
  }

  /** On an ascending chain the scan that stops early does what the full scan does. */
  lemma {:induction false} EarlyExitIsExact(cmp: Compare, s: seq<Data>, d: Data, all: bool)
    requires IsOrder(cmp) && Ascending(cmp, s)
    ensures Scan(cmp, s, d, all, true) == Scan(cmp, s, d, all, false)
  {
    if s != [] {
      if cmp(s[0], d) > 0 {
        AboveHasNoMatch(cmp, s, d);
        ScanFindsNothing(cmp, s, d, all);
      } else {
        EarlyExitIsExact(cmp, s[1..], d, all);
      }
    }
  }

  /** The elements that compare different, and those that compare equal, in order. */
  function Others(cmp: Compare, s: seq<Data>, d: Data): seq<Data> {
    if s == [] then [] else (if cmp(s[0], d) != 0 then [s[0]] else []) + Others(cmp, s[1..], d)
  }

  function Matches(cmp: Compare, s: seq<Data>, d: Data): seq<Data> {
    if s == [] then [] else (if cmp(s[0], d) == 0 then [s[0]] else []) + Matches(cmp, s[1..], d)
  }

  lemma {:induction false} FullScanOfAll(cmp: Compare, s: seq<Data>, d: Data)
    ensures Scan(cmp, s, d, true, false) == Swept(Others(cmp, s, d), Matches(cmp, s, d))
  {
    if s != [] {
      FullScanOfAll(cmp, s[1..], d);
    }
  }

  /** A full scan for one element takes out the first match. */
  lemma {:induction false} FullScanOfOne(cmp: Compare, s: seq<Data>, d: Data, k: nat)
    requires k < |s| && cmp(s[k], d) == 0 && NoMatch(cmp, s[..k], d)
    ensures Scan(cmp, s, d, false, false) == Swept(SpliceOut(s, k, k + 1), [s[k]])
    decreases k
  {
    if k > 0 {
      var t := s[1..][..k - 1];
      assert s[..k][0] == s[0];
      assert forall i :: 0 <= i < |t| ==> t[i] == s[..k][i + 1];
      FullScanOfOne(cmp, s[1..], d, k - 1);
      assert [s[0]] + SpliceOut(s[1..], k - 1, k) == SpliceOut(s, k, k + 1);
    } else {
      assert SpliceOut(s, 0, 1) == s[1..];
    }
  }

  /** `deleteAll` on an ascending chain leaves exactly the elements that differ and counts the others;
      `deleteOne` takes out the first match and nothing without one. */
  lemma DeletionIsExact(cmp: Compare, s: seq<Data>, d: Data)
    requires IsOrder(cmp) && Ascending(cmp, s)
    ensures Scan(cmp, s, d, true, true) == Swept(Others(cmp, s, d), Matches(cmp, s, d))
    ensures NoMatch(cmp, s, d) ==> Scan(cmp, s, d, false, true) == Swept(s, [])
    ensures forall k :: 0 <= k < |s| && cmp(s[k], d) == 0 && NoMatch(cmp, s[..k], d) ==>
              Scan(cmp, s, d, false, true) == Swept(SpliceOut(s, k, k + 1), [s[k]])
  {
    EarlyExitIsExact(cmp, s, d, true);
    EarlyExitIsExact(cmp, s, d, false);
    FullScanOfAll(cmp, s, d);
    if NoMatch(cmp, s, d) {
      ScanFindsNothing(cmp, s, d, false);
    }
    forall k | 0 <= k < |s| && cmp(s[k], d) == 0 && NoMatch(cmp, s[..k], d)
      ensures Scan(cmp, s, d, false, false) == Swept(SpliceOut(s, k, k + 1), [s[k]])
    {
      FullScanOfOne(cmp, s, d, k);
    }
  }

  /** Deletion only takes elements out: none is lost or invented. */
  lemma {:induction false} ScanConserves(cmp: Compare, s: seq<Data>, d: Data, all: bool, sorted: bool)
    ensures var r := Scan(cmp, s, d, all, sorted); multiset(s) == multiset(r.kept) + multiset(r.removed)
  {
    if s != [] {
      ScanConserves(cmp, s[1..], d, all, sorted);
      assert s == [s[0]] + s[1..];
    }
  }

  /** `kept` are the elements of `s` at the increasing positions `at`. */
  predicate Selects(at: seq<nat>, kept: seq<Data>, s: seq<Data>) {
    && |at| == |kept|
    && (forall j :: 0 <= j < |at| ==> at[j] < |s| && kept[j] == s[at[j]])
    && (forall i, j :: 0 <= i < j < |at| ==> at[i] < at[j])
  }

  function Shifted(at: seq<nat>): seq<nat> {
    seq(|at|, i requires 0 <= i < |at| => at[i] + 1)
  }

  lemma ShiftSelects(at: seq<nat>, kept: seq<Data>, s: seq<Data>)
    requires s != [] && Selects(at, kept, s[1..])
    ensures Selects(Shifted(at), kept, s)
    ensures Selects([0] + Shifted(at), [s[0]] + kept, s)
  {
  }

  /** The elements that stay keep their order. */
  lemma {:induction false} ScanKeepsOrder(cmp: Compare, s: seq<Data>, d: Data, all: bool, sorted: bool)
    returns (at: seq<nat>)
    ensures Selects(at, Scan(cmp, s, d, all, sorted).kept, s)
  {
    if s == [] {
      at := [];
    } else if cmp(s[0], d) > 0 && sorted {
      at := seq(|s|, i => i);
    } else if cmp(s[0], d) == 0 && !all {
      at := seq(|s| - 1, i => i + 1);
    } else {
      var rest := ScanKeepsOrder(cmp, s[1..], d, all, sorted);
      ShiftSelects(rest, Scan(cmp, s[1..], d, all, sorted).kept, s);
      at := (if cmp(s[0], d) != 0 then [0] else []) + Shifted(rest);
      assert [] + Shifted(rest) == Shifted(rest);
    }
  }

  lemma ScanKeepsAscending(cmp: Compare, s: seq<Data>, d: Data, all: bool, sorted: bool)
    requires Ascending(cmp, s)
    ensures Ascending(cmp, Scan(cmp, s, d, all, sorted).kept)
  {
    var at := ScanKeepsOrder(cmp, s, d, all, sorted);
  }

  // ---------------------------------------------------------------------------------------
  // Runs
  // ---------------------------------------------------------------------------------------

  /** An operation on the chain; `ok` says whether there was memory for the new node. */
  datatype Operation = Add(data: Data, ok: bool) | Delete(data: Data, all: bool) | Pop

  /** The chain with everything that has gone in and come out. */
  datatype Ledger = Ledger(values: seq<Data>, added: seq<Data>, gone: seq<Data>)

  function Do(kind: ChainType, cmp: Compare, l: Ledger, op: Operation): Ledger {
    match op
    case Add(d, ok) =>
      if ok then Ledger(Added(kind, Some(cmp), l.values, d), l.added + [d], l.gone) else l
    case Delete(d, all) =>
      var r := Scan(cmp, l.values, d, all, kind.Sorted?);
      Ledger(r.kept, l.added, l.gone + r.removed)
    case Pop =>
      if l.values == [] then l else Ledger(l.values[1..], l.added, l.gone + [l.values[0]])
  }

  function Run(kind: ChainType, cmp: Compare, l: Ledger, ops: seq<Operation>): Ledger
    decreases |ops|
  {
    if ops == [] then l else Run(kind, cmp, Do(kind, cmp, l, ops[0]), ops[1..])
  }

  predicate Balanced(l: Ledger) {
    multiset(l.added) == multiset(l.values) + multiset(l.gone)
  }

  lemma AddedConserves(kind: ChainType, cmp: Compare, s: seq<Data>, d: Data)
    ensures multiset(Added(kind, Some(cmp), s, d)) == multiset(s) + multiset{d}
  {
    var k := Slot(cmp, s, d);
    assert s == s[..k] + s[k..];
  }

  lemma PopBalances(l: Ledger)
    requires Balanced(l) && l.values != []
    ensures Balanced(Ledger(l.values[1..], l.added, l.gone + [l.values[0]]))
  {
    assert l.values == [l.values[0]] + l.values[1..];
  }

  lemma StepBalances(kind: ChainType, cmp: Compare, l: Ledger, op: Operation)
    requires Balanced(l)
    ensures Balanced(Do(kind, cmp, l, op))
  {
    match op
    case Add(d, ok) => AddedConserves(kind, cmp, l.values, d);
    case Delete(d, all) => ScanConserves(cmp, l.values, d, all, kind.Sorted?);
    case Pop =>
      if l.values != [] {
        PopBalances(l);
      }
  }

  lemma StepKeepsAscending(cmp: Compare, l: Ledger, op: Operation)
    requires IsOrder(cmp) && Ascending(cmp, l.values)
    ensures Ascending(cmp, Do(Sorted, cmp, l, op).values)
  {
    match op
    case Add(d, ok) => InsertedAscending(cmp, l.values, d);
    case Delete(d, all) => ScanKeepsAscending(cmp, l.values, d, all, true);
    case Pop =>
  }

  /** Over every run, on a chain of any kind, what was added is in the chain or has come out. */
  lemma {:induction false} RunBalances(kind: ChainType, cmp: Compare, l: Ledger, ops: seq<Operation>)
    requires Balanced(l)
    ensures Balanced(Run(kind, cmp, l, ops))
    decreases |ops|
  {
    if ops != [] {
      StepBalances(kind, cmp, l, ops[0]);
      RunBalances(kind, cmp, Do(kind, cmp, l, ops[0]), ops[1..]);
    }
  }

  /** Over every run a sorted chain stays ascending, so that each deletion in it is exact. */
  lemma {:induction false} RunKeepsAscending(cmp: Compare, l: Ledger, ops: seq<Operation>)
    requires IsOrder(cmp) && Ascending(cmp, l.values)
    ensures Ascending(cmp, Run(Sorted, cmp, l, ops).values)
    decreases |ops|
  {
    if ops != [] {
      StepKeepsAscending(cmp, l, ops[0]);
      RunKeepsAscending(cmp, Do(Sorted, cmp, l, ops[0]), ops[1..]);
    }
  }

  /** Both together for a chain that starts empty: after any operations, `deleteOne` and `deleteAll`
      remove what a full scan of the chain would. */
  lemma EveryDeletionIsExact(cmp: Compare, ops: seq<Operation>, d: Data, all: bool)
    requires IsOrder(cmp)
    ensures var l := Run(Sorted, cmp, Ledger([], [], []), ops);
            && Ascending(cmp, l.values) && Balanced(l)
            && Scan(cmp, l.values, d, all, true) == Scan(cmp, l.values, d, all, false)
  {
    var start := Ledger([], [], []);
    RunKeepsAscending(cmp, start, ops);
    RunBalances(Sorted, cmp, start, ops);
    EarlyExitIsExact(cmp, Run(Sorted, cmp, start, ops).values, d, all);
  }

  // ---------------------------------------------------------------------------------------
  // Queues and stacks
  // ---------------------------------------------------------------------------------------

  predicate NoDeletion(ops: seq<Operation>) {
    forall i :: 0 <= i < |ops| ==> !ops[i].Delete?
  }

  predicate InOrder(l: Ledger) { l.gone + l.values == l.added }

  lemma StepKeepsQueue(cmp: Compare, l: Ledger, op: Operation)
    requires InOrder(l) && !op.Delete?
    ensures InOrder(Do(AppendLast, cmp, l, op))
  {
    if op.Add? {
      assert l.gone + (l.values + [op.data]) == l.gone + l.values + [op.data];
    } else if l.values != [] {
      assert l.gone + [l.values[0]] + l.values[1..] == l.gone + l.values;
    }
  }

  /** A chain that appends is a queue: over every run of additions and pops, what came out and what is
      still there, in this order, is what went in. */
  lemma {:induction false} RunIsQueue(cmp: Compare, l: Ledger, ops: seq<Operation>)
    requires InOrder(l) && NoDeletion(ops)
    ensures InOrder(Run(AppendLast, cmp, l, ops))
    decreases |ops|
  {
    if ops != [] {
      StepKeepsQueue(cmp, l, ops[0]);
      RunIsQueue(cmp, Do(AppendLast, cmp, l, ops[0]), ops[1..]);
    }
  }

  function Additions(ds: seq<Data>): seq<Operation> {
    seq(|ds|, i requires 0 <= i < |ds| => Add(ds[i], true))
  }

  function Pops(n: nat): seq<Operation> {
    seq(n, _ => Pop)
  }

  lemma {:induction false} RunAppend(kind: ChainType, cmp: Compare, l: Ledger, ops: seq<Operation>,
                                     more: seq<Operation>)
    ensures Run(kind, cmp, l, ops + more) == Run(kind, cmp, Run(kind, cmp, l, ops), more)
    decreases |ops|
  {
    if ops == [] {
      assert ops + more == more;
    } else {
      assert (ops + more)[1..] == ops[1..] + more;
      RunAppend(kind, cmp, Do(kind, cmp, l, ops[0]), ops[1..], more);
    }
  }

  lemma OperationsNest(ds: seq<Data>)
    requires ds != []
    ensures Additions(ds) + Pops(|ds|) == [Add(ds[0], true)] + (Additions(ds[1..]) + Pops(|ds| - 1) + [Pop])
  {
    assert Pops(|ds|) == Pops(|ds| - 1) + [Pop];
    assert Additions(ds) == [Add(ds[0], true)] + Additions(ds[1..]);
  }

  lemma RunNested(kind: ChainType, cmp: Compare, l: Ledger, first: Operation, inner: seq<Operation>, last: Operation)
    ensures Run(kind, cmp, l, [first] + (inner + [last])) ==
            Do(kind, cmp, Run(kind, cmp, Do(kind, cmp, l, first), inner), last)
  {
    assert ([first] + (inner + [last]))[1..] == inner + [last];
    RunAppend(kind, cmp, Do(kind, cmp, l, first), inner, [last]);
    assert [last][1..] == [];
  }

  /** A chain that inserts first is a stack: what is added comes out last in, first out, and what was
      there before stays. */
  lemma {:induction false} RunIsStack(cmp: Compare, l: Ledger, ds: seq<Data>)
    ensures Run(InsertFirst, cmp, l, Additions(ds) + Pops(|ds|)) ==
            Ledger(l.values, l.added + ds, l.gone + Reversed(ds))
    decreases |ds|
  {
    if ds == [] {
      assert l.added + [] == l.added && l.gone + [] == l.gone;
    } else {
      var d, rest := ds[0], ds[1..];
      OperationsNest(ds);
      RunNested(InsertFirst, cmp, l, Add(d, true), Additions(rest) + Pops(|ds| - 1), Pop);
      RunIsStack(cmp, Ledger([d] + l.values, l.added + [d], l.gone), rest);
      assert l.added + [d] + rest == l.added + ds;
      assert l.gone + Reversed(rest) + [d] == l.gone + Reversed(ds);
    }
  }
}
