/** The singly linked chain with a tail pointer. Sorted chains insert in order and may stop a deletion
    scan early. */
module FastdfsChain {
  import opened Common

  type Data(==, !new)

  datatype ChainType = InsertFirst | AppendLast | Sorted

  type Compare = (Data, Data) -> int

  const EINVAL := 22
  const ENOMEM := 12

  // ---------------------------------------------------------------------------------------
  // The chain as a sequence
  // ---------------------------------------------------------------------------------------

  /** Where `insertNodeAsc` puts the new element: after the leading elements that compare below it. */
  function Slot(cmp: Compare, s: seq<Data>, d: Data): (k: nat)
    ensures k <= |s|
  {
    if s != [] && cmp(s[0], d) < 0 then 1 + Slot(cmp, s[1..], d) else 0
  }

  function Inserted(cmp: Compare, s: seq<Data>, d: Data): seq<Data> {
    var k := Slot(cmp, s, d);
    s[..k] + [d] + s[k..]
  }

  /** The chain after `addNode`. */
  function Added(kind: ChainType, compare: Option<Compare>, s: seq<Data>, d: Data): seq<Data> {
    if kind.InsertFirst? then [d] + s
    else if kind.AppendLast? then s + [d]
    else if compare.Some? then Inserted(compare.value, s, d)
    else s
  }

  /** What a deletion leaves in the chain and what it takes out. */
  datatype Swept = Swept(kept: seq<Data>, removed: seq<Data>)

  /** `deleteNode`: on a sorted chain it stops at the first element that compares above. */
  function Scan(cmp: Compare, s: seq<Data>, d: Data, all: bool, sorted: bool): Swept {
    if s == [] then Swept([], [])
    else if cmp(s[0], d) == 0 then
      if all then
        var r := Scan(cmp, s[1..], d, all, sorted);
        Swept(r.kept, [s[0]] + r.removed)
      else
        Swept(s[1..], [s[0]])
    else if cmp(s[0], d) > 0 && sorted then Swept(s, [])
    else
      var r := Scan(cmp, s[1..], d, all, sorted);
      Swept([s[0]] + r.kept, r.removed)
  }

  /** A scan of `s` that has come to position `k` of the present chain `now`, having removed `gone`. */
  predicate Scanned(cmp: Compare, s: seq<Data>, now: seq<Data>, k: nat, gone: seq<Data>, d: Data, all: bool,
                    sorted: bool) {
    && k <= |now|
    && Scan(cmp, s, d, all, sorted) ==
       var rest := Scan(cmp, now[k..], d, all, sorted); Swept(now[..k] + rest.kept, gone + rest.removed)
  }

  /** The present chain and the removed elements are already what the whole scan gives. */
  predicate ScanDone(cmp: Compare, s: seq<Data>, now: seq<Data>, gone: seq<Data>, d: Data, all: bool, sorted: bool) {
    Scan(cmp, s, d, all, sorted) == Swept(now, gone)
  }

  lemma ScannedMatch(cmp: Compare, s: seq<Data>, now: seq<Data>, k: nat, gone: seq<Data>, d: Data, all: bool,
                     sorted: bool)
    requires Scanned(cmp, s, now, k, gone, d, all, sorted) && k < |now| && cmp(now[k], d) == 0
    ensures all ==> Scanned(cmp, s, SpliceOut(now, k, k + 1), k, gone + [now[k]], d, all, sorted)
    ensures !all ==> ScanDone(cmp, s, SpliceOut(now, k, k + 1), gone + [now[k]], d, all, sorted)
  {
    assert now[k..][1..] == now[k + 1..];
    var now' := SpliceOut(now, k, k + 1);
    assert now'[k..] == now[k + 1..] && now'[..k] == now[..k];
    var r := Scan(cmp, now[k + 1..], d, all, sorted);
    if all {
      assert gone + ([now[k]] + r.removed) == gone + [now[k]] + r.removed;
    }
  }

  lemma ScannedAbove(cmp: Compare, s: seq<Data>, now: seq<Data>, k: nat, gone: seq<Data>, d: Data, all: bool)
    requires Scanned(cmp, s, now, k, gone, d, all, true) && k < |now| && cmp(now[k], d) > 0
    ensures ScanDone(cmp, s, now, gone, d, all, true)
  {
    assert now[..k] + now[k..] == now && gone + [] == gone;
  }

  lemma ScannedPast(cmp: Compare, s: seq<Data>, now: seq<Data>, k: nat, gone: seq<Data>, d: Data, all: bool,
                    sorted: bool)
    requires Scanned(cmp, s, now, k, gone, d, all, sorted) && k < |now|
    requires cmp(now[k], d) < 0 || (cmp(now[k], d) > 0 && !sorted)
    ensures Scanned(cmp, s, now, k + 1, gone, d, all, sorted)
  {
    assert now[k..][1..] == now[k + 1..];
    var r := Scan(cmp, now[k + 1..], d, all, sorted);
    assert now[..k] + ([now[k]] + r.kept) == now[..k + 1] + r.kept;
  }

  lemma ScanStarts(cmp: Compare, s: seq<Data>, d: Data, all: bool, sorted: bool)
    ensures Scanned(cmp, s, s, 0, [], d, all, sorted)
  {
    assert s[0..] == s && s[..0] == [];
    var r := Scan(cmp, s, d, all, sorted);
    assert [] + r.kept == r.kept && [] + r.removed == r.removed;
  }

  lemma ScanEnds(cmp: Compare, s: seq<Data>, now: seq<Data>, gone: seq<Data>, d: Data, all: bool, sorted: bool)
    requires Scanned(cmp, s, now, |now|, gone, d, all, sorted)
    ensures ScanDone(cmp, s, now, gone, d, all, sorted)
  {
    assert now[|now|..] == [] && now[..|now|] == now;
  }

  // ---------------------------------------------------------------------------------------
  // Nodes in memory
  // ---------------------------------------------------------------------------------------

  type Address = nat
  const NULL: Address := 0

  datatype Node = Node(data: Data, next: Address)

  /** Allocated memory: `malloc` adds an address, `free` takes it out. */
  type Memory = map<Address, Node>

  function At(nodes: seq<Address>, i: int): Address {
    if 0 <= i < |nodes| then nodes[i] else NULL
  }

  /** `nodes` are linked one to the next, ending with NULL, and hold `values`. */
  predicate Linked(mem: Memory, nodes: seq<Address>, values: seq<Data>) {
    && |nodes| == |values|
    && forall i :: 0 <= i < |nodes| ==> LinkAt(mem, nodes, values, i)
  }

  predicate Distinct(nodes: seq<Address>) {
    forall i, j :: 0 <= i < j < |nodes| ==> nodes[i] != nodes[j]
  }

  /** Nothing else is allocated. */
  predicate Owns(mem: Memory, nodes: seq<Address>) {
    forall a :: a in mem ==> a in nodes
  }

  predicate IsChain(mem: Memory, nodes: seq<Address>, values: seq<Data>) {
    Linked(mem, nodes, values) && Distinct(nodes) && Owns(mem, nodes)
  }

  /** Memory with the `next` of `previous`, if there is one, redirected. */
  function Redirected(mem: Memory, previous: Address, next: Address): Memory {
    if previous in mem then mem[previous := mem[previous].(next := next)] else mem
  }

  function SpliceIn<T>(s: seq<T>, k: nat, x: T): seq<T>
    requires k <= |s|
  {
    s[..k] + [x] + s[k..]
  }

  function SpliceOut<T>(s: seq<T>, lo: nat, hi: nat): seq<T>
    requires lo <= hi <= |s|
  {
    s[..lo] + s[hi..]
  }

  /** One link of a chain. */
  predicate LinkAt(mem: Memory, nodes: seq<Address>, values: seq<Data>, i: nat)
    requires i < |nodes| == |values|
  {
    nodes[i] != NULL && nodes[i] in mem && mem[nodes[i]] == Node(values[i], At(nodes, i + 1))
  }

  lemma NodesAreAllocated(mem: Memory, nodes: seq<Address>, values: seq<Data>, a: Address)
    requires Linked(mem, nodes, values) && a in nodes
    ensures a in mem
  {
    var i :| 0 <= i < |nodes| && nodes[i] == a;
    assert LinkAt(mem, nodes, values, i);
  }

  lemma DistinctInserted(nodes: seq<Address>, k: nat, a: Address)
    requires Distinct(nodes) && k <= |nodes| && a !in nodes
    ensures Distinct(SpliceIn(nodes, k, a))
  {
    var ns := SpliceIn(nodes, k, a);
    forall i, j | 0 <= i < j < |ns|
      ensures ns[i] != ns[j]
    {
      assert ns[i] == if i < k then nodes[i] else if i == k then a else nodes[i - 1];
      assert ns[j] == if j < k then nodes[j] else if j == k then a else nodes[j - 1];
    }
  }

  lemma LinkInserted(mem: Memory, nodes: seq<Address>, values: seq<Data>, k: nat, a: Address, d: Data, i: nat)
    requires Linked(mem, nodes, values) && Distinct(nodes) && k <= |nodes| && a != NULL && a !in mem && i <= |nodes|
    ensures LinkAt(Redirected(mem, At(nodes, k - 1), a)[a := Node(d, At(nodes, k))],
                   SpliceIn(nodes, k, a), SpliceIn(values, k, d), i)
  {
    var ns, vs := SpliceIn(nodes, k, a), SpliceIn(values, k, d);
    var j := if i <= k then i else i - 1;
    if i != k {
      assert ns[i] == nodes[j] && vs[i] == values[j] && LinkAt(mem, nodes, values, j);
      if 0 < k && i != k - 1 {
        assert nodes[j] != nodes[k - 1];
      }
    }
    assert i != k - 1 ==> At(ns, i + 1) == At(nodes, if i < k then i + 1 else i);
  }

  /** A fresh node set into the chain at any place leaves a chain. */
  lemma InsertedIsChain(mem: Memory, nodes: seq<Address>, values: seq<Data>, k: nat, a: Address, d: Data)
    requires IsChain(mem, nodes, values) && k <= |nodes| && a != NULL && a !in mem
    ensures IsChain(Redirected(mem, At(nodes, k - 1), a)[a := Node(d, At(nodes, k))],
                    SpliceIn(nodes, k, a), SpliceIn(values, k, d))
  {
    var mem' := Redirected(mem, At(nodes, k - 1), a)[a := Node(d, At(nodes, k))];
    var ns, vs := SpliceIn(nodes, k, a), SpliceIn(values, k, d);
    forall i: nat | i < |ns|
      ensures LinkAt(mem', ns, vs, i)
    {
      LinkInserted(mem, nodes, values, k, a, d, i);
    }
    if a in nodes {
      NodesAreAllocated(mem, nodes, values, a);
    }
    DistinctInserted(nodes, k, a);
    assert nodes == nodes[..k] + nodes[k..];
  }

  lemma DistinctCut(nodes: seq<Address>, lo: nat, hi: nat)
    requires Distinct(nodes) && lo <= hi <= |nodes|
    ensures Distinct(SpliceOut(nodes, lo, hi))
    ensures forall a :: a in SpliceOut(nodes, lo, hi) <==> a in nodes && a !in nodes[lo..hi]
  {
    var ns := SpliceOut(nodes, lo, hi);
    forall i | 0 <= i < |ns|
      ensures ns[i] == nodes[if i < lo then i else i + hi - lo]
    {
    }
    assert nodes == nodes[..lo] + nodes[lo..hi] + nodes[hi..];
    forall a | a in ns
      ensures a !in nodes[lo..hi]
    {
      var i :| 0 <= i < |ns| && ns[i] == a;
      var j := if i < lo then i else i + hi - lo;
      assert nodes[j] == a;
      assert forall l :: lo <= l < hi ==> nodes[l] != nodes[j];
    }
  }

  /** Memory without the nodes of a stretch of the chain. */
  function Without(mem: Memory, gone: seq<Address>): Memory {
    map a | a in mem && a !in gone :: mem[a]
  }

  lemma LinkCut(mem: Memory, nodes: seq<Address>, values: seq<Data>, lo: nat, hi: nat, i: nat)
    requires Linked(mem, nodes, values) && Distinct(nodes) && lo <= hi <= |nodes| && i < |SpliceOut(nodes, lo, hi)|
    ensures LinkAt(Without(Redirected(mem, At(nodes, lo - 1), At(nodes, hi)), nodes[lo..hi]),
                   SpliceOut(nodes, lo, hi), SpliceOut(values, lo, hi), i)
  {
    var ns, vs := SpliceOut(nodes, lo, hi), SpliceOut(values, lo, hi);
    var j := if i < lo then i else i + hi - lo;
    assert ns[i] == nodes[j] && vs[i] == values[j] && LinkAt(mem, nodes, values, j);
    DistinctCut(nodes, lo, hi);
    assert ns[i] !in nodes[lo..hi];
    if 0 < lo && j != lo - 1 {
      assert nodes[j] != nodes[lo - 1];
    }
    assert At(ns, i + 1) == At(nodes, if i == lo - 1 then hi else j + 1);
  }

  /** Taking a stretch out of the chain leaves a chain, and frees exactly that stretch. */
  lemma CutIsChain(mem: Memory, nodes: seq<Address>, values: seq<Data>, lo: nat, hi: nat)
    requires IsChain(mem, nodes, values) && lo <= hi <= |nodes|
    ensures IsChain(Without(Redirected(mem, At(nodes, lo - 1), At(nodes, hi)), nodes[lo..hi]),
                    SpliceOut(nodes, lo, hi), SpliceOut(values, lo, hi))
  {
    var mem' := Without(Redirected(mem, At(nodes, lo - 1), At(nodes, hi)), nodes[lo..hi]);
    var ns, vs := SpliceOut(nodes, lo, hi), SpliceOut(values, lo, hi);
    forall i: nat | i < |ns|
      ensures LinkAt(mem', ns, vs, i)
    {
      LinkCut(mem, nodes, values, lo, hi, i);
    }
    DistinctCut(nodes, lo, hi);
  }

  /** A pointer into the chain is NULL exactly beyond its ends. */
  lemma Pointers(mem: Memory, nodes: seq<Address>, values: seq<Data>, i: int)
    requires IsChain(mem, nodes, values)
    ensures forall a :: a in mem ==> a != NULL
    ensures At(nodes, i) in mem <==> 0 <= i < |nodes|
    ensures At(nodes, i) == NULL <==> !(0 <= i < |nodes|)
    ensures 0 <= i < |nodes| ==> mem[nodes[i]] == Node(values[i], At(nodes, i + 1))
  {
    forall a | a in mem
      ensures a != NULL
    {
      var j :| 0 <= j < |nodes| && nodes[j] == a;
      assert LinkAt(mem, nodes, values, j);
    }
    if 0 <= i < |nodes| {
      assert LinkAt(mem, nodes, values, i);
    }
  }

  lemma InsertedEnds(nodes: seq<Address>, k: nat, a: Address)
    requires k <= |nodes|
    ensures At(SpliceIn(nodes, k, a), 0) == if k == 0 then a else At(nodes, 0)
    ensures At(SpliceIn(nodes, k, a), |nodes|) == if k == |nodes| then a else At(nodes, |nodes| - 1)
    ensures |SpliceIn(nodes, k, a)| == |nodes| + 1
  {
  }

  lemma CutEnds(nodes: seq<Address>, lo: nat, hi: nat)
    requires lo <= hi <= |nodes|
    ensures |SpliceOut(nodes, lo, hi)| == |nodes| - (hi - lo)
    ensures At(SpliceOut(nodes, lo, hi), 0) == if lo == 0 then At(nodes, hi) else At(nodes, 0)
    ensures At(SpliceOut(nodes, lo, hi), |nodes| - (hi - lo) - 1) ==
            if hi == |nodes| then At(nodes, lo - 1) else At(nodes, |nodes| - 1)
  {
  }

  /** A stretch of the chain is still allocated and linked within itself up to what follows it. */
  predicate Unlinked(mem: Memory, nodes: seq<Address>, values: seq<Data>, lo: nat, hi: nat) {
    && lo <= hi <= |nodes| == |values|
    && Distinct(nodes)
    && (hi < |nodes| ==> nodes[hi] != NULL)
    && forall i :: lo <= i < hi ==> LinkAt(mem, nodes, values, i)
  }

  lemma StretchNext(mem: Memory, nodes: seq<Address>, values: seq<Data>, lo: nat, hi: nat, i: nat)
    requires Unlinked(mem, nodes, values, lo, hi)
    requires lo <= i <= hi && At(nodes, i) != NULL && At(nodes, i) != At(nodes, hi)
    ensures i < hi && LinkAt(Without(mem, nodes[lo..i]), nodes, values, i)
    ensures Without(mem, nodes[lo..i + 1]) == Without(Without(mem, nodes[lo..i]), [nodes[i]])
    ensures values[lo..i + 1] == values[lo..i] + [values[i]]
  {
    assert LinkAt(mem, nodes, values, i);
    assert nodes[lo..i + 1] == nodes[lo..i] + [nodes[i]];
    assert nodes[i] !in nodes[lo..i];
  }

  lemma StretchGoesOn(mem: Memory, nodes: seq<Address>, values: seq<Data>, lo: nat, hi: nat, i: nat)
    requires Unlinked(mem, nodes, values, lo, hi) && lo <= i < hi
    ensures At(nodes, i) != NULL && At(nodes, i) != At(nodes, hi)
  {
    assert LinkAt(mem, nodes, values, i);
  }

  lemma CutLeavesStretch(mem: Memory, nodes: seq<Address>, values: seq<Data>, lo: nat, hi: nat)
    requires IsChain(mem, nodes, values) && lo <= hi <= |nodes|
    ensures Unlinked(Redirected(mem, At(nodes, lo - 1), At(nodes, hi)), nodes, values, lo, hi)
  {
    Pointers(mem, nodes, values, lo - 1);
    Pointers(mem, nodes, values, hi);
    var mem' := Redirected(mem, At(nodes, lo - 1), At(nodes, hi));
    forall i | lo <= i < hi
      ensures LinkAt(mem', nodes, values, i)
    {
      assert LinkAt(mem, nodes, values, i);
      assert nodes[i] != At(nodes, lo - 1);
    }
  }
}
