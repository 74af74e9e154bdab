/** The operations on a chain, working on its `head` and `tail` pointers. */
module FastdfsChainList {
  import opened Common
  import opened FastdfsChain
  import opened FastdfsChainSorted

  class ChainList {
    const kind: ChainType
    const compare: Option<Compare>
    const freesData: bool
    var head: Address
    var tail: Address
    var memory: Memory
    /** Data handed to the free function, in order. */
    var released: seq<Data>
    ghost var nodes: seq<Address>
    ghost var values: seq<Data>

    ghost predicate Valid()
      reads this
    {
      IsChain(memory, nodes, values) && head == At(nodes, 0) && tail == At(nodes, |nodes| - 1)
    }

    /** What the free function gets to see of `removed`. */
    function Freed(removed: seq<Data>): seq<Data> {
      if freesData then removed else []
    }

    lemma FreedMore(before: seq<Data>, gone: seq<Data>, more: seq<Data>)
      ensures before + Freed(gone) + Freed(more) == before + Freed(gone + more)
    {
    }

    constructor (kind: ChainType, freesData: bool, compare: Option<Compare>)
      ensures Valid() && values == [] && released == []
      ensures this.kind == kind && this.freesData == freesData && this.compare == compare
    {
      this.kind, this.freesData, this.compare := kind, freesData, compare;
      head, tail, released, memory := NULL, NULL, [], map[];
      nodes, values := [], [];
    }

    /** What `malloc` may return: nothing, or an address that is not in use. */
    ghost predicate Mallocs(a: Option<Address>)
      reads this
    {
      a.Some? ==> a.value != NULL && a.value !in memory
    }

    method InsertNodePrior(data: Data, a: Option<Address>) returns (code: int)
      requires Valid() && Mallocs(a)
      modifies this
      ensures Valid() && released == old(released)
      ensures code == if a.Some? then 0 else ENOMEM
      ensures values == if a.Some? then [data] + old(values) else old(values)
    {
      if a.None? {
        return ENOMEM;
      }
      Pointers(memory, nodes, values, 0);
      Pointers(memory, nodes, values, |nodes| - 1);
      InsertedIsChain(memory, nodes, values, 0, a.value, data);
      InsertedEnds(nodes, 0, a.value);
      memory := memory[a.value := Node(data, head)];
      head := a.value;
      if tail == NULL {
        tail := a.value;
      }
      nodes, values := SpliceIn(nodes, 0, a.value), SpliceIn(values, 0, data);
      return 0;
    }

    method AppendNode(data: Data, a: Option<Address>) returns (code: int)
      requires Valid() && Mallocs(a)
      modifies this
      ensures Valid() && released == old(released)
      ensures code == if a.Some? then 0 else ENOMEM
      ensures values == if a.Some? then old(values) + [data] else old(values)
    {
      if a.None? {
        return ENOMEM;
      }
      Pointers(memory, nodes, values, 0);
      Pointers(memory, nodes, values, |nodes| - 1);
      InsertedIsChain(memory, nodes, values, |nodes|, a.value, data);
      InsertedEnds(nodes, |nodes|, a.value);
      if tail != NULL {
        memory := memory[tail := memory[tail].(next := a.value)];
      }
      memory := memory[a.value := Node(data, NULL)];
      tail := a.value;
      if head == NULL {
        head := a.value;
      }
      nodes, values := SpliceIn(nodes, |nodes|, a.value), SpliceIn(values, |values|, data);
      return 0;
    }

    method InsertNodeAsc(data: Data, a: Option<Address>) returns (code: int)
      requires Valid() && Mallocs(a)
      modifies this
      ensures Valid() && released == old(released)
      ensures code == if compare.None? then EINVAL else if a.Some? then 0 else ENOMEM
      ensures values == if code == 0 then Inserted(compare.value, old(values), data) else old(values)
    {
      if compare.None? {
        return EINVAL;
      }
      if a.None? {
        return ENOMEM;
      }
      ghost var k: nat;
      var previous, node;
      previous, node, k := FindSlot(data);
      LinkBetween(previous, node, data, a.value, k);
      return 0;
    }

    method LinkBetween(previous: Address, node: Address, data: Data, a: Address, ghost k: nat)
      requires Valid() && Mallocs(Some(a))
      requires k <= |nodes| && node == At(nodes, k) && previous == At(nodes, k - 1)
      modifies this
      ensures Valid() && released == old(released) && values == SpliceIn(old(values), k, data)
    {
      Pointers(memory, nodes, values, k);
      Pointers(memory, nodes, values, k - 1);
      InsertedIsChain(memory, nodes, values, k, a, data);
      InsertedEnds(nodes, k, a);
      if previous == NULL {
        head := a;
      } else {
        memory := memory[previous := memory[previous].(next := a)];
      }
      memory := memory[a := Node(data, node)];
      if node == NULL {
        tail := a;
      }
      nodes, values := SpliceIn(nodes, k, a), SpliceIn(values, k, data);
    }

    method FindSlot(data: Data) returns (previous: Address, node: Address, ghost k: nat)
      requires Valid() && compare.Some?
      ensures k == Slot(compare.value, values, data)
      ensures node == At(nodes, k) && previous == At(nodes, k - 1)
    {
      previous, node, k := NULL, head, 0;
      while node != NULL && compare.value(memory[node].data, data) < 0
        invariant k <= |nodes| && node == At(nodes, k) && previous == At(nodes, k - 1)
        invariant k < |nodes| ==> LinkAt(memory, nodes, values, k)
        invariant Slot(compare.value, values, data) == k + Slot(compare.value, values[k..], data)
        decreases |nodes| - k
      {
        assert values[k..][1..] == values[k + 1..];
        previous := node;
        node := memory[node].next;
        k := k + 1;
      }
    }
  
    method AddNode(data: Data, a: Option<Address>) returns (code: int)
      requires Valid() && Mallocs(a)
      modifies this
      ensures Valid() && released == old(released)
      ensures code == if kind.Sorted? && compare.None? then EINVAL else if a.None? then ENOMEM else 0
      ensures values == if code == 0 then Added(kind, compare, old(values), data) else old(values)
    {
      match kind
      case InsertFirst => code := InsertNodePrior(data, a);
      case AppendLast => code := AppendNode(data, a);
      case Sorted => code := InsertNodeAsc(data, a);
    }

    /** `freeChainNode`: the data goes to the free function, if there is one, and the node is freed. */
    method FreeChainNode(a: Address)
      requires a in memory
      modifies this`memory, this`released
      ensures memory == Without(old(memory), [a])
      ensures released == old(released) + Freed([old(memory)[a].data])
    {
      if freesData {
        released := released + [memory[a].data];
      }
      memory := Without(memory, [a]);
    }

    method DeleteNodeEx(previous: Address, deleted: Address, ghost k: nat)
      requires Valid() && k < |nodes| && deleted == nodes[k] && previous == At(nodes, k - 1)
      modifies this
      ensures Valid()
      ensures nodes == SpliceOut(old(nodes), k, k + 1) && values == SpliceOut(old(values), k, k + 1)
      ensures released == old(released) + Freed([old(values)[k]])
    {
      Pointers(memory, nodes, values, k);
      Pointers(memory, nodes, values, k - 1);
      CutIsChain(memory, nodes, values, k, k + 1);
      CutEnds(nodes, k, k + 1);
      assert nodes[k..k + 1] == [deleted];
      ghost var mem := memory;
      if deleted == head {
        head := memory[deleted].next;
      } else {
        memory := memory[previous := memory[previous].(next := memory[deleted].next)];
      }
      if deleted == tail {
        tail := previous;
      }
      FreeChainNode(deleted);
      nodes, values := SpliceOut(nodes, k, k + 1), SpliceOut(values, k, k + 1);
    }

    /** Removes the nodes after `previous` and before `next`. */
    method DeleteToNodePrevious(previous: Address, next: Address, ghost lo: nat, ghost hi: nat)
      requires Valid() && lo <= hi <= |nodes| && previous == At(nodes, lo - 1) && next == At(nodes, hi)
      modifies this
      ensures Valid()
      ensures values == SpliceOut(old(values), lo, hi)
      ensures released == old(released) + Freed(old(values)[lo..hi])
    {
      CutLeavesStretch(memory, nodes, values, lo, hi);
      CutIsChain(memory, nodes, values, lo, hi);
      CutEnds(nodes, lo, hi);
      Pointers(memory, nodes, values, hi);
      var node := Bypass(previous, next, lo, hi);
      FreeStretch(node, next, lo, hi);
      if next == NULL {
        tail := previous;
      }
      nodes, values := SpliceOut(nodes, lo, hi), SpliceOut(values, lo, hi);
    }

    /** Links `previous` to `next` and returns the first node in between. */
    method Bypass(previous: Address, next: Address, ghost lo: nat, ghost hi: nat) returns (node: Address)
      requires Valid() && lo <= hi <= |nodes| && previous == At(nodes, lo - 1) && next == At(nodes, hi)
      modifies this`head, this`memory
      ensures memory == Redirected(old(memory), previous, next) && node == At(nodes, lo)
      ensures head == if lo == 0 then next else old(head)
    {
      Pointers(memory, nodes, values, lo - 1);
      if previous == NULL {
        node := head;
        head := next;
      } else {
        node := memory[previous].next;
        memory := memory[previous := memory[previous].(next := next)];
      }
    }

    /** Frees the nodes from `first` up to `last`, which have been unlinked already. */
    method FreeStretch(first: Address, last: Address, ghost lo: nat, ghost hi: nat)
      requires Unlinked(memory, nodes, values, lo, hi) && first == At(nodes, lo) && last == At(nodes, hi)
      modifies this`memory, this`released
      ensures memory == Without(old(memory), nodes[lo..hi])
      ensures released == old(released) + Freed(values[lo..hi])
    {
      var node := first;
      ghost var i := lo;
      assert nodes[lo..i] == [] && values[lo..i] == [];
      assert memory == Without(memory, []);
      while node != NULL && node != last
        invariant lo <= i <= hi && node == At(nodes, i)
        invariant memory == Without(old(memory), nodes[lo..i])
        invariant released == old(released) + Freed(values[lo..i])
        decreases hi - i
      {
        StretchNext(old(memory), nodes, values, lo, hi, i);
        FreedMore(old(released), values[lo..i], [values[i]]);
        var deleted := node;
        node := memory[node].next;
        FreeChainNode(deleted);
        i := i + 1;
      }
      if i < hi {
        StretchGoesOn(old(memory), nodes, values, lo, hi, i);
      }
    }
  
    /** Takes the first element out without freeing its data. */
    method ChainPopHead() returns (data: Option<Data>)
      requires Valid()
      modifies this
      ensures Valid() && released == old(released)
      ensures data == if old(values) == [] then None else Some(old(values)[0])
      ensures values == if old(values) == [] then [] else old(values)[1..]
    {
      Pointers(memory, nodes, values, 0);
      var deleted := head;
      if deleted == NULL {
        return None;
      }
      CutIsChain(memory, nodes, values, 0, 1);
      CutEnds(nodes, 0, 1);
      Pointers(memory, nodes, values, 1);
      assert nodes[0..1] == [deleted] && Redirected(memory, NULL, At(nodes, 1)) == memory;
      head := memory[deleted].next;
      if head == NULL {
        tail := NULL;
      }
      data := Some(memory[deleted].data);
      memory := Without(memory, [deleted]);
      assert SpliceOut(values, 0, 1) == values[1..];
      nodes, values := SpliceOut(nodes, 0, 1), SpliceOut(values, 0, 1);
    }

    method ChainCount() returns (count: nat)
      requires Valid()
      ensures count == |values|
    {
      count := 0;
      var node := head;
      Pointers(memory, nodes, values, 0);
      while node != NULL
        invariant count <= |nodes| && node == At(nodes, count)
        invariant node == NULL <==> count == |nodes|
        decreases |nodes| - count
      {
        Pointers(memory, nodes, values, count);
        Pointers(memory, nodes, values, count + 1);
        node := memory[node].next;
        count := count + 1;
      }
    }

    /** Frees every node; nothing stays allocated. */
    method ChainDestroy()
      requires Valid()
      modifies this
      ensures Valid() && values == [] && memory == map[]
      ensures released == old(released) + Freed(old(values))
    {
      Pointers(memory, nodes, values, 0);
      if head == NULL {
        assert memory == map[];
        return;
      }
      assert Unlinked(memory, nodes, values, 0, |nodes|);
      assert nodes[0..|nodes|] == nodes && values[0..|values|] == values;
      FreeStretch(head, NULL, 0, |nodes|);
      head, tail := NULL, NULL;
      nodes, values := [], [];
    }

    /** Deletes the first element, or all elements, that compare equal; a negative result is an error. */
    method DeleteNode(data: Data, all: bool) returns (count: int)
      requires Valid()
      modifies this
      ensures Valid()
      ensures compare.None? ==> count == -EINVAL && values == old(values) && released == old(released)
      ensures compare.Some? ==>
                var swept := Scan(compare.value, old(values), data, all, kind.Sorted?);
                && values == swept.kept
                && released == old(released) + Freed(swept.removed)
                && count == |swept.removed|
    {
      if compare.None? {
        return -EINVAL;
      }
      count := Sweep(data, all);
    }

    method Sweep(data: Data, all: bool) returns (count: nat)
      requires Valid() && compare.Some?
      modifies this
      ensures Valid()
      ensures var swept := Scan(compare.value, old(values), data, all, kind.Sorted?);
              values == swept.kept && released == old(released) + Freed(swept.removed) && count == |swept.removed|
    {
      count := 0;
      var previous, node := NULL, head;
      ghost var k, gone, done := 0, [], false;
      ScanStarts(compare.value, values, data, all, kind.Sorted?);
      while node != NULL
        invariant Valid() && k <= |nodes| && node == At(nodes, k) && previous == At(nodes, k - 1)
        invariant Scanned(compare.value, old(values), values, k, gone, data, all, kind.Sorted?)
        invariant released == old(released) + Freed(gone) && count == |gone| && !done
        decreases |nodes| - k
      {
        Pointers(memory, nodes, values, k);
        var order := compare.value(memory[node].data, data);
        if order == 0 {
          ScannedMatch(compare.value, old(values), values, k, gone, data, all, kind.Sorted?);
          FreedMore(old(released), gone, [values[k]]);
          gone := gone + [values[k]];
          node := DeleteMatch(previous, node, k);
          count := count + 1;
          if !all {
            done := true;
            break;
          }
          continue;
        } else if order > 0 && kind.Sorted? {
          ScannedAbove(compare.value, old(values), values, k, gone, data, all);
          done := true;
          break;
        }
        ScannedPast(compare.value, old(values), values, k, gone, data, all, kind.Sorted?);
        previous := node;
        node := memory[node].next;
        k := k + 1;
      }
      if !done {
        Pointers(memory, nodes, values, k);
        ScanEnds(compare.value, old(values), values, gone, data, all, kind.Sorted?);
      }
    }

    /** Deletes a node and returns the one after it. */
    method DeleteMatch(previous: Address, node: Address, ghost k: nat) returns (next: Address)
      requires Valid() && k < |nodes| && node == nodes[k] && previous == At(nodes, k - 1)
      modifies this
      ensures Valid() && k <= |nodes| && next == At(nodes, k) && previous == At(nodes, k - 1)
      ensures |nodes| == |old(nodes)| - 1 && values == SpliceOut(old(values), k, k + 1)
      ensures released == old(released) + Freed([old(values)[k]])
    {
      Pointers(memory, nodes, values, k);
      next := memory[node].next;
      DeleteNodeEx(previous, node, k);
    }
  
    /** Any address that is not in use, if there is memory. */
    method Malloc(ok: bool) returns (a: Option<Address>)
      ensures Mallocs(a) && (a.Some? <==> ok)
    {
      if !ok {
        return None;
      }
      var candidate: nat := 1;
      ghost var left := memory.Keys;
      while candidate in memory
        invariant candidate != NULL
        invariant forall b :: b in memory && candidate <= b ==> b in left
        decreases left
      {
        left := left - {candidate};
        candidate := candidate + 1;
      }
      return Some(candidate);
    }

    /** One operation on the chain does what it does to the ledger. */
    method Perform(op: Operation, ghost l: Ledger)
      requires Valid() && compare.Some? && l.values == values
      modifies this
      ensures Valid() && values == Do(kind, compare.value, l, op).values
    {
      match op
      case Add(data, ok) =>
        var a := Malloc(ok);
        var code := AddNode(data, a);
      case Delete(data, all) =>
        var count := DeleteNode(data, all);
      case Pop =>
        var data := ChainPopHead();
    }

    /** A run of operations on the chain follows the run on the ledger. */
    method PerformAll(ops: seq<Operation>)
      requires Valid() && compare.Some?
      modifies this
      ensures Valid() && values == Run(kind, compare.value, Ledger(old(values), [], []), ops).values
    {
      ghost var l := Ledger(values, [], []);
      for i := 0 to |ops|
        invariant Valid() && l.values == values
        invariant Run(kind, compare.value, l, ops[i..]) == Run(kind, compare.value, Ledger(old(values), [], []), ops)
      {
        assert ops[i..][1..] == ops[i + 1..];
        Perform(ops[i], l);
        l := Do(kind, compare.value, l, ops[i]);
      }
    }
  }
}
