/** What reaches the final state of `jenkins_hash`: two keys of one length that differ within one block
    never end in the same triple, of which the hash is one word. */
module MemcachedJenkinsState {
  import opened Common
  import opened Words
  import opened MemcachedJenkins
  import opened MemcachedJenkinsHash

  // ---------------------------------------------------------------------------------------
  // Any block-wise computation
  // ---------------------------------------------------------------------------------------

  ghost predicate OneToOne<S(!new)>(f: S -> S) {
    forall s, t :: s != t ==> f(s) != f(t)
  }

  /** Adding the same block to different states leaves them different. */
  ghost predicate Separates<S(!new)>(add: Adder<S>) {
    forall s, t, m: nat :: s != t ==> add(s, m) != add(t, m)
  }

  /** Different states stay different whatever follows. */
  lemma {:induction false} StatesStayApart<S(!new)>(s: S, t: S, m: nat, length: nat, add: Adder<S>, mix: S -> S,
                                             final: S -> S)
    requires 12 * m <= length && s != t && Separates(add) && OneToOne(mix) && OneToOne(final)
    ensures Trail(s, m, length, add, mix, final) != Trail(t, m, length, add, mix, final)
    decreases length - 12 * m
  {
    assert add(s, m) != add(t, m);
    if length - 12 * m > 12 {
      StatesStayApart(mix(add(s, m)), mix(add(t, m)), m + 1, length, add, mix, final);
    }
  }

  /** Two ways to add that agree on every block but number `n`, and never there. */
  ghost predicate DifferAt<S(!new)>(add: Adder<S>, add': Adder<S>, n: nat) {
    && (forall s, m: nat :: m != n ==> add(s, m) == add'(s, m))
    && (forall s :: add(s, n) != add'(s, n))
  }

  lemma {:induction false} SameAfter<S(!new)>(s: S, m: nat, n: nat, length: nat, add: Adder<S>, add': Adder<S>,
                                       mix: S -> S, final: S -> S)
    requires n < m && 12 * m <= length && DifferAt(add, add', n)
    ensures Trail(s, m, length, add, mix, final) == Trail(s, m, length, add', mix, final)
    decreases length - 12 * m
  {
    assert add(s, m) == add'(s, m);
    if length - 12 * m > 12 {
      SameAfter(mix(add(s, m)), m + 1, n, length, add, add', mix, final);
    }
  }

  /** A difference in one block reaches the end. */
  lemma {:induction false} OneBlockReachesEnd<S(!new)>(
      s: S, m: nat, n: nat, length: nat, add: Adder<S>, add': Adder<S>, mix: S -> S, final: S -> S)
    requires m <= n && 12 * n < length
    requires DifferAt(add, add', n) && Separates(add) && OneToOne(mix) && OneToOne(final)
    ensures Trail(s, m, length, add, mix, final) != Trail(s, m, length, add', mix, final)
    decreases n - m
  {
    if m < n {
      assert add(s, m) == add'(s, m);
      OneBlockReachesEnd(mix(add(s, m)), m + 1, n, length, add, add', mix, final);
    } else {
      assert add(s, m) != add'(s, m);
      if length - 12 * m > 12 {
        SameAfter(mix(add'(s, m)), m + 1, n, length, add, add', mix, final);
        StatesStayApart(mix(add(s, m)), mix(add'(s, m)), m + 1, length, add, mix, final);
      }
    }
  }

  // ---------------------------------------------------------------------------------------
  // The hash
  // ---------------------------------------------------------------------------------------

  lemma MixInjective(s: Abc, t: Abc)
    requires s != t
    ensures Mix(s) != Mix(t)
  {
    MixBijective(s);
    MixBijective(t);
  }

  lemma FinalInjective(s: Abc, t: Abc)
    requires s != t
    ensures Final(s) != Final(t)
  {
    FinalBijective(s);
    FinalBijective(t);
  }

  lemma PlusInjective(x: Word, y: Word, v: int)
    requires x != y
    ensures Plus(x, v) != Plus(y, v)
  {
    PlusMinus(x, v);
    PlusMinus(y, v);
  }

  lemma AddBlockInjective(s: Abc, t: Abc, key: seq<Byte>, p: nat, e: Endian)
    requires s != t
    ensures AddBlock(s, key, p, e) != AddBlock(t, key, p, e)
  {
    if s.a != t.a {
      PlusInjective(s.a, t.a, Value(Lane(key, p), e));
    } else if s.b != t.b {
      PlusInjective(s.b, t.b, Value(Lane(key, p + 4), e));
    } else {
      PlusInjective(s.c, t.c, Value(Lane(key, p + 8), e));
    }
  }

  lemma AdderSeparates(key: seq<Byte>, e: Endian)
    ensures Separates(AdderOf(key, e))
  {
    forall s: Abc, t: Abc, m: nat | s != t
      ensures AdderOf(key, e)(s, m) != AdderOf(key, e)(t, m)
    {
      AddBlockInjective(s, t, key, 12 * m, e);
    }
  }

  lemma MixOneToOne()
    ensures OneToOne(Mix)
  {
    forall s, t: Abc | s != t
      ensures Mix(s) != Mix(t)
    {
      MixInjective(s, t);
    }
  }

  lemma FinalOneToOne()
    ensures OneToOne(Final)
  {
    forall s, t: Abc | s != t
      ensures Final(s) != Final(t)
    {
      FinalInjective(s, t);
    }
  }

  lemma ValueInjective(x: Quad, y: Quad, e: Endian)
    requires x != y
    ensures Value(x, e) != Value(y, e)
  {
    if Value(x, e) == Value(y, e) {
      if e.Little? {
        LittleEndianInjective(x.b0, x.b1, x.b2, x.b3, y.b0, y.b1, y.b2, y.b3);
      } else {
        LittleEndianInjective(x.b3, x.b2, x.b1, x.b0, y.b3, y.b2, y.b1, y.b0);
      }
    }
  }

  lemma AddendInjective(x: Word, v: Word, w: Word)
    requires v != w
    ensures Plus(x, v) != Plus(x, w)
  {
    assert Plus(x, v) == Plus(v, x) && Plus(x, w) == Plus(w, x);
    PlusInjective(v, w, x);
  }

  /** Two keys that differ somewhere in the block from `p` on lead from one state to two. */
  lemma BlocksMoveApart(s: Abc, key: seq<Byte>, other: seq<Byte>, p: nat, i: nat, e: Endian)
    requires p <= i < p + 12 && ByteAt(key, i) != ByteAt(other, i)
    ensures AddBlock(s, key, p, e) != AddBlock(s, other, p, e)
  {
    if i < p + 4 {
      LaneApart(s.a, key, other, p, i, e);
    } else if i < p + 8 {
      LaneApart(s.b, key, other, p + 4, i, e);
    } else {
      LaneApart(s.c, key, other, p + 8, i, e);
    }
  }

  lemma LaneApart(x: Word, key: seq<Byte>, other: seq<Byte>, p: nat, i: nat, e: Endian)
    requires p <= i < p + 4 && ByteAt(key, i) != ByteAt(other, i)
    ensures Plus(x, Value(Lane(key, p), e)) != Plus(x, Value(Lane(other, p), e))
  {
    ValueInjective(Lane(key, p), Lane(other, p), e);
    AddendInjective(x, Value(Lane(key, p), e), Value(Lane(other, p), e));
  }

  /** The keys differ in the block from `p` on, at `i`, and nowhere else. */
  predicate DifferInBlock(key: seq<Byte>, other: seq<Byte>, p: nat, i: nat) {
    && |key| == |other| && p <= i < p + 12 && i < |key| && key[i] != other[i]
    && forall j :: 0 <= j < |key| && (j < p || p + 12 <= j) ==> key[j] == other[j]
  }

  /** A block elsewhere: blocks start at multiples of twelve. */
  lemma SameBlock(s: Abc, key: seq<Byte>, other: seq<Byte>, n: nat, i: nat, m: nat, e: Endian)
    requires DifferInBlock(key, other, 12 * n, i) && m != n
    ensures AddBlock(s, key, 12 * m, e) == AddBlock(s, other, 12 * m, e)
  {
    assert forall j: nat :: 12 * m <= j < 12 * m + 12 ==> ByteAt(key, j) == ByteAt(other, j);
    assert Lane(key, 12 * m) == Lane(other, 12 * m);
    assert Lane(key, 12 * m + 4) == Lane(other, 12 * m + 4);
    assert Lane(key, 12 * m + 8) == Lane(other, 12 * m + 8);
  }

  lemma AddersDiffer(key: seq<Byte>, other: seq<Byte>, n: nat, i: nat, e: Endian)
    requires DifferInBlock(key, other, 12 * n, i)
    ensures DifferAt(AdderOf(key, e), AdderOf(other, e), n)
  {
    forall s: Abc, m: nat | m != n
      ensures AdderOf(key, e)(s, m) == AdderOf(other, e)(s, m)
    {
      SameBlock(s, key, other, n, i, m, e);
    }
    forall s: Abc
      ensures AdderOf(key, e)(s, n) != AdderOf(other, e)(s, n)
    {
      BlocksMoveApart(s, key, other, 12 * n, i, e);
    }
  }

  /** Keys of one length that differ only within one block never end in the same triple. */
  lemma KeysStayApart(key: seq<Byte>, other: seq<Byte>, n: nat, i: nat, e: Endian)
    requires DifferInBlock(key, other, 12 * n, i)
    ensures EndState(key, e) != EndState(other, e)
  {
    AdderSeparates(key, e);
    MixOneToOne();
    FinalOneToOne();
    AddersDiffer(key, other, n, i, e);
    OneBlockReachesEnd(Start(|key|), 0, n, |key|, AdderOf(key, e), AdderOf(other, e), Mix, Final);
  }

  // ---------------------------------------------------------------------------------------
  // The length
  // ---------------------------------------------------------------------------------------

  /** Two ways to add that agree on every block. */
  ghost predicate Agree<S(!new)>(add: Adder<S>, add': Adder<S>) {
    forall s, m: nat :: add(s, m) == add'(s, m)
  }

  /** Lengths that end within one block give one computation. */
  lemma {:induction false} SameTrail<S(!new)>(s: S, m: nat, n: nat, length: nat, length': nat, add: Adder<S>,
                                       add': Adder<S>, mix: S -> S, final: S -> S)
    requires m <= n && 12 * n < length <= 12 * n + 12 && 12 * n < length' <= 12 * n + 12 && Agree(add, add')
    ensures Trail(s, m, length, add, mix, final) == Trail(s, m, length', add', mix, final)
    decreases n - m
  {
    assert add(s, m) == add'(s, m);
    if m < n {
      SameTrail(mix(add(s, m)), m + 1, n, length, length', add, add', mix, final);
    }
  }

  lemma AppendZero(key: seq<Byte>, e: Endian)
    ensures Agree(AdderOf(key + [0], e), AdderOf(key, e))
  {
    assert forall i: nat :: ByteAt(key + [0], i) == ByteAt(key, i);
  }

  lemma StartsDiffer(n: nat)
    ensures Start(n + 1) != Start(n)
  {
  }

  /** The length keeps a key apart from the same key with a zero byte after it, though every block is
      the same. */
  lemma ZeroByteChangesState(key: seq<Byte>, e: Endian)
    requires |key| % 12 != 0
    ensures EndState(key + [0], e) != EndState(key, e)
  {
    AppendZero(key, e);
    SameTrail(Start(|key| + 1), 0, |key| / 12, |key| + 1, |key|, AdderOf(key + [0], e), AdderOf(key, e), Mix, Final);
    StartsDiffer(|key|);
    AdderSeparates(key, e);
    MixOneToOne();
    FinalOneToOne();
    StatesStayApart(Start(|key| + 1), Start(|key|), 0, |key|, AdderOf(key, e), Mix, Final);
  }
}
