/** MurmurHash3_x86_32. Every step is a bijection on 32-bit words, so a change in one block or in
    the tail of a key always changes the hash, and any hash can be reached by choosing one block. */
module MemcachedMurmur3 {
  import opened Arithmetic
  import opened Common
  import opened Words

  function Rotl15(x: Word): Word { Rot(x, 0x8000, 0x2_0000) }
  function Rotr15(x: Word): Word { Rot(x, 0x2_0000, 0x8000) }
  function Rotl13(x: Word): Word { Rot(x, 0x2000, 0x8_0000) }
  function Rotr13(x: Word): Word { Rot(x, 0x8_0000, 0x2000) }

  /** What a block goes through before it enters the hash. */
  function Scramble(k: Word): Word { Mul(Rotl15(Mul(k, 0xcc9e2d51)), 0x1b873593) }

  function Unscramble(k: Word): Word { Mul(Rotr15(Mul(k, 0x56ed309b)), 0xdee13bb1) }

  /** What the state goes through after a block has entered it. */
  function Spread(h: Word): Word { Plus(Mul(Rotl13(h), 5), 0xe6546b64) }

  function Unspread(h: Word): Word { Rotr13(Mul(Plus(h, -0xe6546b64), 0xcccccccd)) }

  /** One block step. */
  function Step(h: Word, k: Word): Word { Spread(Xor32(h, Scramble(k))) }

  function Unstep(h: Word, k: Word): Word { Xor32(Unspread(h), Scramble(k)) }

  function Fmix(h: Word): Word {
    XorShift(Mul(XorShift(Mul(XorShift(h, 16), 0x85ebca6b), 13), 0xc2b2ae35), 16)
  }

  function Unfmix(h: Word): Word {
    XorShift(Mul(XorShift2(Mul(XorShift(h, 16), 0x7ed1b41d), 13), 0xa5cb9243), 16)
  }

  lemma ScrambleBijective(k: Word)
    ensures Unscramble(Scramble(k)) == k && Scramble(Unscramble(k)) == k
  {
    var x := Mul(k, 0xcc9e2d51);
    MulInverse(Rotl15(x), 0x1b873593, 0x56ed309b, 156822886);
    RotInverse(x, 0x8000, 0x2_0000);
    MulInverse(k, 0xcc9e2d51, 0xdee13bb1, 2988782088);
    var y := Mul(k, 0x56ed309b);
    MulInverse(Rotr15(y), 0xdee13bb1, 0xcc9e2d51, 2988782088);
    RotInverse(y, 0x2_0000, 0x8000);
    MulInverse(k, 0x56ed309b, 0x1b873593, 156822886);
  }

  lemma FmixBijective(h: Word)
    ensures Unfmix(Fmix(h)) == h && Fmix(Unfmix(h)) == h
  {
    var x1 := XorShift(h, 16);
    var h1 := Mul(x1, 0x85ebca6b);
    var x2 := XorShift(h1, 13);
    var h2 := Mul(x2, 0xc2b2ae35);
    XorShiftSelfInverse(h2, 16);
    MulInverse(x2, 0xc2b2ae35, 0x7ed1b41d, 1618177690);
    XorShiftInverse(h1, 13);
    MulInverse(x1, 0x85ebca6b, 0xa5cb9243, 1455126516);
    XorShiftSelfInverse(h, 16);
    FmixUnfmix(h);
  }

  lemma FmixUnfmix(h: Word)
    ensures Fmix(Unfmix(h)) == h
  {
    var x2 := XorShift(h, 16);
    var h2 := Mul(x2, 0x7ed1b41d);
    var x1 := XorShift2(h2, 13);
    var h1 := Mul(x1, 0xa5cb9243);
    XorShiftSelfInverse(h1, 16);
    MulInverse(x1, 0xa5cb9243, 0x85ebca6b, 1455126516);
    XorShiftInverse(h2, 13);
    MulInverse(x2, 0x7ed1b41d, 0xc2b2ae35, 1618177690);
    XorShiftSelfInverse(h, 16);
  }

  lemma UnspreadSpread(h: Word)
    ensures Unspread(Spread(h)) == h
  {
    var x := Rotl13(h);
    PlusInverse(Mul(x, 5), 0xe6546b64, -0xe6546b64);
    MulInverse(x, 5, 0xcccccccd, 4);
    RotInverse(h, 0x2000, 0x8_0000);
  }

  lemma SpreadUnspread(h: Word)
    ensures Spread(Unspread(h)) == h
  {
    var d := Plus(h, -0xe6546b64);
    var y := Mul(d, 0xcccccccd);
    RotInverse(y, 0x8_0000, 0x2000);
    MulInverse(d, 0xcccccccd, 5, 4);
    PlusInverse(h, -0xe6546b64, 0xe6546b64);
  }

  lemma StepBijective(h: Word, k: Word)
    ensures Unstep(Step(h, k), k) == h && Step(Unstep(h, k), k) == h
  {
    var s := Scramble(k);
    UnspreadSpread(Xor32(h, s));
    XorCancels(h, s);
    XorCancels(Unspread(h), s);
    SpreadUnspread(h);
  }

  /** The block that takes `h` to `h'`. */
  function BlockBetween(h: Word, h': Word): Word { Unscramble(Xor32(h, Unspread(h'))) }

  lemma XorSolve(h: Word, s: Word)
    ensures Xor32(h, Xor32(h, s)) == s
  {
    XorAssociates(h, h, s);
    XorSelf(h);
    XorZero(s);
  }

  lemma StepBlockBijective(h: Word, k: Word)
    ensures BlockBetween(h, Step(h, k)) == k && Step(h, BlockBetween(h, k)) == k
  {
    UnspreadSpread(Xor32(h, Scramble(k)));
    XorSolve(h, Scramble(k));
    ScrambleBijective(k);
    var u := Unspread(k);
    ScrambleBijective(Xor32(h, u));
    XorSolve(h, u);
    SpreadUnspread(k);
  }

  // ---------------------------------------------------------------------------------------
  // Runs of blocks, for any reversible step
  // ---------------------------------------------------------------------------------------

  type Mixer = (Word, Word) -> Word

  function Fold(f: Mixer, h: Word, ks: seq<Word>): Word
    decreases |ks|
  {
    if ks == [] then h else Fold(f, f(h, ks[0]), ks[1..])
  }

  /** `back` recovers the state from before a step, `between` the block that was mixed in. */
  ghost predicate Reversible(f: Mixer, back: Mixer, between: Mixer) {
    forall h: Word, k: Word ::
      && back(f(h, k), k) == h && f(back(h, k), k) == h
      && between(h, f(h, k)) == k && f(h, between(h, k)) == k
  }

  lemma {:induction false} FoldAppend(f: Mixer, h: Word, ks: seq<Word>, ls: seq<Word>)
    ensures Fold(f, h, ks + ls) == Fold(f, Fold(f, h, ks), ls)
    decreases |ks|
  {
    if ks == [] {
      assert ks + ls == ls;
    } else {
      assert (ks + ls)[0] == ks[0] && (ks + ls)[1..] == ks[1..] + ls;
      FoldAppend(f, f(h, ks[0]), ks[1..], ls);
    }
  }

  lemma {:induction false} FoldInjective(f: Mixer, back: Mixer, between: Mixer, h: Word, h': Word, ks: seq<Word>)
    requires Reversible(f, back, between) && h != h'
    ensures Fold(f, h, ks) != Fold(f, h', ks)
    decreases |ks|
  {
    if ks != [] {
      assert back(f(h, ks[0]), ks[0]) == h && back(f(h', ks[0]), ks[0]) == h';
      FoldInjective(f, back, between, f(h, ks[0]), f(h', ks[0]), ks[1..]);
    }
  }

  lemma {:induction false} FoldOnto(f: Mixer, back: Mixer, between: Mixer, target: Word, ks: seq<Word>)
    returns (h: Word)
    requires Reversible(f, back, between)
    ensures Fold(f, h, ks) == target
    decreases |ks|
  {
    h := target;
    if ks != [] {
      var h1 := FoldOnto(f, back, between, target, ks[1..]);
      h := back(h1, ks[0]);
      assert f(h, ks[0]) == h1;
    }
  }

  /** One block among others: the state before it, the block, and what follows. */
  lemma FoldAround(f: Mixer, h: Word, pre: seq<Word>, k: Word, post: seq<Word>)
    ensures Fold(f, h, pre + ([k] + post)) == Fold(f, f(Fold(f, h, pre), k), post)
  {
    FoldAppend(f, h, pre, [k] + post);
    assert ([k] + post)[1..] == post;
  }

  /** Changing one block changes the state at the end. */
  lemma BlockMatters(f: Mixer, back: Mixer, between: Mixer, h: Word, ks: seq<Word>, i: nat, k: Word)
    requires Reversible(f, back, between) && i < |ks| && ks[i] != k
    ensures Fold(f, h, ks) != Fold(f, h, ks[i := k])
  {
    var pre, post := ks[..i], ks[i + 1..];
    var mid := Fold(f, h, pre);
    assert ks == pre + ([ks[i]] + post) && ks[i := k] == pre + ([k] + post);
    FoldAround(f, h, pre, ks[i], post);
    FoldAround(f, h, pre, k, post);
    assert between(mid, f(mid, k)) == k && between(mid, f(mid, ks[i])) == ks[i];
    FoldInjective(f, back, between, f(mid, ks[i]), f(mid, k), post);
  }

  /** Some choice of that block reaches any state. */
  lemma BlockReaches(f: Mixer, back: Mixer, between: Mixer, h: Word, ks: seq<Word>, i: nat, target: Word)
    returns (k: Word)
    requires Reversible(f, back, between) && i < |ks|
    ensures Fold(f, h, ks[i := k]) == target
  {
    var pre, post := ks[..i], ks[i + 1..];
    var mid := Fold(f, h, pre);
    var after := FoldOnto(f, back, between, target, post);
    k := between(mid, after);
    assert ks[i := k] == pre + ([k] + post);
    FoldAround(f, h, pre, k, post);
    assert f(mid, k) == after;
  }

  lemma StepReversible()
    ensures Reversible(Step, Unstep, BlockBetween)
  {
    forall h: Word, k: Word
      ensures Unstep(Step(h, k), k) == h && Step(Unstep(h, k), k) == h
      ensures BlockBetween(h, Step(h, k)) == k && Step(h, BlockBetween(h, k)) == k
    {
      StepBijective(h, k);
      StepBlockBijective(h, k);
    }
  }

  // ---------------------------------------------------------------------------------------
  // Keys
  // ---------------------------------------------------------------------------------------

  /** How the machine reads four bytes as a word. */
  function Load(b: seq<Byte>, bigEndian: bool): Word
    requires |b| == 4
  {
    if bigEndian then LittleEndian(b[3], b[2], b[1], b[0]) else LittleEndian(b[0], b[1], b[2], b[3])
  }

  function Store(w: Word, bigEndian: bool): (b: seq<Byte>)
    ensures |b| == 4
    ensures Load(b, bigEndian) == w
  {
    var x, y, z := w / 0x100, w / 0x100 / 0x100, w / 0x100 / 0x100 / 0x100;
    if bigEndian then [z, y % 0x100, x % 0x100, w % 0x100] else [w % 0x100, x % 0x100, y % 0x100, z]
  }

  lemma LoadInjective(a: seq<Byte>, b: seq<Byte>, bigEndian: bool)
    requires |a| == |b| == 4 && Load(a, bigEndian) == Load(b, bigEndian)
    ensures a == b
  {
    if bigEndian {
      LittleEndianInjective(a[3], a[2], a[1], a[0], b[3], b[2], b[1], b[0]);
    } else {
      LittleEndianInjective(a[0], a[1], a[2], a[3], b[0], b[1], b[2], b[3]);
    }
  }

  /** The whole blocks of a key, as words. */
  function Blocks(key: seq<Byte>, bigEndian: bool): (ks: seq<Word>)
    ensures |ks| == |key| / 4
    ensures forall i :: 0 <= i < |ks| ==> ks[i] == Load(key[4 * i..4 * i + 4], bigEndian)
  {
    seq(|key| / 4, i requires 0 <= i < |key| / 4 => Load(key[4 * i..4 * i + 4], bigEndian))
  }

  /** The bytes after the last whole block. */
  function Tail(key: seq<Byte>): (t: seq<Byte>)
    ensures |t| == |key| % 4
  {
    key[|key| - |key| % 4..]
  }

  /** The tail as a word, low byte first on every machine. */
  function TailWord(t: seq<Byte>): Word
    requires |t| < 4
  {
    LittleEndian(if |t| > 0 then t[0] else 0, if |t| > 1 then t[1] else 0, if |t| > 2 then t[2] else 0, 0)
  }

  /** What the tail contributes; nothing without one. */
  function TailMask(t: seq<Byte>): Word
    requires |t| < 4
  {
    if t == [] then 0 else Scramble(TailWord(t))
  }

  function Finish(h: Word, tail: seq<Byte>, length: nat): Word
    requires |tail| < 4
  {
    Fmix(Xor32(Xor32(h, TailMask(tail)), Wrap32(length)))
  }

  function Unfinish(h: Word, tail: seq<Byte>, length: nat): Word
    requires |tail| < 4
  {
    Xor32(Xor32(Unfmix(h), Wrap32(length)), TailMask(tail))
  }

  lemma FinishBijective(h: Word, tail: seq<Byte>, length: nat)
    requires |tail| < 4
    ensures Unfinish(Finish(h, tail, length), tail, length) == h
    ensures Finish(Unfinish(h, tail, length), tail, length) == h
  {
    var m, n := TailMask(tail), Wrap32(length);
    FmixBijective(Xor32(Xor32(h, m), n));
    XorCancels(Xor32(h, m), n);
    XorCancels(h, m);
    var u := Unfmix(h);
    XorCancels(Xor32(u, n), m);
    XorCancels(u, n);
    FmixBijective(h);
  }

  lemma TailsDiffer(h: Word, s: seq<Byte>, t: seq<Byte>, length: nat)
    requires |s| == |t| < 4 && s != t
    ensures Finish(h, s, length) != Finish(h, t, length)
  {
    if Finish(h, s, length) == Finish(h, t, length) {
      var m, n, l := TailMask(s), TailMask(t), Wrap32(length);
      FmixBijective(Xor32(Xor32(h, m), l));
      FmixBijective(Xor32(Xor32(h, n), l));
      XorCancels(Xor32(h, m), l);
      XorCancels(Xor32(h, n), l);
      XorSolve(h, m);
      XorSolve(h, n);
      ScrambleBijective(TailWord(s));
      ScrambleBijective(TailWord(t));
      TailWordInjective(s, t);
    }
  }

  lemma TailWordInjective(s: seq<Byte>, t: seq<Byte>)
    requires |s| == |t| < 4 && TailWord(s) == TailWord(t)
    ensures s == t
  {
    var b0: Byte, b1: Byte, b2: Byte :=
      if |s| > 0 then s[0] else 0, if |s| > 1 then s[1] else 0, if |s| > 2 then s[2] else 0;
    var c0: Byte, c1: Byte, c2: Byte :=
      if |t| > 0 then t[0] else 0, if |t| > 1 then t[1] else 0, if |t| > 2 then t[2] else 0;
    LittleEndianInjective(b0, b1, b2, 0, c0, c1, c2, 0);
  }

  function Hash(key: seq<Byte>, bigEndian: bool): Word {
    Finish(Fold(Step, 0, Blocks(key, bigEndian)), Tail(key), |key|)
  }

  /** A key with its block number `i` replaced. */
  function WithBlock(key: seq<Byte>, i: nat, block: seq<Byte>): (r: seq<Byte>)
    requires 4 * i + 4 <= |key| && |block| == 4
    ensures |r| == |key|
  {
    key[..4 * i] + block + key[4 * i + 4..]
  }

  lemma WithBlockAt(key: seq<Byte>, i: nat, block: seq<Byte>, j: nat)
    requires 4 * i + 4 <= |key| && |block| == 4 && 4 * j + 4 <= |key|
    ensures WithBlock(key, i, block)[4 * j..4 * j + 4] == if j == i then block else key[4 * j..4 * j + 4]
  {
    var key' := WithBlock(key, i, block);
    if j == i {
      assert key'[4 * i..4 * i + 4] == block;
    } else {
      assert forall n :: 4 * j <= n < 4 * j + 4 ==> key'[n] == key[n];
      assert key'[4 * j..4 * j + 4] == key[4 * j..4 * j + 4];
    }
  }

  lemma WithBlockAfter(key: seq<Byte>, i: nat, block: seq<Byte>, n: nat)
    requires 4 * i + 4 <= n <= |key| && |block| == 4
    ensures WithBlock(key, i, block)[n..] == key[n..]
  {
    var left, right := key[..4 * i] + block, key[4 * i + 4..];
    assert (left + right)[n..] == right[n - |left|..];
  }

  lemma BlockEndsInWhole(n: nat, i: nat)
    requires 4 * i + 4 <= n
    ensures 4 * i + 4 <= n - n % 4
  {
  }

  lemma WithBlockParts(key: seq<Byte>, i: nat, block: seq<Byte>, bigEndian: bool)
    requires 4 * i + 4 <= |key| && |block| == 4
    ensures Blocks(WithBlock(key, i, block), bigEndian) == Blocks(key, bigEndian)[i := Load(block, bigEndian)]
    ensures Tail(WithBlock(key, i, block)) == Tail(key)
  {
    var key' := WithBlock(key, i, block);
    forall j | 0 <= j < |key| / 4
      ensures Blocks(key', bigEndian)[j] == Blocks(key, bigEndian)[i := Load(block, bigEndian)][j]
    {
      WithBlockAt(key, i, block, j);
    }
    BlockEndsInWhole(|key|, i);
    WithBlockAfter(key, i, block, |key| - |key| % 4);
  }

  /** Keys that differ in one aligned block only never have the same hash. */
  lemma BlockChangesHash(key: seq<Byte>, i: nat, block: seq<Byte>, bigEndian: bool)
    requires 4 * i + 4 <= |key| && |block| == 4
    requires key[4 * i..4 * i + 4] != block
    ensures Hash(WithBlock(key, i, block), bigEndian) != Hash(key, bigEndian)
  {
    var ks, k := Blocks(key, bigEndian), Load(block, bigEndian);
    WithBlockParts(key, i, block, bigEndian);
    if ks[i] == k {
      LoadInjective(key[4 * i..4 * i + 4], block, bigEndian);
      assert false;
    }
    StepReversible();
    BlockMatters(Step, Unstep, BlockBetween, 0, ks, i, k);
    FinishBijective(Fold(Step, 0, ks), Tail(key), |key|);
    FinishBijective(Fold(Step, 0, ks[i := k]), Tail(key), |key|);
  }

  /** One block is enough to reach any hash. */
  lemma BlockReachesHash(key: seq<Byte>, i: nat, target: Word, bigEndian: bool) returns (block: seq<Byte>)
    requires 4 * i + 4 <= |key|
    ensures |block| == 4 && Hash(WithBlock(key, i, block), bigEndian) == target
  {
    StepReversible();
    var k := BlockReaches(Step, Unstep, BlockBetween, 0, Blocks(key, bigEndian), i,
                          Unfinish(target, Tail(key), |key|));
    block := Store(k, bigEndian);
    WithBlockParts(key, i, block, bigEndian);
    FinishBijective(target, Tail(key), |key|);
  }

  /** Keys that differ in the tail only never have the same hash. */
  lemma TailChangesHash(blocks: seq<Byte>, s: seq<Byte>, t: seq<Byte>, bigEndian: bool)
    requires |blocks| % 4 == 0 && |s| == |t| < 4 && s != t
    ensures Hash(blocks + s, bigEndian) != Hash(blocks + t, bigEndian)
  {
    TailParts(blocks, s, bigEndian);
    TailParts(blocks, t, bigEndian);
    TailsDiffer(Fold(Step, 0, Blocks(blocks, bigEndian)), s, t, |blocks| + |s|);
  }

  lemma TailParts(blocks: seq<Byte>, t: seq<Byte>, bigEndian: bool)
    requires |blocks| % 4 == 0 && |t| < 4
    ensures Blocks(blocks + t, bigEndian) == Blocks(blocks, bigEndian) && Tail(blocks + t) == t
  {
    var key := blocks + t;
    DivMod(|key|, 4, |blocks| / 4, |t|);
    forall j | 0 <= j < |blocks| / 4
      ensures Blocks(key, bigEndian)[j] == Blocks(blocks, bigEndian)[j]
    {
      assert key[4 * j..4 * j + 4] == blocks[4 * j..4 * j + 4];
    }
  }

  // ---------------------------------------------------------------------------------------
  // The program
  // ---------------------------------------------------------------------------------------

  method MixBlock(h: Word, block: Word) returns (r: Word)
    ensures r == Step(h, block)
  {
    var k := Mul(block, 0xcc9e2d51);
    k := Rotl15(k);
    k := Mul(k, 0x1b873593);
    r := Xor32(h, k);
    r := Rotl13(r);
    r := Mul(r, 5);
    r := Plus(r, 0xe6546b64);
  }

  lemma FoldNext(f: Mixer, h: Word, ks: seq<Word>, at: nat)
    requires at < |ks|
    ensures Fold(f, h, ks[at..]) == Fold(f, f(h, ks[at]), ks[at + 1..])
  {
    assert ks[at..][0] == ks[at] && ks[at..][1..] == ks[at + 1..];
  }

  /** Blocks are counted from minus their number up to zero. */
  method MixBlocks(key: seq<Byte>, nblocks: int, bigEndian: bool) returns (h: Word)
    requires nblocks == |key| / 4
    ensures h == Fold(Step, 0, Blocks(key, bigEndian))
  {
    h := 0;
    ghost var ks := Blocks(key, bigEndian);
    var i := -nblocks;
    while i != 0
      invariant -nblocks <= i <= 0
      invariant Fold(Step, h, ks[nblocks + i..]) == Fold(Step, 0, ks)
      decreases -i
    {
      var at := nblocks + i;
      FoldNext(Step, h, ks, at);
      h := MixBlock(h, Load(key[4 * at..4 * at + 4], bigEndian));
      i := i + 1;
    }
  }

  function Shifted(b: Byte, factor: int): int { factor * b }

  lemma XorBytes(b0: Byte, b1: Byte, b2: Byte)
    ensures Xor(Xor(Shifted(b2, 0x1_0000), Shifted(b1, 0x100)), b0) == LittleEndian(b0, b1, b2, 0)
  {
    assert Pow2(8) == 0x100;
    assert Pow2(16) == 0x1_0000;
    XorDisjoint(b2, Shifted(b1, 0x100), 16);
    XorDisjoint(Shifted(b2, 0x100) + b1, b0, 8);
  }

  /** The switch on the tail length falls through from the last byte to the first. */
  method MixTail(h: Word, tail: seq<Byte>) returns (r: Word)
    requires |tail| < 4
    ensures r == Xor32(h, TailMask(tail))
  {
    XorBytes(if |tail| > 0 then tail[0] else 0, if |tail| > 1 then tail[1] else 0, if |tail| > 2 then tail[2] else 0);
    XorZero(h);
    XorZero(0);
    var k: Word := 0;
    r := h;
    if |tail| >= 3 {
      XorZero(Shifted(tail[2], 0x1_0000));
      k := Xor32(k, Shifted(tail[2], 0x1_0000));
    }
    if |tail| >= 2 {
      k := Xor32(k, Shifted(tail[1], 0x100));
    }
    if |tail| >= 1 {
      k := Xor32(k, tail[0]);
      assert k == TailWord(tail);
      k := Mul(k, 0xcc9e2d51);
      k := Rotl15(k);
      k := Mul(k, 0x1b873593);
      r := Xor32(r, k);
    }
  }

  method MurmurHash3(key: seq<Byte>, bigEndian: bool) returns (h: Word)
    requires 4 * (|key| / 4) < 0x8000_0000  // the length of the blocks is computed as a signed 32-bit integer
    ensures h == Hash(key, bigEndian)
  {
    var nblocks := |key| / 4;
    h := MixBlocks(key, nblocks, bigEndian);
    h := MixTail(h, key[4 * nblocks..]);
    h := Xor32(h, Wrap32(|key|));
    h := Fmix(h);
  }

  // ---------------------------------------------------------------------------------------
  // The length, and the constants
  // ---------------------------------------------------------------------------------------

  /** Undoing the last mix and taking blocks and tail away leaves the length. */
  lemma LengthIsRecovered(key: seq<Byte>, bigEndian: bool)
    ensures var body := Xor32(Fold(Step, 0, Blocks(key, bigEndian)), TailMask(Tail(key)));
            Xor32(body, Unfmix(Hash(key, bigEndian))) == |key| % TWO_32
  {
    var body := Xor32(Fold(Step, 0, Blocks(key, bigEndian)), TailMask(Tail(key)));
    FmixBijective(Xor32(body, Wrap32(|key|)));
    XorSolve(body, Wrap32(|key|));
  }

  lemma ScrambleZero()
    ensures Scramble(0) == 0
  {
  }

  lemma AppendZero(key: seq<Byte>, bigEndian: bool)
    requires |key| % 4 < 3
    ensures Blocks(key + [0], bigEndian) == Blocks(key, bigEndian)
    ensures TailMask(Tail(key + [0])) == TailMask(Tail(key))
  {
    var key' := key + [0];
    assert |key'| / 4 == |key| / 4 && |key'| % 4 == |key| % 4 + 1;
    forall i | 0 <= i < |key| / 4
      ensures key'[4 * i..4 * i + 4] == key[4 * i..4 * i + 4]
    {
    }
    assert Tail(key') == Tail(key) + [0];
    ScrambleZero();
  }

  lemma LengthsDiffer(body: Word, m: Word, n: Word)
    requires m != n
    ensures Fmix(Xor32(body, m)) != Fmix(Xor32(body, n))
  {
    FmixBijective(Xor32(body, m));
    FmixBijective(Xor32(body, n));
    XorSolve(body, m);
    XorSolve(body, n);
  }

  lemma NextWraps(n: nat)
    ensures Wrap32(n + 1) != Wrap32(n)
  {
  }

  /** The length keeps a key apart from the same key with a zero byte after it, though blocks and tail
      are the same numbers. */
  lemma ZeroByteChangesHash(key: seq<Byte>, bigEndian: bool)
    requires |key| % 4 < 3
    ensures Hash(key + [0], bigEndian) != Hash(key, bigEndian)
  {
    AppendZero(key, bigEndian);
    NextWraps(|key|);
    LengthsDiffer(Xor32(Fold(Step, 0, Blocks(key, bigEndian)), TailMask(Tail(key))), Wrap32(|key|), Wrap32(|key| + 1));
  }

  /** The two multipliers and the rotation that a block goes through, by one value. */
  lemma ScrambleConstants()
    ensures Scramble(1) == 0xc3539a5d
  {
    assert Rotl15(0xcc9e2d51) == 0x16a8e64f;
  }

  /** The rotation, the multiplier and the addend that the state goes through, by two values. */
  lemma SpreadConstants()
    ensures Spread(0) == 0xe6546b64 && Spread(1) == 0xe6550b64
  {
    assert Rotl13(1) == 0x2000 && Mul(0x2000, 5) == 0xa000;
  }

  /** The two multipliers and the three shifts of the last mix: a word whose product with the first
      multiplier is 2^13 goes to a known one. */
  lemma FmixConstants(x: Word)
    requires x * 0x85ebca6b % TWO_32 == 0x2000
    ensures Fmix(XorShift(x, 16)) == XorShift(0x2001 * 0xc2b2ae35 % TWO_32, 16)
  {
    XorShiftSelfInverse(x, 16);
    assert Pow2(13) == 0x2000;
    assert Shr(0x2000, 13) == 1;
    XorDisjoint(1, 1, 13);
  }
}
