/** `jenkins_hash` for both byte orders. It reads the key by 32-bit words, 16-bit halves or bytes,
    whichever its address allows; all ways compute one function of the key. */
module MemcachedJenkinsHash {
  import opened Arithmetic
  import opened Common
  import opened Words
  import opened MemcachedJenkins

  // ---------------------------------------------------------------------------------------
  // The hash of a key
  // ---------------------------------------------------------------------------------------

  datatype Endian = Little | Big

  /** Byte `i` of the key, and 0 beyond its end. */
  function ByteAt(key: seq<Byte>, i: nat): Byte {
    if i < |key| then key[i] else 0
  }

  /** A word by its bytes, the lowest address first. */
  datatype Quad = Quad(b0: Byte, b1: Byte, b2: Byte, b3: Byte)

  /** Its value on a machine of either kind. */
  function Value(q: Quad, e: Endian): Word {
    if e.Little? then LittleEndian(q.b0, q.b1, q.b2, q.b3) else LittleEndian(q.b3, q.b2, q.b1, q.b0)
  }

  /** Four bytes from position `p`. */
  function Lane(key: seq<Byte>, p: nat): Quad {
    Quad(ByteAt(key, p), ByteAt(key, p + 1), ByteAt(key, p + 2), ByteAt(key, p + 3))
  }

  /** Twelve bytes are added to the state. */
  function AddBlock(s: Abc, key: seq<Byte>, p: nat, e: Endian): Abc {
    Abc(Plus(s.a, Value(Lane(key, p), e)), Plus(s.b, Value(Lane(key, p + 4), e)), Plus(s.c, Value(Lane(key, p + 8), e)))
  }

  function Start(length: nat): Abc {
    var x := Wrap32(0xdeadbeef + length);
    Abc(x, x, x)
  }

  /** Brings a block, known by its number, into the state. */
  type Adder<!S> = (S, nat) -> S

  /** Each block of twelve bytes is added and mixed in; after the last there is a final mix. */
  function Trail<S>(s: S, m: nat, length: nat, add: Adder<S>, mix: S -> S, final: S -> S): S
    requires 12 * m <= length
    decreases length - 12 * m
  {
    if length - 12 * m > 12 then Trail(mix(add(s, m)), m + 1, length, add, mix, final)
    else if length == 12 * m then s
    else final(add(s, m))
  }

  function AdderOf(key: seq<Byte>, e: Endian): Adder<Abc> {
    (s: Abc, m: nat) => AddBlock(s, key, 12 * m, e)
  }

  /** What becomes of the state when the blocks from number `m` on are still to come. */
  function Rest(s: Abc, key: seq<Byte>, m: nat, e: Endian): Abc
    requires 12 * m <= |key|
  {
    Trail(s, m, |key|, AdderOf(key, e), Mix, Final)
  }

  /** The triple whose last word is the hash. */
  function EndState(key: seq<Byte>, e: Endian): Abc {
    Rest(Start(|key|), key, 0, e)
  }

  function Hash(key: seq<Byte>, e: Endian): Word {
    EndState(key, e).c
  }

  /** What is still to come, as a function that the block loops need not look into: it takes the next
      block in. */
  type Continuation = (Abc, nat) -> Abc

  ghost predicate Absorbs(rest: Continuation, key: seq<Byte>, e: Endian) {
    forall s: Abc, m: nat :: AbsorbsAt(rest, key, e, s, m)
  }

  predicate AbsorbsAt(rest: Continuation, key: seq<Byte>, e: Endian, s: Abc, m: nat) {
    12 * m + 12 < |key| ==> rest(s, m) == rest(Mix(AddBlock(s, key, 12 * m, e)), m + 1)
  }

  function RestOf(key: seq<Byte>, e: Endian): Continuation {
    (s: Abc, m: nat) => if 12 * m <= |key| then Rest(s, key, m, e) else s
  }

  lemma RestAbsorbs(key: seq<Byte>, e: Endian)
    ensures Absorbs(RestOf(key, e), key, e)
  {
    forall s: Abc, m: nat
      ensures AbsorbsAt(RestOf(key, e), key, e, s, m)
    {
      if 12 * m + 12 < |key| {
        RestNext(s, key, m, 12 * m, e);
      }
    }
  }

  lemma RestNext(s: Abc, key: seq<Byte>, m: nat, k: nat, e: Endian)
    requires k == 12 * m && k + 12 < |key|
    ensures Rest(s, key, m, e) == Rest(Mix(AddBlock(s, key, k, e)), key, m + 1, e)
  {
  }

  lemma RestLast(s: Abc, key: seq<Byte>, m: nat, k: nat, e: Endian)
    requires k == 12 * m < |key| <= k + 12
    ensures Rest(s, key, m, e) == Final(AddBlock(s, key, k, e))
  {
  }

  // ---------------------------------------------------------------------------------------
  // Reading memory
  // ---------------------------------------------------------------------------------------

  /** A 16-bit load on a little-endian machine. */
  function Load16(mem: seq<Byte>, at: nat): int
    requires at + 2 <= |mem|
  {
    Half(mem[at], mem[at + 1])
  }

  function Half(b0: int, b1: int): int { b0 + 0x100 * b1 }

  function Load32(mem: seq<Byte>, at: nat): Quad
    requires at + 4 <= |mem|
  {
    Quad(mem[at], mem[at + 1], mem[at + 2], mem[at + 3])
  }

  /** Shifts of a byte or a half, which stay within 32 bits. */
  function Shl8(x: int): int { 0x100 * x }
  function Shl16(x: int): int { 0x1_0000 * x }
  function Shl24(x: int): int { 0x100_0000 * x }

  /** The first `n` bytes of a word; the others are zero. */
  function Masked(q: Quad, n: nat): Quad {
    Quad(if n >= 1 then q.b0 else 0, if n >= 2 then q.b1 else 0, if n >= 3 then q.b2 else 0, if n >= 4 then q.b3 else 0)
  }

  function Without(x: int, p: int): int
    requires p > 0
  {
    x - x % p
  }

  /** On a little-endian machine the masks 0xff, 0xffff and 0xffffff do this: they keep a remainder. */
  lemma MaskedLittle(q: Quad)
    ensures Value(Masked(q, 1), Little) == Value(q, Little) % 0x100
    ensures Value(Masked(q, 2), Little) == Value(q, Little) % 0x1_0000
    ensures Value(Masked(q, 3), Little) == Value(q, Little) % 0x100_0000
  {
    RemaindersOfWord(q.b0, q.b1, q.b2, q.b3);
  }

  /** On a big-endian machine 0xff000000, 0xffff0000 and 0xffffff00 do: they take a remainder away. */
  lemma MaskedBig(q: Quad)
    ensures Value(Masked(q, 1), Big) == Without(Value(q, Big), 0x100_0000)
    ensures Value(Masked(q, 2), Big) == Without(Value(q, Big), 0x1_0000)
    ensures Value(Masked(q, 3), Big) == Without(Value(q, Big), 0x100)
  {
    RemaindersOfWord(q.b3, q.b2, q.b1, q.b0);
  }

  lemma RemaindersOfWord(b0: Byte, b1: Byte, b2: Byte, b3: Byte)
    ensures LittleEndian(b0, b1, b2, b3) % 0x100 == LittleEndian(b0, 0, 0, 0)
    ensures LittleEndian(b0, b1, b2, b3) % 0x1_0000 == LittleEndian(b0, b1, 0, 0)
    ensures LittleEndian(b0, b1, b2, b3) % 0x100_0000 == LittleEndian(b0, b1, b2, 0)
  {
    var x := LittleEndian(b0, b1, b2, b3);
    DivMod(x, 0x100, LittleEndian(b1, b2, b3, 0), LittleEndian(b0, 0, 0, 0));
    DivMod(x, 0x1_0000, LittleEndian(b2, b3, 0, 0), LittleEndian(b0, b1, 0, 0));
    DivMod(x, 0x100_0000, LittleEndian(b3, 0, 0, 0), LittleEndian(b0, b1, b2, 0));
  }

  /** The mask that keeps the first one, two or three bytes of a loaded word. */
  function Mask(x: int, n: nat, e: Endian): int
    requires 1 <= n <= 3
  {
    match e
    case Little => x % (if n == 1 then 0x100 else if n == 2 then 0x1_0000 else 0x100_0000)
    case Big => Without(x, if n == 1 then 0x100_0000 else if n == 2 then 0x1_0000 else 0x100)
  }

  lemma MaskKeepsBytes(q: Quad, n: nat, e: Endian)
    requires 1 <= n <= 3
    ensures Mask(Value(q, e), n, e) == Value(Masked(q, n), e)
  {
    if e.Little? {
      MaskedLittle(q);
    } else {
      MaskedBig(q);
    }
  }

  /** The key lies in memory from `at` on. */
  predicate Holds(mem: seq<Byte>, at: nat, key: seq<Byte>) {
    at + |key| <= |mem| && mem[at..at + |key|] == key
  }

  predicate InMemory(mem: seq<Byte>, at: nat, p: nat) {
    at + p + 4 <= |mem|
  }

  /** The words that the key touches lie in memory as a whole. */
  ghost predicate HoldsWords(mem: seq<Byte>, at: nat, key: seq<Byte>) {
    Holds(mem, at, key) && forall w: nat :: 4 * w < |key| ==> HoldsWord(mem, at, w)
  }

  predicate HoldsWord(mem: seq<Byte>, at: nat, w: nat) {
    InMemory(mem, at, 4 * w)
  }

  /** What memory has of a lane when `left` bytes of the key remain from its start; the bytes beyond are
      not looked at. */
  function Read(mem: seq<Byte>, p: nat, left: int): Quad
    requires left > 0 ==> p + left <= |mem| || p + 4 <= |mem|
  {
    Quad(if left >= 1 then mem[p] else 0, if left >= 2 then mem[p + 1] else 0,
         if left >= 3 then mem[p + 2] else 0, if left >= 4 then mem[p + 3] else 0)
  }

  lemma ReadIsLane(mem: seq<Byte>, at: nat, key: seq<Byte>, p: nat, q: nat, left: int)
    requires Holds(mem, at, key) && q == at + p && left == |key| - p
    ensures Read(mem, q, left) == Lane(key, p)
  {
    assert forall i :: 0 <= i < |key| ==> key[i] == mem[at + i];
  }

  lemma ReadValue(mem: seq<Byte>, at: nat, key: seq<Byte>, p: nat, q: nat, left: int, e: Endian)
    requires Holds(mem, at, key) && q == at + p && left == |key| - p
    ensures Value(Read(mem, q, left), e) == Value(Lane(key, p), e)
  {
    ReadIsLane(mem, at, key, p, q, left);
  }

  lemma PlusPlus(x: Word, y: int, z: int)
    ensures Plus(Plus(x, y), z) == Plus(x, y + z)
  {
  }

  lemma Plus4(x: Word, b0: int, b1: int, b2: int, b3: int)
    ensures Plus(Plus(Plus(Plus(x, b0), b1), b2), b3) == Plus(x, b0 + b1 + b2 + b3)
  {
    PlusPlus(x, b0, b1);
    PlusPlus(x, b0 + b1, b2);
    PlusPlus(x, b0 + b1 + b2, b3);
  }

  // ---------------------------------------------------------------------------------------
  // The macros
  // ---------------------------------------------------------------------------------------

  /** The `mix` macro. */
  method MixAbc(s: Abc) returns (t: Abc)
    ensures t == Mix(s)
  {
    var a, b, c := s.a, s.b, s.c;
    a := Minus(a, c);  a := Xor32(a, Rot4(c));   c := Plus(c, b);
    b := Minus(b, a);  b := Xor32(b, Rot6(a));   a := Plus(a, c);
    c := Minus(c, b);  c := Xor32(c, Rot8(b));   b := Plus(b, a);
    a := Minus(a, c);  a := Xor32(a, Rot16(c));  c := Plus(c, b);
    b := Minus(b, a);  b := Xor32(b, Rot19(a));  a := Plus(a, c);
    c := Minus(c, b);  c := Xor32(c, Rot4(b));   b := Plus(b, a);
    return Abc(a, b, c);
  }

  /** The `final` macro and the value returned. */
  method Finish(a0: Word, b0: Word, c0: Word) returns (hash: Word)
    ensures hash == Final(Abc(a0, b0, c0)).c
  {
    var a, b, c := a0, b0, c0;
    c := Xor32(c, b);  c := Minus(c, Rot14(b));
    a := Xor32(a, c);  a := Minus(a, Rot11(c));
    b := Xor32(b, a);  b := Minus(b, Rot25(a));
    c := Xor32(c, b);  c := Minus(c, Rot16(b));
    a := Xor32(a, c);  a := Minus(a, Rot4(c));
    b := Xor32(b, a);  b := Minus(b, Rot14(a));
    c := Xor32(c, b);  c := Minus(c, Rot24(b));
    return c;
  }

  /** The last block is added and the hash finished. */
  method FinishLast(s: Abc, ghost key: seq<Byte>, ghost k: nat, ghost m: nat, x: int, y: int, z: int, ghost e: Endian)
    returns (hash: Word)
    requires k == 12 * m < |key| <= k + 12
    requires x == Value(Lane(key, k), e) && y == Value(Lane(key, k + 4), e) && z == Value(Lane(key, k + 8), e)
    ensures hash == Rest(s, key, m, e).c
  {
    RestLast(s, key, m, k, e);
    hash := Finish(Plus(s.a, x), Plus(s.b, y), Plus(s.c, z));
  }

  // ---------------------------------------------------------------------------------------
  // By 32-bit words
  // ---------------------------------------------------------------------------------------

  method Take32(mem: seq<Byte>, at: nat, ghost key: seq<Byte>, k: nat, s: Abc, e: Endian) returns (t: Abc)
    requires Holds(mem, at, key) && k + 12 <= |key|
    ensures t == AddBlock(s, key, k, e)
  {
    WholeLane(mem, at, key, k);
    WholeLane(mem, at, key, k + 4);
    WholeLane(mem, at, key, k + 8);
    var a := Plus(s.a, Value(Load32(mem, at + k), e));
    var b := Plus(s.b, Value(Load32(mem, at + k + 4), e));
    var c := Plus(s.c, Value(Load32(mem, at + k + 8), e));
    return Abc(a, b, c);
  }

  lemma WholeLane(mem: seq<Byte>, at: nat, key: seq<Byte>, p: nat)
    requires Holds(mem, at, key) && p + 4 <= |key|
    ensures Load32(mem, at + p) == Lane(key, p)
  {
    assert forall i :: 0 <= i < |key| ==> key[i] == mem[at + i];
  }

  method Block32(mem: seq<Byte>, at: nat, ghost key: seq<Byte>, k: nat, ghost m: nat, s: Abc, e: Endian,
                 ghost rest: Continuation)
    returns (t: Abc)
    requires Holds(mem, at, key) && k == 12 * m && k + 12 < |key| && Absorbs(rest, key, e)
    ensures rest(t, m + 1) == rest(s, m)
  {
    assert AbsorbsAt(rest, key, e, s, m);
    t := Take32(mem, at, key, k, s, e);
    t := MixAbc(t);
  }

  /** All blocks but the last, by 32-bit words; `k` is where the last block starts. */
  method Blocks32(mem: seq<Byte>, at: nat, ghost key: seq<Byte>, length: nat, e: Endian, ghost rest: Continuation)
    returns (s: Abc, k: nat, left: nat, ghost m: nat)
    requires Holds(mem, at, key) && length == |key| && Absorbs(rest, key, e)
    ensures k == 12 * m && k + left == |key| && left <= 12 && (left == 0 ==> m == 0)
    ensures rest(s, m) == rest(Start(length), 0)
  {
    s, k, left, m := Start(length), 0, length, 0;
    while left > 12
      invariant k == 12 * m && k + left == |key| && (left == 0 ==> m == 0)
      invariant rest(s, m) == rest(Start(length), 0)
    {
      s := Block32(mem, at, key, k, m, s, e, rest);
      left, k, m := left - 12, k + 12, m + 1;
    }
  }

  method WholeWord(mem: seq<Byte>, p: nat, ghost left: int, e: Endian) returns (x: int)
    requires p + 4 <= |mem| && left >= 4
    ensures x == Value(Read(mem, p, left), e)
  {
    x := Value(Load32(mem, p), e);
  }

  method MaskedWord(mem: seq<Byte>, p: nat, n: nat, e: Endian) returns (x: int)
    requires p + 4 <= |mem| && 1 <= n <= 3
    ensures x == Value(Read(mem, p, n), e)
  {
    MaskKeepsBytes(Load32(mem, p), n, e);
    x := Mask(Value(Load32(mem, p), e), n, e);
  }

  /** The switch over the last block: what `a`, `b` and `c` get. It loads whole words, beyond the end of
      the key if need be, and masks away what is not the key's. */
  method Switch32(mem: seq<Byte>, k: nat, left: nat, e: Endian) returns (x: int, y: int, z: int)
    requires 0 < left <= 12 && k + 4 <= |mem| && (left > 4 ==> k + 8 <= |mem|) && (left > 8 ==> k + 12 <= |mem|)
    ensures x == Value(Read(mem, k, left), e)
    ensures y == Value(Read(mem, k + 4, left - 4), e)
    ensures z == Value(Read(mem, k + 8, left - 8), e)
  {
    x, y, z := 0, 0, 0;
    match left {
      case 12 =>
        z := WholeWord(mem, k + 8, 4, e);
        y := WholeWord(mem, k + 4, 8, e);
        x := WholeWord(mem, k, 12, e);
      case 11 =>
        z := MaskedWord(mem, k + 8, 3, e);
        y := WholeWord(mem, k + 4, 7, e);
        x := WholeWord(mem, k, 11, e);
      case 10 =>
        z := MaskedWord(mem, k + 8, 2, e);
        y := WholeWord(mem, k + 4, 6, e);
        x := WholeWord(mem, k, 10, e);
      case 9 =>
        z := MaskedWord(mem, k + 8, 1, e);
        y := WholeWord(mem, k + 4, 5, e);
        x := WholeWord(mem, k, 9, e);
      case 8 =>
        y := WholeWord(mem, k + 4, 4, e);
        x := WholeWord(mem, k, 8, e);
      case 7 =>
        y := MaskedWord(mem, k + 4, 3, e);
        x := WholeWord(mem, k, 7, e);
      case 6 =>
        y := MaskedWord(mem, k + 4, 2, e);
        x := WholeWord(mem, k, 6, e);
      case 5 =>
        y := MaskedWord(mem, k + 4, 1, e);
        x := WholeWord(mem, k, 5, e);
      case 4 =>
        x := WholeWord(mem, k, 4, e);
      case 3 =>
        x := MaskedWord(mem, k, 3, e);
      case 2 =>
        x := MaskedWord(mem, k, 2, e);
      case _ =>
        x := MaskedWord(mem, k, 1, e);
    }
  }

  /** The other switch, for memory checkers: one lane of it. It reads the key only. */
  method LaneChecked(mem: seq<Byte>, p: nat, left: int, e: Endian) returns (x: int)
    requires left > 0 ==> p + left <= |mem| || p + 4 <= |mem|
    ensures x == Value(Read(mem, p, left), e)
  {
    if left >= 4 {
      x := Value(Load32(mem, p), e);
    } else {
      x := LaneByBytes(mem, p, left, e);
    }
  }

  method Lanes32(mem: seq<Byte>, at: nat, ghost key: seq<Byte>, k: nat, left: nat, e: Endian)
    returns (x: int, y: int, z: int)
    requires Holds(mem, at, key) && k + left == |key| && 0 < left <= 12
    requires InMemory(mem, at, k) && (left > 4 ==> InMemory(mem, at, k + 4)) && (left > 8 ==> InMemory(mem, at, k + 8))
    ensures x == Value(Lane(key, k), e) && y == Value(Lane(key, k + 4), e) && z == Value(Lane(key, k + 8), e)
  {
    var q := at + k;
    ReadValue(mem, at, key, k, q, left, e);
    ReadValue(mem, at, key, k + 4, q + 4, left - 4, e);
    ReadValue(mem, at, key, k + 8, q + 8, left - 8, e);
    x, y, z := Switch32(mem, q, left, e);
  }

  lemma LastWords(mem: seq<Byte>, at: nat, key: seq<Byte>, k: nat, m: nat, left: nat)
    requires HoldsWords(mem, at, key) && k == 12 * m && k + left == |key| && 0 < left
    ensures InMemory(mem, at, k) && (left > 4 ==> InMemory(mem, at, k + 4)) && (left > 8 ==> InMemory(mem, at, k + 8))
  {
    assert HoldsWord(mem, at, 3 * m);
    assert left > 4 ==> HoldsWord(mem, at, 3 * m + 1);
    assert left > 8 ==> HoldsWord(mem, at, 3 * m + 2);
  }

  /** The whole key by 32-bit words; the last word may reach beyond the end of the key. */
  method Hash32(mem: seq<Byte>, at: nat, ghost key: seq<Byte>, length: nat, e: Endian) returns (hash: Word)
    requires HoldsWords(mem, at, key) && length == |key|
    ensures hash == Hash(key, e)
  {
    var s, k, left;
    ghost var m;
    RestAbsorbs(key, e);
    s, k, left, m := Blocks32(mem, at, key, length, e, RestOf(key, e));
    if left == 0 {
      return s.c;
    }
    LastWords(mem, at, key, k, m, left);
    var x, y, z := Lanes32(mem, at, key, k, left, e);
    hash := FinishLast(s, key, k, m, x, y, z, e);
  }

  method KeyLaneChecked(mem: seq<Byte>, at: nat, ghost key: seq<Byte>, p: nat, length: nat, e: Endian) returns (x: int)
    requires Holds(mem, at, key) && length == |key|
    ensures x == Value(Lane(key, p), e)
  {
    ReadIsLane(mem, at, key, p, at + p, length - p);
    x := LaneChecked(mem, at + p, length - p, e);
  }

  method LanesChecked(mem: seq<Byte>, at: nat, ghost key: seq<Byte>, k: nat, length: nat, e: Endian)
    returns (x: int, y: int, z: int)
    requires Holds(mem, at, key) && length == |key|
    ensures x == Value(Lane(key, k), e) && y == Value(Lane(key, k + 4), e) && z == Value(Lane(key, k + 8), e)
  {
    z := KeyLaneChecked(mem, at, key, k + 8, length, e);
    y := KeyLaneChecked(mem, at, key, k + 4, length, e);
    x := KeyLaneChecked(mem, at, key, k, length, e);
  }

  /** The same with the switch for memory checkers. */
  method Hash32Checked(mem: seq<Byte>, at: nat, ghost key: seq<Byte>, length: nat, e: Endian) returns (hash: Word)
    requires Holds(mem, at, key) && length == |key|
    ensures hash == Hash(key, e)
  {
    var s, k, left;
    ghost var m;
    RestAbsorbs(key, e);
    s, k, left, m := Blocks32(mem, at, key, length, e, RestOf(key, e));
    if left == 0 {
      return s.c;
    }
    var x, y, z := LanesChecked(mem, at, key, k, length, e);
    hash := FinishLast(s, key, k, m, x, y, z, e);
  }

  // ---------------------------------------------------------------------------------------
  // By bytes
  // ---------------------------------------------------------------------------------------

  /** The four falling-through cases of the switch that belong to one lane. */
  method LaneByBytes(mem: seq<Byte>, p: nat, left: int, e: Endian) returns (x: int)
    requires left > 0 ==> p + left <= |mem| || p + 4 <= |mem|
    ensures x == Value(Read(mem, p, left), e)
  {
    x := 0;
    if left >= 4 {
      x := x + (if e.Little? then Shl24(mem[p + 3]) else Id(mem[p + 3]));
    }
    if left >= 3 {
      x := x + (if e.Little? then Shl16(mem[p + 2]) else Shl8(mem[p + 2]));
    }
    if left >= 2 {
      x := x + (if e.Little? then Shl8(mem[p + 1]) else Shl16(mem[p + 1]));
    }
    if left >= 1 {
      x := x + (if e.Little? then Id(mem[p]) else Shl24(mem[p]));
    }
  }

  function Id(x: int): int { x }

  /** Four bytes added one by one. */
  method AddBytes(mem: seq<Byte>, at: nat, x: Word, e: Endian) returns (y: Word)
    requires at + 4 <= |mem|
    ensures y == Plus(x, Value(Load32(mem, at), e))
  {
    if e.Little? {
      var b0, b1, b2, b3 := Id(mem[at]), Shl8(mem[at + 1]), Shl16(mem[at + 2]), Shl24(mem[at + 3]);
      Plus4(x, b0, b1, b2, b3);
      y := Plus(x, b0);  y := Plus(y, b1);  y := Plus(y, b2);  y := Plus(y, b3);
    } else {
      var b0, b1, b2, b3 := Shl24(mem[at]), Shl16(mem[at + 1]), Shl8(mem[at + 2]), Id(mem[at + 3]);
      Plus4(x, b0, b1, b2, b3);
      y := Plus(x, b0);  y := Plus(y, b1);  y := Plus(y, b2);  y := Plus(y, b3);
    }
  }

  method Take8(mem: seq<Byte>, at: nat, ghost key: seq<Byte>, k: nat, s: Abc, e: Endian) returns (t: Abc)
    requires Holds(mem, at, key) && k + 12 <= |key|
    ensures t == AddBlock(s, key, k, e)
  {
    WholeLane(mem, at, key, k);
    WholeLane(mem, at, key, k + 4);
    WholeLane(mem, at, key, k + 8);
    var a := AddBytes(mem, at + k, s.a, e);
    var b := AddBytes(mem, at + k + 4, s.b, e);
    var c := AddBytes(mem, at + k + 8, s.c, e);
    return Abc(a, b, c);
  }

  method Block8(mem: seq<Byte>, at: nat, ghost key: seq<Byte>, k: nat, ghost m: nat, s: Abc, e: Endian,
                ghost rest: Continuation)
    returns (t: Abc)
    requires Holds(mem, at, key) && k == 12 * m && k + 12 < |key| && Absorbs(rest, key, e)
    ensures rest(t, m + 1) == rest(s, m)
  {
    assert AbsorbsAt(rest, key, e, s, m);
    t := Take8(mem, at, key, k, s, e);
    t := MixAbc(t);
  }

  /** All blocks but the last, by bytes; `k` is where the last block starts. */
  method Blocks8(mem: seq<Byte>, at: nat, ghost key: seq<Byte>, length: nat, e: Endian, ghost rest: Continuation)
    returns (s: Abc, k: nat, left: nat, ghost m: nat)
    requires Holds(mem, at, key) && length == |key| && Absorbs(rest, key, e)
    ensures k == 12 * m && k + left == |key| && left <= 12 && (left == 0 ==> m == 0)
    ensures rest(s, m) == rest(Start(length), 0)
  {
    s, k, left, m := Start(length), 0, length, 0;
    while left > 12
      invariant k == 12 * m && k + left == |key| && (left == 0 ==> m == 0)
      invariant rest(s, m) == rest(Start(length), 0)
    {
      s := Block8(mem, at, key, k, m, s, e, rest);
      left, k, m := left - 12, k + 12, m + 1;
    }
  }

  method KeyLaneByBytes(mem: seq<Byte>, at: nat, ghost key: seq<Byte>, p: nat, length: nat, e: Endian) returns (x: int)
    requires Holds(mem, at, key) && length == |key|
    ensures x == Value(Lane(key, p), e)
  {
    ReadIsLane(mem, at, key, p, at + p, length - p);
    x := LaneByBytes(mem, at + p, length - p, e);
  }

  method Lanes8(mem: seq<Byte>, at: nat, ghost key: seq<Byte>, k: nat, length: nat, e: Endian)
    returns (x: int, y: int, z: int)
    requires Holds(mem, at, key) && length == |key|
    ensures x == Value(Lane(key, k), e) && y == Value(Lane(key, k + 4), e) && z == Value(Lane(key, k + 8), e)
  {
    z := KeyLaneByBytes(mem, at, key, k + 8, length, e);
    y := KeyLaneByBytes(mem, at, key, k + 4, length, e);
    x := KeyLaneByBytes(mem, at, key, k, length, e);
  }

  method Hash8(mem: seq<Byte>, at: nat, ghost key: seq<Byte>, length: nat, e: Endian) returns (hash: Word)
    requires Holds(mem, at, key) && length == |key|
    ensures hash == Hash(key, e)
  {
    var s, k, left;
    ghost var m;
    RestAbsorbs(key, e);
    s, k, left, m := Blocks8(mem, at, key, length, e, RestOf(key, e));
    if left == 0 {
      return s.c;
    }
    var x, y, z := Lanes8(mem, at, key, k, length, e);
    hash := FinishLast(s, key, k, m, x, y, z, e);
  }

  // ---------------------------------------------------------------------------------------
  // By 16-bit halves, on little-endian machines only
  // ---------------------------------------------------------------------------------------

  /** The cases of the switch that belong to one lane. */
  method LaneByHalves(mem: seq<Byte>, p: nat, left: int) returns (x: int)
    requires left > 0 ==> p + left <= |mem| || p + 4 <= |mem|
    ensures x == Value(Read(mem, p, left), Little)
  {
    if left >= 4 {
      x := Load16(mem, p) + Shl16(Load16(mem, p + 2));
    } else if left == 3 {
      x := Shl16(mem[p + 2]) + Load16(mem, p);
    } else if left == 2 {
      x := Load16(mem, p);
    } else if left == 1 {
      x := mem[p];
    } else {
      x := 0;
    }
  }

  method AddHalves(mem: seq<Byte>, at: nat, x: Word) returns (y: Word)
    requires at + 4 <= |mem|
    ensures y == Plus(x, Value(Load32(mem, at), Little))
  {
    y := Plus(x, Load16(mem, at) + Shl16(Load16(mem, at + 2)));
  }

  method Take16(mem: seq<Byte>, at: nat, ghost key: seq<Byte>, k: nat, s: Abc) returns (t: Abc)
    requires Holds(mem, at, key) && k + 12 <= |key|
    ensures t == AddBlock(s, key, k, Little)
  {
    WholeLane(mem, at, key, k);
    WholeLane(mem, at, key, k + 4);
    WholeLane(mem, at, key, k + 8);
    var a := AddHalves(mem, at + k, s.a);
    var b := AddHalves(mem, at + k + 4, s.b);
    var c := AddHalves(mem, at + k + 8, s.c);
    return Abc(a, b, c);
  }

  method Block16(mem: seq<Byte>, at: nat, ghost key: seq<Byte>, k: nat, ghost m: nat, s: Abc, ghost rest: Continuation)
    returns (t: Abc)
    requires Holds(mem, at, key) && k == 12 * m && k + 12 < |key| && Absorbs(rest, key, Little)
    ensures rest(t, m + 1) == rest(s, m)
  {
    assert AbsorbsAt(rest, key, Little, s, m);
    t := Take16(mem, at, key, k, s);
    t := MixAbc(t);
  }

  /** All blocks but the last, by halves; `k` is where the last block starts. */
  method Blocks16(mem: seq<Byte>, at: nat, ghost key: seq<Byte>, length: nat, ghost rest: Continuation)
    returns (s: Abc, k: nat, left: nat, ghost m: nat)
    requires Holds(mem, at, key) && length == |key| && Absorbs(rest, key, Little)
    ensures k == 12 * m && k + left == |key| && left <= 12 && (left == 0 ==> m == 0)
    ensures rest(s, m) == rest(Start(length), 0)
  {
    s, k, left, m := Start(length), 0, length, 0;
    while left > 12
      invariant k == 12 * m && k + left == |key| && (left == 0 ==> m == 0)
      invariant rest(s, m) == rest(Start(length), 0)
    {
      s := Block16(mem, at, key, k, m, s, rest);
      left, k, m := left - 12, k + 12, m + 1;
    }
  }

  method KeyLaneByHalves(mem: seq<Byte>, at: nat, ghost key: seq<Byte>, p: nat, length: nat) returns (x: int)
    requires Holds(mem, at, key) && length == |key|
    ensures x == Value(Lane(key, p), Little)
  {
    ReadIsLane(mem, at, key, p, at + p, length - p);
    x := LaneByHalves(mem, at + p, length - p);
  }

  method Lanes16(mem: seq<Byte>, at: nat, ghost key: seq<Byte>, k: nat, length: nat) returns (x: int, y: int, z: int)
    requires Holds(mem, at, key) && length == |key|
    ensures x == Value(Lane(key, k), Little) && y == Value(Lane(key, k + 4), Little)
    ensures z == Value(Lane(key, k + 8), Little)
  {
    z := KeyLaneByHalves(mem, at, key, k + 8, length);
    y := KeyLaneByHalves(mem, at, key, k + 4, length);
    x := KeyLaneByHalves(mem, at, key, k, length);
  }

  method Hash16(mem: seq<Byte>, at: nat, ghost key: seq<Byte>, length: nat) returns (hash: Word)
    requires Holds(mem, at, key) && length == |key|
    ensures hash == Hash(key, Little)
  {
    var s, k, left;
    ghost var m;
    RestAbsorbs(key, Little);
    s, k, left, m := Blocks16(mem, at, key, length, RestOf(key, Little));
    if left == 0 {
      return s.c;
    }
    var x, y, z := Lanes16(mem, at, key, k, length);
    hash := FinishLast(s, key, k, m, x, y, z, Little);
  }

  /** `jenkins_hash`: the address alone decides how the key is read, and not what the hash is. */
  method JenkinsHash(mem: seq<Byte>, at: nat, ghost key: seq<Byte>, length: nat, e: Endian, checked: bool)
    returns (hash: Word)
    requires length == |key| && Holds(mem, at, key)
    requires at % 4 == 0 && !checked ==> HoldsWords(mem, at, key)
    ensures hash == Hash(key, e)
  {
    if at % 4 == 0 {
      if checked {
        hash := Hash32Checked(mem, at, key, length, e);
      } else {
        hash := Hash32(mem, at, key, length, e);
      }
    } else if e.Little? && at % 2 == 0 {
      hash := Hash16(mem, at, key, length);
    } else {
      hash := Hash8(mem, at, key, length, e);
    }
  }

  // ---------------------------------------------------------------------------------------
  // The length
  // ---------------------------------------------------------------------------------------

  /** The empty key. */
  lemma HashOfNothing(e: Endian)
    ensures Hash([], e) == 0xdeadbeef
  {
  }

  /** A key of zero bytes that fill up to a block is hashed by its length alone. */
  lemma HashOfZeros(key: seq<Byte>, e: Endian)
    requires 0 < |key| <= 12 && forall i :: 0 <= i < |key| ==> key[i] == 0
    ensures var x := (0xdeadbeef + |key|) % TWO_32; Hash(key, e) == Final(Abc(x, x, x)).c
  {
    var s := Start(|key|);
    assert AddBlock(s, key, 0, e) == s;
  }
}
