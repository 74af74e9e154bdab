/** The streaming MD5 of RFC 1321. The block transform is a parameter: what is proved is that
    buffering, counting and padding feed it the right blocks. */
module FastdfsMd5 {
  import opened Arithmetic
  import opened Common

  datatype State = State(a: Word, b: Word, c: Word, d: Word)

  const INIT: State := State(0x67452301, 0xefcdab89, 0x98badcfe, 0x10325476)

  /** Transforms the state by one 64-byte block. */
  type Transform = (State, seq<Byte>) -> State

  function EncodeWord(w: Word): (r: seq<Byte>)
    ensures |r| == 4
  {
    [w % 0x100, w / 0x100 % 0x100, w / 0x1_0000 % 0x100, w / 0x100_0000]
  }

  /** The least significant byte comes first. */
  lemma EncodeWordIsLittleEndian(w: Word)
    ensures var r := EncodeWord(w); LittleEndian(r[0], r[1], r[2], r[3]) == w
  {
    var q1 := w / 0x100;
    var q2 := q1 / 0x100;
    var q3 := q2 / 0x100;
    DivMod(w, 0x1_0000, q2, q1 % 0x100 * 0x100 + w % 0x100);
    DivMod(w, 0x100_0000, q3, q2 % 0x100 * 0x1_0000 + q1 % 0x100 * 0x100 + w % 0x100);
  }

  function EncodeState(s: State): (r: seq<Byte>)
    ensures |r| == 16
  {
    EncodeWord(s.a) + EncodeWord(s.b) + EncodeWord(s.c) + EncodeWord(s.d)
  }

  // ---------------------------------------------------------------------------------------
  // RFC 1321 without streaming
  // ---------------------------------------------------------------------------------------

  /** Digests whole blocks one after the other. */
  function Blocks(tr: Transform, s: State, m: seq<Byte>): State
    requires |m| % 64 == 0
    decreases |m|
  {
    if m == [] then s else Blocks(tr, tr(s, m[..64]), m[64..])
  }

  /** A length in bits, as a 64-bit number with the low byte first. */
  function BitLength(n: nat): (r: seq<Byte>)
    ensures |r| == 8
  {
    EncodeWord(8 * n % TWO_32) + EncodeWord(8 * n / TWO_32 % TWO_32)
  }

  /** Section 3.1: a one bit, then zero bits up to 56 bytes modulo 64. Section 3.2: the length of
      the message before padding. */
  function Padded(m: seq<Byte>): (p: seq<Byte>)
    ensures |p| % 64 == 0
  {
    PaddedIsWhole(|m|);
    m + [0x80] + Zeros((55 - |m|) % 64) + BitLength(|m|)
  }

  lemma PaddedIsWhole(n: nat)
    ensures (n + 1 + (55 - n) % 64 + 8) % 64 == 0
  {
    Remainder64(n + 9 + (55 - n) % 64, 1 - (55 - n) / 64, 0);
  }

  function Digest(tr: Transform, m: seq<Byte>): seq<Byte> {
    EncodeState(Blocks(tr, INIT, Padded(m)))
  }

  lemma {:induction false} BlocksAppend(tr: Transform, s: State, m: seq<Byte>, n: seq<Byte>)
    requires |m| % 64 == 0 && |n| % 64 == 0
    ensures Blocks(tr, s, m + n) == Blocks(tr, Blocks(tr, s, m), n)
    decreases |m|
  {
    if m == [] {
      assert m + n == n;
    } else {
      assert (m + n)[..64] == m[..64] && (m + n)[64..] == m[64..] + n;
      BlocksAppend(tr, tr(s, m[..64]), m[64..], n);
    }
  }

  lemma OneBlock(tr: Transform, s: State, b: seq<Byte>)
    requires |b| == 64
    ensures Blocks(tr, s, b) == tr(s, b)
  {
    assert b[..64] == b && b[64..] == [];
  }

  // ---------------------------------------------------------------------------------------
  // The same byte by byte
  // ---------------------------------------------------------------------------------------

  /** Four bytes from `i` on are word `w`, low byte first. */
  predicate IsWordAt(m: seq<Byte>, i: nat, w: int) {
    i + 4 <= |m| && LittleEndian(m[i], m[i + 1], m[i + 2], m[i + 3]) == w
  }

  /** Sections 3.1 and 3.2: a one bit, zero bits, and the 64-bit length in bits, low word first; no longer
      than it takes to fill a block. */
  predicate IsPadding(m: seq<Byte>, p: seq<Byte>) {
    && |p| % 64 == 0 && |m| + 9 <= |p| < |m| + 73
    && p[..|m|] == m && p[|m|] == 0x80
    && (forall i :: |m| < i < |p| - 8 ==> p[i] == 0)
    && IsWordAt(p, |p| - 8, 8 * |m| % TWO_32) && IsWordAt(p, |p| - 4, 8 * |m| / TWO_32 % TWO_32)
  }

  /** Section 3.3 gives the initial words by their bytes. */
  predicate IsInitial(s: State) {
    && IsWordAt([0x01, 0x23, 0x45, 0x67], 0, s.a) && IsWordAt([0x89, 0xab, 0xcd, 0xef], 0, s.b)
    && IsWordAt([0xfe, 0xdc, 0xba, 0x98], 0, s.c) && IsWordAt([0x76, 0x54, 0x32, 0x10], 0, s.d)
  }

  /** Section 3.4: from the initial state, one block after the other. */
  predicate IsCourse(tr: Transform, p: seq<Byte>, states: seq<State>) {
    && |p| == 64 * (|states| - 1) && states != [] && IsInitial(states[0])
    && forall i :: 0 <= i < |states| - 1 ==> states[i + 1] == tr(states[i], p[64 * i..64 * i + 64])
  }

  /** Section 3.5: the four words in order. */
  predicate IsOutput(s: State, d: seq<Byte>) {
    |d| == 16 && IsWordAt(d, 0, s.a) && IsWordAt(d, 4, s.b) && IsWordAt(d, 8, s.c) && IsWordAt(d, 12, s.d)
  }

  ghost predicate IsDigest(tr: Transform, m: seq<Byte>, d: seq<Byte>) {
    exists p: seq<Byte>, states: seq<State> ::
      IsPadding(m, p) && IsCourse(tr, p, states) && IsOutput(states[|states| - 1], d)
  }

  lemma WordAtEncoded(before: seq<Byte>, w: Word, after: seq<Byte>)
    ensures IsWordAt(before + EncodeWord(w) + after, |before|, w)
  {
    EncodeWordIsLittleEndian(w);
    var r, i := EncodeWord(w), |before|;
    var m := before + r + after;
    assert m[i] == r[0] && m[i + 1] == r[1] && m[i + 2] == r[2] && m[i + 3] == r[3];
  }

  lemma EncodeStateIsOutput(s: State)
    ensures IsOutput(s, EncodeState(s))
  {
    var a, b, c, d := EncodeWord(s.a), EncodeWord(s.b), EncodeWord(s.c), EncodeWord(s.d);
    WordAtEncoded([], s.a, b + c + d);
    WordAtEncoded(a, s.b, c + d);
    WordAtEncoded(a + b, s.c, d);
    WordAtEncoded(a + b + c, s.d, []);
    assert [] + a + (b + c + d) == a + b + (c + d) == a + b + c + d == a + b + c + d + [];
  }

  lemma PaddedIsPadding(m: seq<Byte>)
    ensures IsPadding(m, Padded(m))
  {
    var p, z := Padded(m), Zeros((55 - |m|) % 64);
    var front := m + [0x80] + z;
    var low, high := 8 * |m| % TWO_32, 8 * |m| / TWO_32 % TWO_32;
    assert p == front + BitLength(|m|);
    WordAtEncoded(front, low, EncodeWord(high));
    assert front + EncodeWord(low) + EncodeWord(high) == p;
    WordAtEncoded(front + EncodeWord(low), high, []);
    assert front + EncodeWord(low) + EncodeWord(high) + [] == p;
    assert p[..|m|] == m;
    assert forall i :: |m| < i < |p| - 8 ==> p[i] == z[i - |m| - 1];
  }

  /** The states after no block, one, two and so on. */
  function Course(tr: Transform, s: State, p: seq<Byte>): (states: seq<State>)
    requires |p| % 64 == 0
    ensures |states| == |p| / 64 + 1 && states[0] == s
    decreases |p|
  {
    if p == [] then [s] else [s] + Course(tr, tr(s, p[..64]), p[64..])
  }

  lemma {:induction false} CourseStep(tr: Transform, s: State, p: seq<Byte>, i: nat)
    requires |p| % 64 == 0 && 64 * i + 64 <= |p|
    ensures var states := Course(tr, s, p); states[i + 1] == tr(states[i], p[64 * i..64 * i + 64])
    decreases |p|
  {
    if i > 0 {
      CourseStep(tr, tr(s, p[..64]), p[64..], i - 1);
      assert p[64..][64 * (i - 1)..64 * (i - 1) + 64] == p[64 * i..64 * i + 64];
    }
  }

  lemma {:induction false} CourseEnds(tr: Transform, s: State, p: seq<Byte>)
    requires |p| % 64 == 0
    ensures var states := Course(tr, s, p); states[|states| - 1] == Blocks(tr, s, p)
    decreases |p|
  {
    if p != [] {
      CourseEnds(tr, tr(s, p[..64]), p[64..]);
    }
  }

  /** The digest is what sections 3.1 to 3.5 of RFC 1321 describe. */
  lemma DigestIsDigest(tr: Transform, m: seq<Byte>)
    ensures IsDigest(tr, m, Digest(tr, m))
  {
    var p := Padded(m);
    var states := Course(tr, INIT, p);
    PaddedIsPadding(m);
    forall i | 0 <= i < |states| - 1
      ensures states[i + 1] == tr(states[i], p[64 * i..64 * i + 64])
    {
      CourseStep(tr, INIT, p, i);
    }
    CourseEnds(tr, INIT, p);
    EncodeStateIsOutput(Blocks(tr, INIT, p));
    assert IsCourse(tr, p, states);
  }

  // ---------------------------------------------------------------------------------------
  // The bit counter
  // ---------------------------------------------------------------------------------------

  /** The two counter words hold `8 * n` modulo 2^64, low word first. */
  predicate Counts(low: Word, high: Word, n: nat) {
    low == 8 * n % TWO_32 && high == 8 * n / TWO_32 % TWO_32
  }

  lemma DivModUnique(x: int, q: int, r: int)
    requires x == q * TWO_32 + r && 0 <= r < TWO_32
    ensures x / TWO_32 == q && x % TWO_32 == r
  {
  }

  lemma WrapSum(x: int, y: int)
    ensures Wrap32(Wrap32(x) + y) == Wrap32(x + y)
  {
    var q := x / TWO_32;
    var z := Wrap32(x) + y;
    assert x + y == q * TWO_32 + z;
    DivModUnique(x + y, q + z / TWO_32, z % TWO_32);
  }

  function CarryInto(low: Word, bits: Word, high: Word): Word {
    if Wrap32(low + bits) < bits then Wrap32(high + 1) else high
  }

  /** Adding a chunk's bits: the comparison detects the carry out of the low word, and the three
      bits lost in the shift go to the high word. */
  lemma CountersAdvance(low: Word, high: Word, n: nat, len: Word)
    requires Counts(low, high, n)
    ensures var bits := Wrap32(len * 8);
            Counts(Wrap32(low + bits), Wrap32(CarryInto(low, bits, high) + len / 0x2000_0000), n + len)
  {
    var bits := Wrap32(len * 8);
    var q, r := 8 * n / TWO_32, len / 0x2000_0000;
    assert 8 * n == q * TWO_32 + low;
    DivModUnique(8 * len, r, 8 * (len % 0x2000_0000));
    var carry := if low + bits >= TWO_32 then 1 else 0;
    DivModUnique(low + bits, carry, low + bits - carry * TWO_32);
    DivModUnique(8 * (n + len), q + r + carry, low + bits - carry * TWO_32);
    WrapSum(q, carry);
    WrapSum(q + carry, r);
  }

  lemma Remainder64(x: int, q: int, r: int)
    requires x == 64 * q + r && 0 <= r < 64
    ensures x % 64 == r
  {
  }

  lemma CounterMod(low: Word, high: Word, n: nat)
    requires Counts(low, high, n)
    ensures low / 8 % 64 == n % 64
  {
    var q := 8 * n / TWO_32;
    assert 8 * n == q * TWO_32 + low;
    var x := n - q * 0x2000_0000;
    assert low == 8 * x;
    Remainder64(n, q * 0x80_0000 + x / 64, x % 64);
  }

  /** The low word alone tells how many bytes are buffered behind whole blocks. */
  lemma CounterIndex(low: Word, high: Word, whole: nat, rest: nat)
    requires Counts(low, high, whole + rest) && whole % 64 == 0 && rest < 64
    ensures low / 8 % 64 == rest == (whole + rest) % 64
  {
    CounterMod(low, high, whole + rest);
    Remainder64(whole + rest, whole / 64, rest);
  }

  lemma Reassemble(d: seq<Byte>, b: seq<Byte>, input: seq<Byte>, p: nat, i: nat)
    requires p <= i <= |input|
    ensures ((d + (b + input[..p])) + input[p..i]) + input[i..] == (d + b) + input
  {
  }

  // ---------------------------------------------------------------------------------------
  // The context
  // ---------------------------------------------------------------------------------------

  /** The loop over whole blocks compares `i + 63` with the length in 32 bits. Over the values `i`
      takes, the sum fits exactly when buffered and new bytes together are below 2^32. */
  lemma LoopGuardExact(index: nat, len: Word)
    requires index < 64
    ensures (forall i: nat {:trigger Wrap32(i + 63)} :: i <= len && (i + index) % 64 == 0 ==> Wrap32(i + 63) == i + 63)
            <==> index + len < TWO_32
  {
    if index + len >= TWO_32 {
      var i: nat := TWO_32 - index;
      assert (i + index) % 64 == 0 && Wrap32(i + 63) != i + 63;
    }
  }

  class Md5Context {
    var state: State
    var count0: Word
    var count1: Word
    const buffer: array<Byte>
    const transform: Transform
    ghost var digested: seq<Byte>  // the whole blocks of the message so far
    ghost var buffered: seq<Byte>  // what follows them

    ghost function Message(): seq<Byte>
      reads this
    {
      digested + buffered
    }

    ghost predicate Valid()
      reads this, buffer
    {
      && buffer.Length == 64
      && Counts(count0, count1, |digested| + |buffered|)
      && |digested| % 64 == 0
      && state == Blocks(transform, INIT, digested)
      && |buffered| < 64
      && buffer[..|buffered|] == buffered
    }

    constructor Init(tr: Transform)
      ensures Valid() && fresh(buffer) && Message() == [] && transform == tr
    {
      transform := tr;
      count0, count1 := 0, 0;
      state := INIT;
      buffer := new Byte[64](_ => 0);
      digested, buffered := [], [];
    }

    /** `MD5_memcpy` into the buffer. */
    method Fill(at: nat, input: seq<Byte>)
      requires at + |input| <= buffer.Length
      modifies buffer
      ensures buffer[..at + |input|] == old(buffer[..at]) + input
    {
      for i := 0 to |input|
        invariant buffer[..at + i] == old(buffer[..at]) + input[..i]
      {
        buffer[at + i] := input[i];
        assert buffer[..at + i + 1] == buffer[..at + i] + [input[i]];
      }
    }

    /** Adds the bits of a chunk to the counter. */
    method AddBits(len: Word, ghost n: nat)
      requires Counts(count0, count1, n)
      modifies this`count0, this`count1
      ensures Counts(count0, count1, n + len)
    {
      CountersAdvance(count0, count1, n, len);
      var bits := Wrap32(len * 8);
      count0 := Wrap32(count0 + bits);
      if count0 < bits {
        count1 := Wrap32(count1 + 1);
      }
      count1 := Wrap32(count1 + len / 0x2000_0000);
    }

    /** One more whole block. */
    method DigestBlock(block: seq<Byte>)
      requires |block| == 64
      requires |digested| % 64 == 0 && state == Blocks(transform, INIT, digested)
      modifies this`state, this`digested
      ensures digested == old(digested) + block
      ensures |digested| % 64 == 0 && state == Blocks(transform, INIT, digested)
    {
      BlocksAppend(transform, INIT, digested, block);
      OneBlock(transform, state, block);
      state := transform(state, block);
      digested := digested + block;
    }

    /** The whole blocks of `input` from `start` on, read in place. */
    method DigestBlocks(input: seq<Byte>, start: Word, ghost index: nat) returns (i: Word)
      requires start <= |input| && index < 64 && index + |input| < TWO_32
      requires (start + index) % 64 == 0
      requires |digested| % 64 == 0 && state == Blocks(transform, INIT, digested)
      modifies this`state, this`digested
      ensures start <= i <= |input| < i + 64
      ensures digested == old(digested) + input[start..i]
      ensures |digested| % 64 == 0 && state == Blocks(transform, INIT, digested)
    {
      i := start;
      LoopGuardExact(index, |input|);
      while Wrap32(i + 63) < |input|
        invariant start <= i <= |input| && (i + index) % 64 == 0
        invariant digested == old(digested) + input[start..i]
        invariant |digested| % 64 == 0 && state == Blocks(transform, INIT, digested)
        decreases |input| - i
      {
        assert Wrap32(i + 63) == i + 63;
        assert input[start..i + 64] == input[start..i] + input[i..i + 64];
        DigestBlock(input[i..i + 64]);
        i := i + 64;
      }
      assert Wrap32(i + 63) == i + 63;
    }

    /** Feeds one chunk. The chunk and what is buffered must be shorter than 2^32 bytes together. */
    method Update(input: seq<Byte>)
      requires Valid()
      requires |buffered| + |input| < TWO_32
      modifies this`state, this`count0, this`count1, this`digested, this`buffered, buffer
      ensures Valid() && Message() == old(Message()) + input
    {
      ghost var d, b := digested, buffered;
      CounterIndex(count0, count1, |d|, |b|);
      var index := count0 / 8 % 64;
      AddBits(|input|, |d| + |b|);

      if |input| >= 64 - index {
        CompleteBuffer(input, index);
      } else {
        Fill(index, input);
        buffered := buffered + input;
      }
    }

    /** The buffer is completed and digested, then the blocks in the chunk; the rest is buffered. */
    method CompleteBuffer(input: seq<Byte>, index: nat)
      requires index == |buffered| < 64 == buffer.Length && buffer[..index] == buffered
      requires |digested| % 64 == 0 && state == Blocks(transform, INIT, digested)
      requires 64 - index <= |input| && index + |input| < TWO_32
      modifies this`state, this`digested, this`buffered, buffer
      ensures digested + buffered == old(digested + buffered) + input
      ensures |digested| % 64 == 0 && state == Blocks(transform, INIT, digested)
      ensures |buffered| < 64 && buffer[..|buffered|] == buffered
    {
      ghost var d, b := digested, buffered;
      var partLen := 64 - index;
      Fill(index, input[..partLen]);
      assert buffer[..] == b + input[..partLen];
      DigestBlock(buffer[..]);
      var i := DigestBlocks(input, partLen, index);
      Fill(0, input[i..]);
      buffered := input[i..];
      Reassemble(d, b, input, partLen, i);
    }

    /** Padding and length bring the message to a whole number of blocks. */
    method Pad()
      requires Valid()
      modifies this`state, this`count0, this`count1, this`digested, this`buffered, buffer
      ensures Valid() && digested == Padded(old(Message()))
    {
      ghost var m := Message();
      var bits := EncodeWord(count0) + EncodeWord(count1);
      CounterIndex(count0, count1, |digested|, |buffered|);
      var index := count0 / 8 % 64;
      var padLen := if index < 56 then 56 - index else 120 - index;
      var padding: seq<Byte> := [0x80] + Zeros(63);
      Update(padding[..padLen]);
      Update(bits);
      PaddingMatches(m, padding[..padLen], bits);
      Remainder64(|digested| + |buffered|, |digested| / 64, |buffered|);
    }

    /** `MD5_memset` over the whole context. */
    method Clear()
      modifies this`state, this`count0, this`count1, buffer
      ensures state == State(0, 0, 0, 0) && count0 == count1 == 0
      ensures forall i :: 0 <= i < buffer.Length ==> buffer[i] == 0
    {
      for i := 0 to buffer.Length
        invariant forall j :: 0 <= j < i ==> buffer[j] == 0
      {
        buffer[i] := 0;
      }
      state, count0, count1 := State(0, 0, 0, 0), 0, 0;
    }

    /** Pads, appends the length, returns the digest and clears the context. */
    method Final() returns (digest: seq<Byte>)
      requires Valid()
      modifies this, buffer
      ensures digest == Digest(transform, old(Message())) && IsDigest(transform, old(Message()), digest)
      ensures state == State(0, 0, 0, 0) && count0 == count1 == 0
      ensures forall i :: 0 <= i < buffer.Length ==> buffer[i] == 0
    {
      Pad();
      ghost var s := state;
      digest := EncodeState(state);
      assert s == Blocks(transform, INIT, Padded(old(Message())));
      DigestIsDigest(transform, old(Message()));
      Clear();
    }
  }

  function PadLength(n: nat): nat {
    if n % 64 < 56 then 56 - n % 64 else 120 - n % 64
  }

  lemma PadLengthExact(n: nat)
    ensures PadLength(n) - 1 == (55 - n) % 64
  {
    var q, r := n / 64, n % 64;
    if r < 56 {
      Remainder64(55 - n, -q, 55 - r);
    } else {
      Remainder64(55 - n, -q - 1, 119 - r);
    }
  }

  lemma PaddingMatches(m: seq<Byte>, pad: seq<Byte>, bits: seq<Byte>)
    requires bits == BitLength(|m|)
    requires |pad| == PadLength(|m|) && pad == ([0x80] + Zeros(63))[..|pad|]
    ensures m + pad + bits == Padded(m)
  {
    PadLengthExact(|m|);
    assert pad == [0x80] + Zeros(|pad| - 1);
  }

  /** However a message is cut into chunks, its digest is that of the whole message. */
  method DigestOf(tr: Transform, chunks: seq<seq<Byte>>) returns (digest: seq<Byte>)
    requires forall i :: 0 <= i < |chunks| ==> |chunks[i]| <= TWO_32 - 64
    ensures digest == Digest(tr, Concat(chunks)) && IsDigest(tr, Concat(chunks), digest)
  {
    var context := new Md5Context.Init(tr);
    for i := 0 to |chunks|
      invariant context.Valid() && fresh(context) && fresh(context.buffer) && context.transform == tr
      invariant context.Message() + Concat(chunks[i..]) == Concat(chunks)
    {
      ConcatNext(context.Message(), chunks, i);
      context.Update(chunks[i]);
    }
    ConcatEnd(context.Message(), chunks);
    digest := context.Final();
  }

  function Concat(chunks: seq<seq<Byte>>): seq<Byte> {
    if chunks == [] then [] else chunks[0] + Concat(chunks[1..])
  }

  lemma ConcatNext(m: seq<Byte>, chunks: seq<seq<Byte>>, i: nat)
    requires i < |chunks|
    ensures m + Concat(chunks[i..]) == m + chunks[i] + Concat(chunks[i + 1..])
  {
    assert chunks[i..][0] == chunks[i] && chunks[i..][1..] == chunks[i + 1..];
    assert m + (chunks[i] + Concat(chunks[i + 1..])) == m + chunks[i] + Concat(chunks[i + 1..]);
  }

  lemma ConcatEnd(m: seq<Byte>, chunks: seq<seq<Byte>>)
    ensures m + Concat(chunks[|chunks|..]) == m
  {
    assert chunks[|chunks|..] == [];
  }
}
