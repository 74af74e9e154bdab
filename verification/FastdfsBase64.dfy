/** Base64 as values: what the encoder writes and what the decoder reads, and that the one undoes
    the other. */
module FastdfsBase64 {
  import opened Arithmetic
  import opened Common

  type Digit = x: int | 0 <= x < 64

  const IGNORE: int := -1
  const PAD: int := -2

  /** A configured codec: a letter for each digit, and for each character its digit, IGNORE or PAD. */
  datatype Codec = Codec(letters: seq<Byte>, values: seq<int>, pad: Byte, lineLength: int, separator: seq<Byte>)

  predicate Sized(c: Codec) {
    |c.letters| == 64 && |c.values| == 256 && forall i :: 0 <= i < 256 ==> PAD <= c.values[i] < 64
  }

  /** The tables agree: each letter reads back as its digit, the pad as PAD and the separator's
      characters as nothing. */
  predicate Consistent(c: Codec) {
    && Sized(c)
    && (forall d :: 0 <= d < 64 ==> c.values[c.letters[d]] == d)
    && c.values[c.pad] == PAD
    && (forall i :: 0 <= i < |c.separator| ==> c.values[c.separator[i]] == IGNORE)
  }

  // ---------------------------------------------------------------------------------------
  // Three bytes, four digits
  // ---------------------------------------------------------------------------------------

  function Combine(a: int, b: int, c: int): int { (a * 0x100 + b) * 0x100 + c }

  /** The last `n` digits of a number, high digit first. */
  function Digits(x: nat, n: nat): (d: seq<Digit>)
    ensures |d| == n
  {
    if n == 0 then [] else Digits(x / 64, n - 1) + [x % 64]
  }

  lemma FourDigits(x: nat)
    ensures Digits(x, 4) == [x / 64 / 64 / 64 % 64, x / 64 / 64 % 64, x / 64 % 64, x % 64]
  {
    var y := x / 64;
    var z := y / 64;
    assert Digits(z, 2) == [z / 64 % 64, z % 64];
    assert Digits(y, 3) == [z / 64 % 64, z % 64, y % 64];
  }

  /** The last `n` bytes of a number, high byte first. */
  function BytesOf(x: nat, n: nat): (b: seq<Byte>)
    ensures |b| == n
  {
    if n == 0 then [] else BytesOf(x / 0x100, n - 1) + [x % 0x100]
  }

  lemma ThreeBytes(x: nat)
    ensures BytesOf(x, 3) == [x / 0x100 / 0x100 % 0x100, x / 0x100 % 0x100, x % 0x100]
  {
    var y := x / 0x100;
    assert BytesOf(y, 2) == [y / 0x100 % 0x100, y % 0x100];
  }

  /** The number digits stand for, high digit first. */
  function Held(d: seq<Digit>): nat {
    if d == [] then 0 else Held(d[..|d| - 1]) * 64 + d[|d| - 1]
  }

  lemma HeldNext(d: seq<Digit>, v: Digit)
    ensures Held(d + [v]) == Held(d) * 64 + v
  {
    assert (d + [v])[..|d|] == d;
  }

  lemma {:induction false} HeldDigits(x: nat, n: nat)
    requires n <= 4 && (n == 0 ==> x == 0) && (n == 1 ==> x < 64) && (n == 2 ==> x < 64 * 64)
    requires (n == 3 ==> x < 64 * 64 * 64) && (n == 4 ==> x < 64 * 64 * 64 * 64)
    ensures Held(Digits(x, n)) == x
    decreases n
  {
    if n > 0 {
      HeldDigits(x / 64, n - 1);
      HeldNext(Digits(x / 64, n - 1), x % 64);
    }
  }

  lemma Shift8(y: int, c: Byte)
    ensures (y * 0x100 + c) / 0x100 == y && (y * 0x100 + c) % 0x100 == c
  {
  }

  lemma BytesStep(y: nat, c: Byte, n: nat)
    ensures BytesOf(y * 0x100 + c, n + 1) == BytesOf(y, n) + [c]
  {
    Shift8(y, c);
  }

  lemma BytesCombine(a: Byte, b: Byte, c: Byte)
    ensures 0 <= Combine(a, b, c) < 0x100_0000 && BytesOf(Combine(a, b, c), 3) == [a, b, c]
  {
    BytesStep(a * 0x100 + b, c, 2);
    BytesStep(a, b, 1);
    BytesStep(0, a, 0);
  }

  /** The four digits of three bytes. */
  function Quad(a: Byte, b: Byte, c: Byte): (d: seq<Digit>)
    ensures |d| == 4
  {
    Digits(Combine(a, b, c), 4)
  }

  /** The six-bit groups of three bytes, as in section 4 of RFC 4648. */
  lemma QuadExactly(a: Byte, b: Byte, c: Byte)
    ensures Quad(a, b, c) == [a / 4, a % 4 * 16 + b / 16, b % 16 * 4 + c / 64, c % 64]
  {
    var x := Combine(a, b, c);
    FourDigits(x);
    DivMod(x, 64, (a * 0x100 + b) * 4 + c / 64, c % 64);
    DivMod(x / 64, 64, a * 16 + b / 16, b % 16 * 4 + c / 64);
    DivMod(x / 64 / 64, 64, a / 4, a % 4 * 16 + b / 16);
  }

  /** Bytes that are zero leave their digits zero. */
  lemma QuadOfZeros(a: Byte, b: Byte)
    ensures Quad(a, b, 0)[3] == 0 && (b == 0 ==> Quad(a, b, 0)[2] == 0)
  {
    var x := Combine(a, b, 0);
    FourDigits(x);
    DivMod(x, 64, 4 * (a * 0x100 + b), 0);
    if b == 0 {
      DivMod(x / 64, 64, a * 16, 0);
    }
  }

  /** The bytes of complete groups of four digits. */
  function Unpack(d: seq<Digit>): seq<Byte>
    decreases |d|
  {
    if |d| < 4 then [] else BytesOf(Held(d[..4]), 3) + Unpack(d[4..])
  }

  lemma UnpackQuad(a: Byte, b: Byte, c: Byte, rest: seq<Digit>)
    ensures Unpack(Quad(a, b, c) + rest) == [a, b, c] + Unpack(rest)
  {
    BytesCombine(a, b, c);
    HeldDigits(Combine(a, b, c), 4);
    var d := Quad(a, b, c) + rest;
    assert d[..4] == Quad(a, b, c) && d[4..] == rest;
  }

  // ---------------------------------------------------------------------------------------
  // What the encoder writes
  // ---------------------------------------------------------------------------------------

  function Letters(c: Codec, d: seq<Digit>): (t: seq<Byte>)
    requires |c.letters| == 64
    ensures |t| == |d| && forall i :: 0 <= i < |d| ==> t[i] == c.letters[d[i]]
  {
    seq(|d|, i requires 0 <= i < |d| => c.letters[d[i]])
  }

  function Repeat(b: Byte, n: nat): (p: seq<Byte>)
    ensures |p| == n && forall i :: 0 <= i < n ==> p[i] == b
  {
    seq(n, _ => b)
  }

  function Pads(c: Codec, n: nat): (p: seq<Byte>)
    ensures |p| == n
  {
    Repeat(c.pad, n)
  }

  /** How many bytes are missing from the last group of three. */
  function Missing(n: nat): (m: nat)
    ensures m < 3 && (n + m) % 3 == 0
  {
    (0 - n) % 3
  }

  type Group = seq<Byte>

  /** Four letters for three bytes. */
  function FullGroup(c: Codec, x: Byte, y: Byte, z: Byte): (g: Group)
    requires |c.letters| == 64
    ensures |g| == 4
  {
    Letters(c, Quad(x, y, z))
  }

  /** Two or three letters for one or two bytes; with `missing` pads, if wanted. */
  function LastGroup(c: Codec, x: Byte, y: Byte, missing: nat, pad: bool): (g: Group)
    requires |c.letters| == 64 && missing <= 4
    ensures |g| == if pad then 4 else 4 - missing
  {
    FullGroup(c, x, y, 0)[..4 - missing] + (if pad then Pads(c, missing) else [])
  }

  /** Sections 4 and 5 of RFC 4648, as groups of characters. */
  function Groups(c: Codec, src: seq<Byte>, pad: bool): seq<Group>
    requires |c.letters| == 64
    decreases |src|
  {
    if |src| == 0 then []
    else if |src| == 1 then [LastGroup(c, src[0], 0, 2, pad)]
    else if |src| == 2 then [LastGroup(c, src[0], src[1], 1, pad)]
    else [FullGroup(c, src[0], src[1], src[2])] + Groups(c, src[3..], pad)
  }

  function Concat(gs: seq<Group>): seq<Byte> {
    if gs == [] then [] else gs[0] + Concat(gs[1..])
  }

  /** What the encoder does before a group: when four more characters do not fit on the current
      line, it starts a new one. */
  function Lead(c: Codec, linePos: int): seq<Byte> {
    if linePos + 4 > c.lineLength && c.lineLength != 0 then c.separator else []
  }

  function NextPos(c: Codec, linePos: int): int {
    if linePos + 4 > c.lineLength then 4 else linePos + 4
  }

  function Emit(c: Codec, gs: seq<Group>, linePos: int): seq<Byte>
    decreases |gs|
  {
    if gs == [] then [] else Lead(c, linePos) + gs[0] + Emit(c, gs[1..], NextPos(c, linePos))
  }

  function Encoded(c: Codec, src: seq<Byte>, pad: bool): seq<Byte>
    requires |c.letters| == 64
  {
    Emit(c, Groups(c, src, pad), 0)
  }

  // ---------------------------------------------------------------------------------------
  // What the decoder reads
  // ---------------------------------------------------------------------------------------

  /** The digits in a text: ignored characters give none, pads give zero. */
  function Read(c: Codec, s: seq<Byte>): seq<Digit>
    requires Sized(c)
  {
    if s == [] then [] else ReadOne(c, s[0]) + Read(c, s[1..])
  }

  function ReadOne(c: Codec, ch: Byte): seq<Digit>
    requires Sized(c)
  {
    var v := c.values[ch];
    if v == IGNORE then [] else if v == PAD then [0] else [v]
  }

  function PadCount(c: Codec, s: seq<Byte>): nat
    requires Sized(c)
  {
    if s == [] then 0 else IsPad(c, s[0]) + PadCount(c, s[1..])
  }

  function IsPad(c: Codec, ch: Byte): nat
    requires Sized(c)
  {
    if c.values[ch] == PAD then 1 else 0
  }

  /** The decoder's outcome. `BadLength` is reported; `Overpadded` means more pads than bytes, and
      the program then puts its terminator in front of the output buffer. */
  datatype Outcome = BadLength | Overpadded | Bytes(bytes: seq<Byte>)

  function Decoded(c: Codec, s: seq<Byte>): Outcome
    requires Sized(c)
  {
    if |Read(c, s)| % 4 != 0 then BadLength
    else
      var b, p := Unpack(Read(c, s)), PadCount(c, s);
      if p > |b| then Overpadded else Bytes(b[..|b| - p])
  }

  function AutoPads(length: nat): (n: nat)
    ensures n < 4 && (length + n) % 4 == 0
  {
    if length % 4 == 0 then 0 else 4 - length % 4
  }

  /** `base64_decode_auto` fills up the raw length, separators included, to a multiple of four. */
  function AutoPadded(c: Codec, s: seq<Byte>): seq<Byte> {
    s + Pads(c, AutoPads(|s|))
  }

  // ---------------------------------------------------------------------------------------
  // Round trips
  // ---------------------------------------------------------------------------------------

  lemma {:induction false} ReadAppend(c: Codec, s: seq<Byte>, t: seq<Byte>)
    requires Sized(c)
    ensures Read(c, s + t) == Read(c, s) + Read(c, t)
    ensures PadCount(c, s + t) == PadCount(c, s) + PadCount(c, t)
    decreases |s|
  {
    if s == [] {
      assert s + t == t;
    } else {
      var u := s + t;
      assert u[0] == s[0] && u[1..] == s[1..] + t;
      ReadAppend(c, s[1..], t);
      assert Read(c, u) == ReadOne(c, s[0]) + (Read(c, s[1..]) + Read(c, t));
      assert Read(c, s) == ReadOne(c, s[0]) + Read(c, s[1..]);
    }
  }

  lemma {:induction false} ReadLetters(c: Codec, d: seq<Digit>)
    requires Consistent(c)
    ensures Read(c, Letters(c, d)) == d && PadCount(c, Letters(c, d)) == 0
    decreases |d|
  {
    if d != [] {
      assert Letters(c, d)[1..] == Letters(c, d[1..]);
      ReadLetters(c, d[1..]);
    }
  }

  lemma {:induction false} ReadIgnored(c: Codec, s: seq<Byte>)
    requires Sized(c) && forall i :: 0 <= i < |s| ==> c.values[s[i]] == IGNORE
    ensures Read(c, s) == [] && PadCount(c, s) == 0
  {
    if s != [] {
      ReadIgnored(c, s[1..]);
    }
  }

  function ZeroDigits(n: nat): seq<Digit> {
    Zeros(n)
  }

  lemma {:induction false} ReadPads(c: Codec, n: nat)
    requires Consistent(c)
    ensures Read(c, Pads(c, n)) == ZeroDigits(n) && PadCount(c, Pads(c, n)) == n
  {
    if n > 0 {
      assert Pads(c, n)[1..] == Pads(c, n - 1);
      ReadPads(c, n - 1);
      assert [0] + ZeroDigits(n - 1) == ZeroDigits(n);
    }
  }

  /** Two texts the decoder cannot tell apart. */
  predicate ReadAlike(c: Codec, s: seq<Byte>, t: seq<Byte>)
    requires Sized(c)
  {
    Read(c, s) == Read(c, t) && PadCount(c, s) == PadCount(c, t)
  }

  lemma SkipLead(c: Codec, lead: seq<Byte>, g: seq<Byte>, s: seq<Byte>, t: seq<Byte>)
    requires Sized(c) && ReadAlike(c, lead, []) && ReadAlike(c, s, t)
    ensures ReadAlike(c, lead + g + s, g + t)
  {
    ReadAppend(c, lead, g);
    ReadAppend(c, lead + g, s);
    ReadAppend(c, g, t);
    assert [] + Read(c, g) == Read(c, g);
  }

  lemma LeadIgnored(c: Codec, linePos: int)
    requires Consistent(c)
    ensures ReadAlike(c, Lead(c, linePos), [])
  {
    ReadIgnored(c, Lead(c, linePos));
  }

  /** Line breaks are invisible to the decoder, whatever the line length. */
  lemma {:induction false} ReadEmit(c: Codec, gs: seq<Group>, linePos: int)
    requires Consistent(c)
    ensures ReadAlike(c, Emit(c, gs, linePos), Concat(gs))
    decreases |gs|
  {
    if gs != [] {
      var lead, rest := Lead(c, linePos), Emit(c, gs[1..], NextPos(c, linePos));
      LeadIgnored(c, linePos);
      ReadEmit(c, gs[1..], NextPos(c, linePos));
      SkipLead(c, lead, gs[0], rest, Concat(gs[1..]));
      assert Emit(c, gs, linePos) == lead + gs[0] + rest;
      assert Concat(gs) == gs[0] + Concat(gs[1..]);
    }
  }

  lemma MissingStep(n: nat)
    requires n >= 3
    ensures Missing(n) == Missing(n - 3)
  {
  }

  lemma ReadGroup(c: Codec, d: seq<Digit>, n: nat)
    requires Consistent(c) && |d| == 4 && n <= 2 && (n >= 1 ==> d[3] == 0) && (n == 2 ==> d[2] == 0)
    ensures var g := Letters(c, d[..4 - n]);
            && Read(c, g) == d[..4 - n] && PadCount(c, g) == 0
            && Read(c, g + Pads(c, n)) == d && PadCount(c, g + Pads(c, n)) == n
  {
    var g := Letters(c, d[..4 - n]);
    ReadLetters(c, d[..4 - n]);
    ReadPads(c, n);
    ReadAppend(c, g, Pads(c, n));
    assert d[..4 - n] + ZeroDigits(n) == d;
  }

  lemma ConcatOne(g: Group)
    ensures Concat([g]) == g
  {
    assert [g][1..] == [];
  }

  lemma ConcatCons(g: Group, gs: seq<Group>)
    ensures Concat([g] + gs) == g + Concat(gs)
  {
    assert ([g] + gs)[1..] == gs;
  }

  /** The text reads as `n` groups of digits that unpack to `bytes`, the last `pads` of them padding. */
  predicate Carries(c: Codec, t: seq<Byte>, n: nat, bytes: seq<Byte>, pads: nat)
    requires Sized(c)
  {
    |Read(c, t)| == 4 * n && Unpack(Read(c, t)) == bytes && PadCount(c, t) == pads
  }

  lemma CarriesLast(c: Codec, a: Byte, b: Byte, pads: nat)
    requires Consistent(c) && 1 <= pads <= 2 && (pads == 2 ==> b == 0)
    ensures Carries(c, LastGroup(c, a, b, pads, true), 1, [a, b, 0], pads)
  {
    var d := Quad(a, b, 0);
    QuadOfZeros(a, b);
    ReadGroup(c, d, pads);
    assert Letters(c, d[..4 - pads]) == FullGroup(c, a, b, 0)[..4 - pads];
    UnpackOne(a, b, 0);
  }

  lemma UnpackOne(a: Byte, b: Byte, c: Byte)
    ensures Unpack(Quad(a, b, c)) == [a, b, c]
  {
    UnpackQuad(a, b, c, []);
    assert Quad(a, b, c) + [] == Quad(a, b, c) && [a, b, c] + Unpack([]) == [a, b, c];
  }

  lemma CarriesMore(c: Codec, x: Byte, y: Byte, z: Byte, t: seq<Byte>, n: nat, bytes: seq<Byte>, pads: nat)
    requires Consistent(c) && Carries(c, t, n, bytes, pads)
    ensures Carries(c, FullGroup(c, x, y, z) + t, n + 1, [x, y, z] + bytes, pads)
  {
    var d := Quad(x, y, z);
    ReadLetters(c, d);
    ReadAppend(c, Letters(c, d), t);
    UnpackQuad(x, y, z, Read(c, t));
  }

  lemma MissingSmall()
    ensures Missing(0) == 0 && Missing(1) == 2 && Missing(2) == 1
  {
  }

  predicate GroupsCarry(c: Codec, src: seq<Byte>)
    requires Consistent(c)
  {
    var gs, m := Groups(c, src, true), Missing(|src|);
    Carries(c, Concat(gs), |gs|, src + Zeros(m), m)
  }

  lemma ShortCarries(c: Codec, src: seq<Byte>)
    requires Consistent(c) && |src| <= 2
    ensures GroupsCarry(c, src)
  {
    MissingSmall();
    if |src| == 0 {
      assert src + Zeros(0) == [];
    } else {
      var second := if |src| == 1 then 0 else src[1];
      CarriesLast(c, src[0], second, 3 - |src|);
      ConcatOne(Groups(c, src, true)[0]);
      assert src + Zeros(3 - |src|) == [src[0], second, 0];
    }
  }

  lemma LongerCarries(c: Codec, src: seq<Byte>)
    requires Consistent(c) && |src| >= 3 && GroupsCarry(c, src[3..])
    ensures GroupsCarry(c, src)
  {
    var more, m := Groups(c, src[3..], true), Missing(|src|);
    var rest := src[3..] + Zeros(m);
    MissingStep(|src|);
    CarriesMore(c, src[0], src[1], src[2], Concat(more), |more|, rest, m);
    ConcatCons(FullGroup(c, src[0], src[1], src[2]), more);
    assert [src[0], src[1], src[2]] + rest == src + Zeros(m);
  }

  /** The padded groups carry the message and as many zeros as bytes are missing. */
  lemma {:induction false} PaddedCarries(c: Codec, src: seq<Byte>)
    requires Consistent(c)
    ensures GroupsCarry(c, src)
    decreases |src|
  {
    if |src| <= 2 {
      ShortCarries(c, src);
    } else {
      PaddedCarries(c, src[3..]);
      LongerCarries(c, src);
    }
  }

  /** Decoding a padded encoding gives back the message, for every line length. */
  lemma DecodeEncoded(c: Codec, src: seq<Byte>)
    requires Consistent(c)
    ensures Decoded(c, Encoded(c, src, true)) == Bytes(src)
  {
    ReadEmit(c, Groups(c, src, true), 0);
    PaddedCarries(c, src);
    MultipleOfFour(|Groups(c, src, true)|);
  }

  // ---------------------------------------------------------------------------------------
  // Too many pads
  // ---------------------------------------------------------------------------------------

  lemma {:induction false} UnpackLength(d: seq<Digit>)
    requires |d| % 4 == 0
    ensures |Unpack(d)| == 3 * (|d| / 4)
    decreases |d|
  {
    if |d| >= 4 {
      UnpackLength(d[4..]);
    }
  }

  lemma {:induction false} PadsAreRead(c: Codec, s: seq<Byte>)
    requires Sized(c)
    ensures PadCount(c, s) <= |Read(c, s)|
  {
    if s != [] {
      PadsAreRead(c, s[1..]);
    }
  }

  lemma PadsAgainstLetters(total: nat, pads: nat)
    requires total % 4 == 0 && pads <= total
    ensures pads > 3 * (total / 4) <==> pads > 3 * (total - pads)
  {
  }

  /** The terminator lands in front of the buffer exactly if the digits come in fours and more pads
      than bytes were read, that is more than three pads for each letter. */
  lemma OverpaddedExactly(c: Codec, s: seq<Byte>)
    requires Sized(c)
    ensures Decoded(c, s) == Overpadded <==>
            |Read(c, s)| % 4 == 0 && PadCount(c, s) > 3 * (|Read(c, s)| / 4)
    ensures Decoded(c, s) == Overpadded <==>
            |Read(c, s)| % 4 == 0 && PadCount(c, s) > 3 * (|Read(c, s)| - PadCount(c, s))
  {
    PadsAreRead(c, s);
    if |Read(c, s)| % 4 == 0 {
      UnpackLength(Read(c, s));
      PadsAgainstLetters(|Read(c, s)|, PadCount(c, s));
    }
  }

  lemma AutoPaddedReads(c: Codec, s: seq<Byte>)
    requires Consistent(c)
    ensures |Read(c, AutoPadded(c, s))| == |Read(c, s)| + AutoPads(|s|)
    ensures PadCount(c, AutoPadded(c, s)) == PadCount(c, s) + AutoPads(|s|)
  {
    ReadAppend(c, s, Pads(c, AutoPads(|s|)));
    ReadPads(c, AutoPads(|s|));
  }

  /** The same for `base64_decode_auto`, in terms of the text before padding. */
  lemma AutoOverpaddedExactly(c: Codec, s: seq<Byte>)
    requires Consistent(c)
    ensures Decoded(c, AutoPadded(c, s)) == Overpadded <==>
            && (|Read(c, s)| + AutoPads(|s|)) % 4 == 0
            && PadCount(c, s) + AutoPads(|s|) > 3 * (|Read(c, s)| - PadCount(c, s))
  {
    AutoPaddedReads(c, s);
    OverpaddedExactly(c, AutoPadded(c, s));
  }

  /** Four pads, and for `base64_decode_auto` a single one. */
  lemma PadsAloneOverpad(c: Codec)
    requires Consistent(c)
    ensures Decoded(c, Pads(c, 4)) == Overpadded
    ensures Decoded(c, AutoPadded(c, Pads(c, 1))) == Overpadded
  {
    ReadPads(c, 4);
    assert AutoPadded(c, Pads(c, 1)) == Pads(c, 4);
  }

  lemma MultipleOfFour(n: nat)
    ensures 4 * n % 4 == 0
  {
  }

  // ---------------------------------------------------------------------------------------
  // Automatic padding
  // ---------------------------------------------------------------------------------------

  function Flat(c: Codec, src: seq<Byte>, pad: bool): seq<Byte>
    requires |c.letters| == 64
  {
    Concat(Groups(c, src, pad))
  }

  /** Padding an unpadded text is the padded text. */
  lemma {:induction false} FlatPadded(c: Codec, src: seq<Byte>)
    requires |c.letters| == 64
    ensures Flat(c, src, true) == Flat(c, src, false) + Pads(c, Missing(|src|))
    ensures |Flat(c, src, true)| == 4 * |Groups(c, src, true)|
    ensures |Groups(c, src, false)| == |Groups(c, src, true)|
    decreases |src|
  {
    MissingSmall();
    var gs, hs := Groups(c, src, true), Groups(c, src, false);
    if |src| == 0 {
    } else if |src| <= 2 {
      ConcatOne(gs[0]);
      ConcatOne(hs[0]);
    } else {
      FlatPadded(c, src[3..]);
      MissingStep(|src|);
      ConcatCons(gs[0], Groups(c, src[3..], true));
      ConcatCons(hs[0], Groups(c, src[3..], false));
    }
  }

  /** The number of characters that separate lines. */
  function Separators(c: Codec, src: seq<Byte>): int
    requires |c.letters| == 64
  {
    |Encoded(c, src, false)| - |Flat(c, src, false)|
  }

  lemma PadsNeeded(length: nat, separators: int, m: nat, groups: nat)
    requires m < 3 && length + m - separators == 4 * groups
    ensures separators % 4 == 0 <==> AutoPads(length) == m
  {
  }

  lemma NotEven(groups: int, m: int, n: int)
    requires 0 <= m < 4 && 0 <= n < 4 && m != n
    ensures (4 * groups - m + n) % 4 != 0
  {
  }

  /** The digits of an unpadded encoding are those of the padded one without the padding. */
  lemma ReadUnpadded(c: Codec, src: seq<Byte>)
    requires Consistent(c)
    ensures var s, m := Encoded(c, src, false), Missing(|src|);
            && Read(c, s) + ZeroDigits(m) == Read(c, Flat(c, src, true))
            && PadCount(c, s) + m == PadCount(c, Flat(c, src, true))
  {
    var m := Missing(|src|);
    ReadEmit(c, Groups(c, src, false), 0);
    FlatPadded(c, src);
    ReadAppend(c, Flat(c, src, false), Pads(c, m));
    ReadPads(c, m);
  }

  lemma ReadAutoPadded(c: Codec, src: seq<Byte>, n: nat)
    requires Consistent(c)
    ensures var s, m := Encoded(c, src, false), Missing(|src|);
            var t := s + Pads(c, n);
            && |Read(c, t)| == 4 * |Groups(c, src, true)| - m + n
            && (n == m ==> ReadAlike(c, t, Flat(c, src, true)))
  {
    var s := Encoded(c, src, false);
    ReadUnpadded(c, src);
    ReadAppend(c, s, Pads(c, n));
    ReadPads(c, n);
    PaddedCarries(c, src);
  }

  /** Unpadded text decodes automatically exactly when the separators in it make up a multiple of
      four characters (none, in particular); otherwise the decoder reports a bad length. */
  lemma AutoDecodeExactly(c: Codec, src: seq<Byte>)
    requires Consistent(c)
    ensures Decoded(c, AutoPadded(c, Encoded(c, src, false))) ==
            if Separators(c, src) % 4 == 0 then Bytes(src) else BadLength
  {
    var s, m, k := Encoded(c, src, false), Missing(|src|), |Groups(c, src, true)|;
    var n := AutoPads(|s|);
    FlatPadded(c, src);
    PadsNeeded(|s|, Separators(c, src), m, k);
    ReadAutoPadded(c, src, n);
    if n == m {
      PaddedCarries(c, src);
      MultipleOfFour(k);
    } else {
      NotEven(k, m, n);
    }
  }

  // ---------------------------------------------------------------------------------------
  // Lines
  // ---------------------------------------------------------------------------------------

  /** Lines of `per` groups, the first with room for `room`, joined by the separator. Nothing
      follows the last line. */
  function Lines(gs: seq<Group>, room: nat, per: nat, separator: seq<Byte>): seq<Byte>
    requires per > 0
    decreases |gs|, per - room
  {
    if |gs| <= room then Concat(gs)
    else if room == 0 then separator + Lines(gs, per, per, separator)
    else Concat(gs[..room]) + separator + Lines(gs[room..], per, per, separator)
  }

  lemma LinesOfOne(gs: seq<Group>, room: nat, per: nat, separator: seq<Byte>)
    requires gs != [] && 0 < room && per > 0
    ensures Lines(gs, room, per, separator) ==
            gs[0] + (if |gs| == 1 then [] else Lines(gs[1..], room - 1, per, separator))
  {
    if |gs| == 1 {
      assert gs == [gs[0]];
      ConcatOne(gs[0]);
    } else if |gs| > room {
      var first := gs[..room];
      assert first[0] == gs[0] && first[1..] == gs[1..][..room - 1];
      assert gs[room..] == gs[1..][room - 1..];
      if room == 1 {
        assert gs[1..][..0] == [];
      }
    }
  }

  /** What `base64_set_line_length` leaves; `base64_init_ex` takes any length. */
  predicate LegalLength(n: int) { n > 0 && n % 4 == 0 }

  /** How many groups go on a line, and on the first one. Where four characters do not fit, every group
      gets a line of its own after a separator. */
  function PerLine(lineLength: int): nat { if lineLength < 4 then 1 else lineLength / 4 }
  function OnFirst(lineLength: int): nat { if lineLength < 4 then 0 else lineLength / 4 }

  lemma NextPosInGroups(c: Codec, pos: nat, per: nat)
    requires c.lineLength / 4 == per && 0 < per && pos <= per
    ensures NextPos(c, 4 * pos) == 4 * (if pos == per then 1 else pos + 1)
    ensures Lead(c, 4 * pos) == if pos == per then c.separator else []
  {
  }

  /** With `per` groups to the line the encoder writes full lines with separators between them. */
  lemma {:induction false} EmitIsLines(c: Codec, gs: seq<Group>, pos: nat, per: nat)
    requires gs != [] && c.lineLength / 4 == per && 0 < per && pos <= per
    ensures Emit(c, gs, 4 * pos) == Lines(gs, per - pos, per, c.separator)
    decreases |gs|
  {
    var next := if pos == per then 1 else pos + 1;
    NextPosInGroups(c, pos, per);
    if |gs| > 1 {
      EmitIsLines(c, gs[1..], next, per);
    }
    LinesOfOne(gs, per - next + 1, per, c.separator);
  }

  lemma {:induction false} EmitOnePerLine(c: Codec, gs: seq<Group>, linePos: nat)
    requires gs != [] && c.lineLength != 0 && c.lineLength < 4
    ensures Emit(c, gs, linePos) == Lines(gs, 0, 1, c.separator)
    decreases |gs|
  {
    if |gs| > 1 {
      EmitOnePerLine(c, gs[1..], 4);
    }
    LinesOfOne(gs, 1, 1, c.separator);
  }

  /** The encoder writes its groups in lines of at most `lineLength` characters, whatever length is set. */
  lemma EncodedIsLines(c: Codec, src: seq<Byte>, pad: bool)
    requires |c.letters| == 64 && c.lineLength != 0
    ensures Encoded(c, src, pad) ==
            Lines(Groups(c, src, pad), OnFirst(c.lineLength), PerLine(c.lineLength), c.separator)
  {
    if src != [] {
      if c.lineLength < 4 {
        EmitOnePerLine(c, Groups(c, src, pad), 0);
      } else {
        EmitIsLines(c, Groups(c, src, pad), 0, c.lineLength / 4);
      }
    }
  }

  /** Without a line length there are no separators. */
  lemma {:induction false} EmitWithoutLines(c: Codec, gs: seq<Group>, linePos: int)
    requires c.lineLength == 0
    ensures Emit(c, gs, linePos) == Concat(gs)
    decreases |gs|
  {
    if gs != [] {
      EmitWithoutLines(c, gs[1..], NextPos(c, linePos));
    }
  }

  /** `base64_get_encode_length`. */
  function EncodeLength(c: Codec, n: nat): int {
    var length := (n + 2) / 3 * 4;
    if c.lineLength == 0 then length
    else
      var lines := TruncDiv(length + c.lineLength - 1, c.lineLength) - 1;
      if lines > 0 then length + lines * |c.separator| else length
  }

  lemma {:induction false} ConcatSplit(gs: seq<Group>, n: nat)
    requires n <= |gs|
    ensures Concat(gs) == Concat(gs[..n]) + Concat(gs[n..])
    decreases n
  {
    if n == 0 {
      assert gs[..0] == [] && gs[0..] == gs;
    } else {
      var a, b := gs[..n], gs[n..];
      ConcatSplit(gs[1..], n - 1);
      assert a[1..] == gs[1..][..n - 1] && b == gs[1..][n - 1..];
      assert Concat(a) == gs[0] + Concat(a[1..]);
    }
  }

  /** How many line breaks `n` groups take. */
  function Breaks(n: nat, room: nat, per: nat): nat
    requires per > 0
    decreases n, per - room
  {
    if n <= room then 0 else if room == 0 then 1 + Breaks(n, per, per) else 1 + Breaks(n - room, per, per)
  }

  lemma {:induction false} LinesLength(gs: seq<Group>, room: nat, per: nat, separator: seq<Byte>)
    requires per > 0
    ensures |Lines(gs, room, per, separator)| == |Concat(gs)| + Breaks(|gs|, room, per) * |separator|
    decreases |gs|, per - room
  {
    if |gs| > room {
      var rest := gs[room..];
      ConcatSplit(gs, room);
      assert room == 0 ==> rest == gs;
      LinesLength(rest, per, per, separator);
      Distribute(1, Breaks(|rest|, per, per), |separator|);
    }
  }

  lemma {:induction false} BreaksClosed(n: nat, room: nat, per: nat)
    requires n > 0 && per > 0 && room <= per
    ensures Breaks(n, room, per) == (per - room + n - 1) / per
    decreases n, per - room
  {
    if n > room {
      BreaksClosed(n - room, per, per);
      DivPlusOne(n - room - 1, per);
    } else {
      DivMod(per - room + n - 1, per, 0, per - room + n - 1);
    }
  }

  lemma {:induction false} GroupCount(c: Codec, src: seq<Byte>)
    requires |c.letters| == 64
    ensures |Groups(c, src, true)| == (|src| + 2) / 3
    decreases |src|
  {
    if |src| >= 3 {
      GroupCount(c, src[3..]);
    }
  }

  /** The line breaks that are written, and those that are announced. */
  function Written(lineLength: int, groups: nat): nat {
    if lineLength == 0 || groups == 0 then 0
    else if lineLength < 4 then groups
    else (groups - 1) / (lineLength / 4)
  }

  function Announced(lineLength: int, groups: nat): nat {
    if lineLength == 0 then 0
    else
      var lines := TruncDiv(4 * groups + lineLength - 1, lineLength) - 1;
      if lines > 0 then lines else 0
  }

  lemma WrittenIsBreaks(lineLength: int, groups: nat)
    requires lineLength != 0
    ensures Breaks(groups, OnFirst(lineLength), PerLine(lineLength)) == Written(lineLength, groups)
  {
    if groups > 0 {
      BreaksClosed(groups, OnFirst(lineLength), PerLine(lineLength));
    }
  }

  /** How many characters separate the lines of a message. */
  function SeparatorsOf(c: Codec, length: nat): nat {
    Written(c.lineLength, (length + 2) / 3) * |c.separator|
  }

  lemma EmitSeparators(c: Codec, src: seq<Byte>, pad: bool)
    requires |c.letters| == 64
    ensures |Encoded(c, src, pad)| == |Concat(Groups(c, src, pad))| + SeparatorsOf(c, |src|)
  {
    var gs := Groups(c, src, pad);
    FlatPadded(c, src);
    GroupCount(c, src);
    if c.lineLength == 0 {
      EmitWithoutLines(c, gs, 0);
    } else {
      EncodedIsLines(c, src, pad);
      LinesLength(gs, OnFirst(c.lineLength), PerLine(c.lineLength), c.separator);
      WrittenIsBreaks(c.lineLength, |gs|);
    }
  }

  lemma SeparatorsClosed(c: Codec, src: seq<Byte>)
    requires |c.letters| == 64
    ensures Separators(c, src) == SeparatorsOf(c, |src|)
  {
    EmitSeparators(c, src, false);
  }

  lemma AnnouncedLength(c: Codec, n: nat)
    ensures EncodeLength(c, n) == 4 * ((n + 2) / 3) + Announced(c.lineLength, (n + 2) / 3) * |c.separator|
  {
  }

  lemma SameProduct(a: nat, b: nat, n: nat)
    ensures a * n == b * n <==> a == b || n == 0
  {
    if a < b && n > 0 {
      FactorBelow(a, b, n);
    }
  }

  /** For every line length: the padded encoder writes as many characters as announced if and only if the
      breaks agree or the separator is empty. */
  lemma EncodeLengthExactly(c: Codec, src: seq<Byte>)
    requires |c.letters| == 64
    ensures var groups := (|src| + 2) / 3;
            |Encoded(c, src, true)| == EncodeLength(c, |src|) <==>
            c.separator == [] || Written(c.lineLength, groups) == Announced(c.lineLength, groups)
  {
    var groups := (|src| + 2) / 3;
    EmitSeparators(c, src, true);
    FlatPadded(c, src);
    GroupCount(c, src);
    AnnouncedLength(c, |src|);
    SameProduct(Written(c.lineLength, groups), Announced(c.lineLength, groups), |c.separator|);
  }

  /** From four characters on, that is a question of two quotients. */
  lemma BreaksAgreeExactly(groups: nat, lineLength: int)
    requires groups > 0 && lineLength >= 4
    ensures Written(lineLength, groups) == (groups - 1) / (lineLength / 4)
    ensures Announced(lineLength, groups) == (4 * groups - 1) / lineLength
  {
    DivPlusOne(4 * groups - 1, lineLength);
    DivMod(4 * groups - 1, lineLength, (4 * groups - 1) / lineLength, (4 * groups - 1) % lineLength);
  }

  /** In lines whose length is a multiple of four they agree. */
  lemma LegalBreaksAgree(groups: nat, lineLength: int)
    requires LegalLength(lineLength)
    ensures Written(lineLength, groups) == Announced(lineLength, groups)
  {
    if groups == 0 {
      DivMod(lineLength - 1, lineLength, 0, lineLength - 1);
    } else {
      BreaksAgreeExactly(groups, lineLength);
      var per := lineLength / 4;
      var q, r := (groups - 1) / per, (groups - 1) % per;
      assert lineLength == 4 * per && groups - 1 == q * per + r;
      Reassociate(q, per, 4);
      DivMod(4 * groups - 1, lineLength, q, 4 * r + 3);
    }
  }

  /** Then the padded encoder writes exactly as many characters as announced. */
  lemma EncodeLengthExact(c: Codec, src: seq<Byte>)
    requires |c.letters| == 64 && (c.lineLength == 0 || LegalLength(c.lineLength))
    ensures |Encoded(c, src, true)| == EncodeLength(c, |src|)
  {
    EncodeLengthExactly(c, src);
    if c.lineLength != 0 {
      LegalBreaksAgree((|src| + 2) / 3, c.lineLength);
    }
  }

  /** Nine bytes in lines of six characters, as `base64_init_ex` allows: one character too few is
      announced. */
  lemma EncodeLengthFails(c: Codec, src: seq<Byte>)
    requires |c.letters| == 64 && c.lineLength == 6 && |c.separator| == 1 && |src| == 9
    ensures EncodeLength(c, 9) == 13 && |Encoded(c, src, true)| == 14
  {
    EmitSeparators(c, src, true);
    FlatPadded(c, src);
    GroupCount(c, src);
  }

  /** So whether automatic padding works can be told from the length of the message, the length of a
      line and the length of the separator. */
  lemma AutoDecodeByLength(c: Codec, src: seq<Byte>)
    requires Consistent(c)
    ensures Decoded(c, AutoPadded(c, Encoded(c, src, false))) ==
            if SeparatorsOf(c, |src|) % 4 == 0 then Bytes(src) else BadLength
  {
    SeparatorsClosed(c, src);
    AutoDecodeExactly(c, src);
  }

  lemma OneSeparator(c: Codec)
    requires c.lineLength == 4 && |c.separator| == 1
    ensures SeparatorsOf(c, 4) == 1
  {
  }

  /** Four bytes on two lines, with one character between. */
  lemma AutoDecodeFails(c: Codec, src: seq<Byte>)
    requires Consistent(c) && c.lineLength == 4 && |c.separator| == 1 && |src| == 4
    ensures Decoded(c, AutoPadded(c, Encoded(c, src, false))) == BadLength
  {
    OneSeparator(c);
    AutoDecodeByLength(c, src);
  }

  // ---------------------------------------------------------------------------------------
  // Encoding group after group
  // ---------------------------------------------------------------------------------------

  /** The position on the line after `n` groups. */
  function PosAfter(c: Codec, n: nat, linePos: int): int {
    if n == 0 then linePos else NextPos(c, PosAfter(c, n - 1, linePos))
  }

  lemma {:induction false} PosShift(c: Codec, n: nat, linePos: int)
    ensures PosAfter(c, n, NextPos(c, linePos)) == PosAfter(c, n + 1, linePos)
  {
    if n > 0 {
      PosShift(c, n - 1, linePos);
    }
  }

  lemma {:induction false} EmitAppend(c: Codec, gs: seq<Group>, hs: seq<Group>, linePos: int)
    ensures Emit(c, gs + hs, linePos) == Emit(c, gs, linePos) + Emit(c, hs, PosAfter(c, |gs|, linePos))
    decreases |gs|
  {
    if gs == [] {
      assert gs + hs == hs;
    } else {
      var next := NextPos(c, linePos);
      assert (gs + hs)[0] == gs[0] && (gs + hs)[1..] == gs[1..] + hs;
      EmitAppend(c, gs[1..], hs, next);
      PosShift(c, |gs| - 1, linePos);
    }
  }

  lemma EmitOne(c: Codec, g: Group, linePos: int)
    ensures Emit(c, [g], linePos) == Lead(c, linePos) + g
  {
    assert [g][1..] == [];
  }

  /** The first `k` whole groups. */
  function FullGroups(c: Codec, src: seq<Byte>, k: nat): (gs: seq<Group>)
    requires |c.letters| == 64 && 3 * k <= |src|
    ensures |gs| == k
  {
    if k == 0 then []
    else FullGroups(c, src, k - 1) + [FullGroup(c, src[3 * k - 3], src[3 * k - 2], src[3 * k - 1])]
  }

  lemma {:induction false} FullGroupsCons(c: Codec, src: seq<Byte>, k: nat)
    requires |c.letters| == 64 && k > 0 && 3 * k <= |src|
    ensures FullGroups(c, src, k) == [FullGroup(c, src[0], src[1], src[2])] + FullGroups(c, src[3..], k - 1)
    decreases k
  {
    if k > 1 {
      var rest := src[3..];
      FullGroupsCons(c, src, k - 1);
      assert rest[3 * k - 6] == src[3 * k - 3] && rest[3 * k - 5] == src[3 * k - 2]
          && rest[3 * k - 4] == src[3 * k - 1];
    }
  }

  /** All groups are the whole ones and what one or two bytes at the end give. */
  lemma {:induction false} GroupsSplit(c: Codec, src: seq<Byte>, pad: bool, k: nat)
    requires |c.letters| == 64 && 3 * k <= |src| < 3 * k + 3
    ensures Groups(c, src, pad) == FullGroups(c, src, k) + Groups(c, src[3 * k..], pad)
    decreases k
  {
    if k == 0 {
      assert src[0..] == src;
    } else {
      var g, rest := FullGroup(c, src[0], src[1], src[2]), src[3..];
      GroupsSplit(c, rest, pad, k - 1);
      FullGroupsCons(c, src, k);
      assert rest[3 * (k - 1)..] == src[3 * k..];
      assert Groups(c, src, pad) == [g] + Groups(c, rest, pad);
    }
  }

  /** Adding whole group `i`. */
  lemma GroupNext(c: Codec, src: seq<Byte>, i: nat)
    requires |c.letters| == 64 && 3 * i + 3 <= |src|
    ensures Emit(c, FullGroups(c, src, i + 1), 0) ==
            Emit(c, FullGroups(c, src, i), 0) + Lead(c, PosAfter(c, i, 0))
            + FullGroup(c, src[3 * i], src[3 * i + 1], src[3 * i + 2])
  {
    var gs, g := FullGroups(c, src, i), FullGroup(c, src[3 * i], src[3 * i + 1], src[3 * i + 2]);
    EmitAppend(c, gs, [g], 0);
    EmitOne(c, g, PosAfter(c, i, 0));
  }

  /** The room the first `i` whole groups take. */
  lemma GroupsFit(c: Codec, src: seq<Byte>, i: nat, k: nat)
    requires |c.letters| == 64 && i <= k && 3 * k <= |src| < 3 * k + 3
    ensures |Emit(c, FullGroups(c, src, i), 0)| <= |Encoded(c, src, true)|
  {
    var gs, all := FullGroups(c, src, i), Groups(c, src, true);
    FullGroupsPrefix(c, src, i, k);
    GroupsSplit(c, src, true, k);
    assert all == gs + all[i..];
    EmitAppend(c, gs, all[i..], 0);
  }

  lemma {:induction false} FullGroupsPrefix(c: Codec, src: seq<Byte>, i: nat, k: nat)
    requires |c.letters| == 64 && i <= k && 3 * k <= |src|
    ensures FullGroups(c, src, k)[..i] == FullGroups(c, src, i)
    decreases k
  {
    if i < k {
      FullGroupsPrefix(c, src, i, k - 1);
    }
  }

  /** The last, incomplete group in the text. */
  lemma LastGroupFits(c: Codec, src: seq<Byte>, pad: bool, k: nat, m: nat)
    requires |c.letters| == 64 && 1 <= m <= 2 && |src| + m == 3 * k + 3
    ensures Encoded(c, src, pad) ==
            Emit(c, FullGroups(c, src, k), 0) + Lead(c, PosAfter(c, k, 0))
            + LastGroup(c, src[3 * k], if m == 2 then 0 else src[3 * k + 1], m, pad)
  {
    var gs, rest := FullGroups(c, src, k), src[3 * k..];
    var last := LastGroup(c, src[3 * k], if m == 2 then 0 else src[3 * k + 1], m, pad);
    assert Groups(c, rest, pad) == [last];
    GroupsSplit(c, src, pad, k);
    EmitAppend(c, gs, [last], 0);
    EmitOne(c, last, PosAfter(c, k, 0));
  }

  lemma NothingMissing(c: Codec, src: seq<Byte>, pad: bool, k: nat)
    requires |c.letters| == 64 && |src| == 3 * k
    ensures Encoded(c, src, pad) == Emit(c, FullGroups(c, src, k), 0)
  {
    GroupsSplit(c, src, pad, k);
    assert src[3 * k..] == [];
    assert FullGroups(c, src, k) + [] == FullGroups(c, src, k);
  }

  // ---------------------------------------------------------------------------------------
  // Decoding character after character
  // ---------------------------------------------------------------------------------------

  lemma {:induction false} UnpackAppend(d: seq<Digit>, q: nat, e: seq<Digit>)
    requires |d| == 4 * q && |e| == 4
    ensures Unpack(d + e) == Unpack(d) + BytesOf(Held(e), 3)
    decreases q
  {
    var f := d + e;
    if q == 0 {
      assert f == e && f[..4] == e && f[4..] == [];
    } else {
      assert f[..4] == d[..4] && f[4..] == d[4..] + e;
      UnpackAppend(d[4..], q - 1, e);
    }
  }

  lemma HeldStep(d: seq<Digit>, n: nat, bound: nat)
    requires n < |d| && Held(d[..n]) < bound
    ensures Held(d[..n + 1]) < 64 * bound
  {
    HeldNext(d[..n], d[n]);
    assert d[..n + 1] == d[..n] + [d[n]];
  }

  lemma HeldBelow(d: seq<Digit>)
    requires |d| == 4
    ensures Held(d) < 0x100_0000
  {
    assert Held(d[..0]) == 0;
    HeldStep(d, 0, 1);
    HeldStep(d, 1, 64);
    HeldStep(d, 2, 0x1000);
    HeldStep(d, 3, 0x4_0000);
    assert d[..4] == d;
  }

  lemma {:induction false} ReadNotLonger(c: Codec, s: seq<Byte>)
    requires Sized(c)
    ensures |Read(c, s)| <= |s|
    decreases |s|
  {
    if s != [] {
      ReadNotLonger(c, s[1..]);
    }
  }

  /** What one character adds. */
  lemma ReadNext(c: Codec, s: seq<Byte>, i: nat)
    requires Sized(c) && i < |s|
    ensures && Read(c, s[..i + 1]) == Read(c, s[..i]) + ReadOne(c, s[i])
            && PadCount(c, s[..i + 1]) == PadCount(c, s[..i]) + IsPad(c, s[i])
  {
    assert s[..i + 1] == s[..i] + [s[i]];
    ReadAppend(c, s[..i], [s[i]]);
    assert [s[i]][1..] == [];
  }

  lemma ReadPrefix(c: Codec, s: seq<Byte>, i: nat)
    requires Sized(c) && i <= |s|
    ensures |Read(c, s[..i])| <= |Read(c, s)|
  {
    assert s == s[..i] + s[i..];
    ReadAppend(c, s[..i], s[i..]);
  }

  // ---------------------------------------------------------------------------------------
  // Every group, character by character
  // ---------------------------------------------------------------------------------------

  /** The characters that whole bytes give. */
  ghost predicate IsWholeGroup(c: Codec, g: Group, x: Byte, y: Byte, z: Byte)
    requires |c.letters| == 64
  {
    && |g| == 4
    && g[0] == c.letters[x / 4] && g[1] == c.letters[x % 4 * 16 + y / 16]
    && g[2] == c.letters[y % 16 * 4 + z / 64] && g[3] == c.letters[z % 64]
  }

  /** One byte gives two letters and two bytes three; pads stand after them or not at all. */
  ghost predicate IsShortGroup(c: Codec, g: Group, rest: seq<Byte>, pad: bool)
    requires |c.letters| == 64 && 0 < |rest| < 3
  {
    && |g| == (if pad then 4 else |rest| + 1)
    && g[0] == c.letters[rest[0] / 4]
    && (|rest| == 1 ==> g[1] == c.letters[rest[0] % 4 * 16])
    && (|rest| == 2 ==> g[1] == c.letters[rest[0] % 4 * 16 + rest[1] / 16] && g[2] == c.letters[rest[1] % 16 * 4])
    && forall i :: |rest| < i < |g| ==> g[i] == c.pad
  }

  lemma FullGroupExactly(c: Codec, x: Byte, y: Byte, z: Byte)
    requires |c.letters| == 64
    ensures IsWholeGroup(c, FullGroup(c, x, y, z), x, y, z)
  {
    QuadExactly(x, y, z);
  }

  lemma ShortGroupExactly(c: Codec, rest: seq<Byte>, pad: bool)
    requires |c.letters| == 64 && 0 < |rest| < 3
    ensures |Groups(c, rest, pad)| == 1 && IsShortGroup(c, Groups(c, rest, pad)[0], rest, pad)
  {
    FullGroupExactly(c, rest[0], if |rest| == 2 then rest[1] else 0, 0);
  }

  /** Sections 3.2 and 4 of RFC 4648: group by group what the encoder writes, separators aside. */
  lemma {:induction false} GroupsExactly(c: Codec, src: seq<Byte>, pad: bool, k: nat)
    requires |c.letters| == 64
    ensures 3 * k + 3 <= |src| ==>
              && k < |Groups(c, src, pad)|
              && IsWholeGroup(c, Groups(c, src, pad)[k], src[3 * k], src[3 * k + 1], src[3 * k + 2])
    ensures 3 * k < |src| < 3 * k + 3 ==>
              && |Groups(c, src, pad)| == k + 1
              && IsShortGroup(c, Groups(c, src, pad)[k], src[3 * k..], pad)
    ensures 3 * k == |src| ==> |Groups(c, src, pad)| == k
    decreases k
  {
    if k == 0 {
      if |src| >= 3 {
        FullGroupExactly(c, src[0], src[1], src[2]);
      } else if |src| > 0 {
        assert src[0..] == src;
        ShortGroupExactly(c, src, pad);
      }
    } else if |src| >= 3 {
      GroupsExactly(c, src[3..], pad, k - 1);
      if 3 * k < |src| {
        assert src[3..][3 * (k - 1)..] == src[3 * k..];
      }
    }
  }
}
