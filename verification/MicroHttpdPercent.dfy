/** Percent-encoding as in section 2.1 of RFC 3986: `strdecode`, which may work in place, and
    `strencode`, which is bounded by the size of its buffer. Strings are byte sequences that end with a
    zero byte in memory. */
module MicroHttpdPercent {
  import opened Common

  const PERCENT: Byte := 0x25

  // ---------------------------------------------------------------------------------------
  // Characters
  // ---------------------------------------------------------------------------------------

  predicate IsDigit(c: Byte) { 0x30 <= c <= 0x39 }
  predicate IsUpper(c: Byte) { 0x41 <= c <= 0x5a }
  predicate IsLower(c: Byte) { 0x61 <= c <= 0x7a }

  predicate IsHex(c: Byte) { IsDigit(c) || 0x41 <= c <= 0x46 || 0x61 <= c <= 0x66 }

  /** `hexit`. */
  function Hexit(c: Byte): int {
    if IsDigit(c) then Offset(c, 0x30)
    else if 0x61 <= c <= 0x66 then Offset(c, 0x57)
    else if 0x41 <= c <= 0x46 then Offset(c, 0x37)
    else 0
  }

  function Offset(c: int, base: int): int { c - base }

  lemma HexitRange(c: Byte)
    ensures 0 <= Hexit(c) < 16
  {
  }

  /** Letters, digits and `/_.-~` stand for themselves. */
  predicate IsPlain(c: Byte) {
    IsDigit(c) || IsUpper(c) || IsLower(c) || c == 0x2f || c == 0x5f || c == 0x2e || c == 0x2d || c == 0x7e
  }

  function HexDigit(n: int): Byte
    requires 0 <= n < 16
  {
    if n < 10 then 0x30 + n else 0x57 + n
  }

  // ---------------------------------------------------------------------------------------
  // The two codings
  // ---------------------------------------------------------------------------------------

  function EncodedByte(c: Byte): seq<Byte> {
    if IsPlain(c) then [c] else [PERCENT, HexDigit(c / 16), HexDigit(c % 16)]
  }

  function Encoded(s: seq<Byte>): seq<Byte> {
    if s == [] then [] else Encoded(s[..|s| - 1]) + EncodedByte(s[|s| - 1])
  }

  predicate StartsEscape(s: seq<Byte>) {
    |s| >= 3 && s[0] == PERCENT && IsHex(s[1]) && IsHex(s[2])
  }

  function Escaped(hi: Byte, lo: Byte): Byte {
    HexitRange(hi);
    HexitRange(lo);
    Hexit(hi) * 16 + Hexit(lo)
  }

  function Decoded(s: seq<Byte>): seq<Byte> {
    if s == [] then []
    else if StartsEscape(s) then [Escaped(s[1], s[2])] + Decoded(s[3..])
    else [s[0]] + Decoded(s[1..])
  }

  /** The characters that are never escaped. */
  const PLAIN: string := UPPER + LOWER + DECIMALS + "/_.-~"

  const HEX: string := "0123456789abcdef"

  lemma PlainExactly(c: Byte)
    ensures IsPlain(c) <==> c as char in PLAIN
  {
    LettersAndDigits(c);
  }

  lemma HexDigitExactly(n: int)
    requires 0 <= n < 16
    ensures HexDigit(n) == HEX[n] as int
  {
  }

  /** A byte stays as it is exactly when it is in the list; any other becomes a percent sign and its two
      hexadecimal digits. */
  lemma EncodedByteExactly(c: Byte)
    ensures EncodedByte(c) ==
            if c as char in PLAIN then [c] else ['%' as int, HEX[c / 16] as int, HEX[c % 16] as int]
  {
    PlainExactly(c);
    HexDigitExactly(c / 16);
    HexDigitExactly(c % 16);
  }

  /** Each hexadecimal digit is read for its value, letters in either case. */
  lemma HexitExactly(n: int)
    requires 0 <= n < 16
    ensures Hexit(HEX[n] as int) == n && Hexit("0123456789ABCDEF"[n] as int) == n
  {
  }

  lemma {:induction false} DecodedLength(s: seq<Byte>)
    ensures |Decoded(s)| <= |s|
  {
    if s != [] {
      if StartsEscape(s) {
        DecodedLength(s[3..]);
      } else {
        DecodedLength(s[1..]);
      }
    }
  }

  /** Decoding an encoded byte that is followed by anything gives that byte first. */
  lemma DecodeEncodedByte(c: Byte, rest: seq<Byte>)
    ensures Decoded(EncodedByte(c) + rest) == [c] + Decoded(rest)
  {
    var s := EncodedByte(c) + rest;
    if IsPlain(c) {
      assert s[1..] == rest;
    } else {
      assert s[3..] == rest;
      assert StartsEscape(s) && Escaped(s[1], s[2]) == c;
    }
  }

  lemma Associate(x: seq<Byte>, y: seq<Byte>, z: seq<Byte>)
    ensures x + y + z == x + (y + z)
  {
  }

  lemma {:induction false} DecodeEncodedThen(s: seq<Byte>, rest: seq<Byte>)
    ensures Decoded(Encoded(s) + rest) == s + Decoded(rest)
  {
    if s == [] {
      assert Encoded(s) + rest == rest && s + Decoded(rest) == Decoded(rest);
    } else {
      var init, c := s[..|s| - 1], s[|s| - 1];
      DecodeEncodedThen(init, EncodedByte(c) + rest);
      DecodeEncodedByte(c, rest);
      Associate(Encoded(init), EncodedByte(c), rest);
      Associate(init, [c], Decoded(rest));
      assert s == init + [c];
    }
  }

  /** The round trip, for every string. */
  lemma DecodeEncoded(s: seq<Byte>)
    ensures Decoded(Encoded(s)) == s
  {
    DecodeEncodedThen(s, []);
    assert Encoded(s) + [] == Encoded(s) && s + [] == s;
  }

  /** An encoded string has no zero byte and no byte that would need encoding except the escapes. */
  lemma {:induction false} EncodedIsSafe(s: seq<Byte>)
    ensures forall i :: 0 <= i < |Encoded(s)| ==> IsPlain(Encoded(s)[i]) || Encoded(s)[i] == PERCENT
  {
    if s != [] {
      EncodedIsSafe(s[..|s| - 1]);
    }
  }

  // ---------------------------------------------------------------------------------------
  // The programs
  // ---------------------------------------------------------------------------------------

  /** The array holds the string `s` and its terminating zero. */
  ghost predicate Holds(a: array<Byte>, s: seq<Byte>)
    reads a
  {
    |s| < a.Length && a[..|s|] == s && a[|s|] == 0 && 0 !in s
  }

  /** Writes one encoded byte. For an escape `sprintf` also writes a terminating zero. */
  method PutByte(to: array<Byte>, tolen: nat, c: Byte) returns (n: nat)
    requires tolen + 4 < to.Length
    modifies to
    ensures n == |EncodedByte(c)| && to[..tolen + n] == old(to[..tolen]) + EncodedByte(c)
    ensures forall j :: tolen + n < j < to.Length ==> to[j] == old(to[j])
  {
    if IsPlain(c) {
      to[tolen] := c;
      n := 1;
    } else {
      to[tolen] := PERCENT;
      to[tolen + 1] := HexDigit(c / 16);
      to[tolen + 2] := HexDigit(c % 16);
      to[tolen + 3] := 0;
      n := 3;
    }
  }

  /** `*to = 0`. */
  method EndString(to: array<Byte>, at: nat, ghost text: seq<Byte>)
    requires at < to.Length && to[..at] == text
    modifies to
    ensures to[..at + 1] == text + [0]
    ensures forall i :: at < i < to.Length ==> to[i] == old(to[i])
  {
    to[at] := 0;
  }

  /** The bytes that were taken left room for one more escape before the last of them, but not after. */
  predicate Fits(from: seq<Byte>, size: nat, taken: nat) {
    && taken <= |from| && |Encoded(from[..taken])| < size
    && (taken > 0 ==> |Encoded(from[..taken - 1])| + 4 < size)
    && (taken < |from| ==> |Encoded(from[..taken])| + 4 >= size)
  }

  lemma {:induction false} EncodedGrows(s: seq<Byte>, i: nat, j: nat)
    requires i <= j <= |s|
    ensures |Encoded(s[..i])| <= |Encoded(s[..j])|
    decreases j - i
  {
    if i < j {
      EncodedNext(s, j - 1);
      EncodedGrows(s, i, j - 1);
    }
  }

  lemma FitsOnce(from: seq<Byte>, size: nat, taken: nat, other: nat)
    requires Fits(from, size, taken) && Fits(from, size, other)
    ensures taken == other
  {
    if other < taken {
      EncodedGrows(from, other, taken - 1);
    } else if taken < other {
      EncodedGrows(from, taken, other - 1);
    }
  }

  /** Size and name determine how much is taken, and the whole name is exactly if all but its last byte
      leaves room for an escape. */
  lemma FitsExactly(from: seq<Byte>, size: nat, taken: nat)
    requires Fits(from, size, taken)
    ensures taken == |from| <==> from == [] || |Encoded(from[..|from| - 1])| + 4 < size
    ensures forall other: nat :: Fits(from, size, other) ==> other == taken
  {
    if taken < |from| {
      EncodedGrows(from, taken, |from| - 1);
    }
    forall other: nat | Fits(from, size, other)
      ensures other == taken
    {
      FitsOnce(from, size, taken, other);
    }
  }

  method EncodeAll(to: array<Byte>, from: seq<Byte>) returns (tolen: nat, taken: nat)
    requires to.Length > 0 && 0 !in from
    modifies to
    ensures Fits(from, to.Length, taken) && tolen < to.Length && to[..tolen] == Encoded(from[..taken])
    ensures forall j :: tolen < j < to.Length ==> to[j] == old(to[j])
  {
    tolen, taken := 0, 0;
    assert from[..0] == [];
    while taken < |from| && tolen + 4 < to.Length
      invariant taken <= |from| && tolen < to.Length && to[..tolen] == Encoded(from[..taken])
      invariant taken > 0 ==> |Encoded(from[..taken - 1])| + 4 < to.Length
      invariant forall j :: tolen < j < to.Length ==> to[j] == old(to[j])
    {
      EncodedNext(from, taken);
      var n := PutByte(to, tolen, from[taken]);
      tolen, taken := tolen + n, taken + 1;
    }
  }

  lemma EncodedNext(s: seq<Byte>, i: nat)
    requires i < |s|
    ensures Encoded(s[..i + 1]) == Encoded(s[..i]) + EncodedByte(s[i])
  {
    assert s[..i + 1][..i] == s[..i];
  }

  /** `strencode` on the characters of a C string: as much of the name as safely fits is encoded; `taken` is
      how much. */
  method StrEncode(to: array<Byte>, from: seq<Byte>) returns (taken: nat)
    requires to.Length > 0 && 0 !in from
    modifies to
    ensures Fits(from, to.Length, taken)
    ensures var code := Encoded(from[..taken]);
            && to[..|code| + 1] == code + [0]
            && forall i :: |code| < i < to.Length ==> to[i] == old(to[i])
  {
    var tolen;
    tolen, taken := EncodeAll(to, from);
    EndString(to, tolen, Encoded(from[..taken]));
  }

  /** What one turn of the decoder writes and how far it moves. */
  function Head(s: seq<Byte>): Byte
    requires s != []
  {
    if StartsEscape(s) then Escaped(s[1], s[2]) else s[0]
  }

  function Width(s: seq<Byte>): nat {
    if StartsEscape(s) then 3 else 1
  }

  lemma DecodedTurn(s: seq<Byte>, i: nat)
    requires i < |s|
    ensures i + Width(s[i..]) <= |s|
    ensures Decoded(s[i..]) == [Head(s[i..])] + Decoded(s[i + Width(s[i..])..])
  {
    assert s[i..][1..] == s[i + 1..];
    if StartsEscape(s[i..]) {
      assert s[i..][3..] == s[i + 3..];
    }
  }

  lemma Turn(done: seq<Byte>, s: seq<Byte>, i: nat)
    requires i < |s|
    ensures |Decoded(s[i..])| > 0
    ensures i + Width(s[i..]) <= |s|
    ensures done + Decoded(s[i..]) == done + [Head(s[i..])] + Decoded(s[i + Width(s[i..])..])
  {
    DecodedTurn(s, i);
    Associate(done, [Head(s[i..])], Decoded(s[i + Width(s[i..])..]));
  }

  /** From position `i` on the array still holds what `s` has there. */
  ghost predicate Unread(from: array<Byte>, s: seq<Byte>, i: nat)
    reads from
  {
    i <= |s| < from.Length && from[|s|] == 0 && (forall k :: i <= k < |s| ==> from[k] == s[k]) && 0 !in s
  }

  /** One turn of the decoder; `to` may be `from`. */
  method DecodeOne(to: array<Byte>, from: array<Byte>, ghost s: seq<Byte>, i: nat, j: nat) returns (width: nat)
    requires Unread(from, s, i) && i < |s| && j <= i && j < to.Length
    modifies to
    ensures width == Width(s[i..]) && i + width <= |s| && Unread(from, s, i + width)
    ensures to[j] == Head(s[i..]) && forall k :: 0 <= k < to.Length && k != j ==> to[k] == old(to[k])
  {
    assert s[i] == from[i] && (i + 1 < |s| ==> s[i + 1] == from[i + 1]) && (i + 2 < |s| ==> s[i + 2] == from[i + 2]);
    if from[i] == PERCENT && IsHex(from[i + 1]) && IsHex(from[i + 2]) {
      assert StartsEscape(s[i..]);
      to[j] := Escaped(from[i + 1], from[i + 2]);
      width := 3;
    } else {
      to[j] := from[i];
      width := 1;
    }
  }

  /** The bytes written and the decoding of what is unread make up the whole. */
  ghost predicate Progress(to: array<Byte>, j: nat, s: seq<Byte>, i: nat, whole: seq<Byte>)
    reads to
  {
    j <= to.Length && i <= |s| && to[..j] + Decoded(s[i..]) == whole
  }

  method DecodeNext(to: array<Byte>, from: array<Byte>, ghost s: seq<Byte>, ghost whole: seq<Byte>, i: nat, j: nat)
    returns (width: nat)
    requires Unread(from, s, i) && i < |s| && j <= i && |whole| < to.Length && Progress(to, j, s, i, whole)
    modifies to
    ensures 0 < width && i + width <= |s| && Unread(from, s, i + width) && Progress(to, j + 1, s, i + width, whole)
    ensures forall k :: j < k < to.Length ==> to[k] == old(to[k])
  {
    Turn(to[..j], s, i);
    ghost var before := to[..j];
    width := DecodeOne(to, from, s, i, j);
    assert to[..j + 1] == before + [Head(s[i..])];
  }

  method DecodeAll(to: array<Byte>, from: array<Byte>, ghost s: seq<Byte>) returns (j: nat)
    requires Holds(from, s)
    requires to == from || |Decoded(s)| < to.Length
    modifies to
    ensures j < to.Length && to[..j] == Decoded(s)
    ensures forall k :: j <= k < to.Length ==> to[k] == old(to[k])
  {
    DecodedLength(s);
    var i: nat := 0;
    j := 0;
    ghost var whole := Decoded(s);
    assert s[0..] == s;
    while from[i] != 0
      invariant Unread(from, s, i) && j <= i && Progress(to, j, s, i, whole)
      invariant forall k :: j <= k < to.Length ==> to[k] == old(to[k])
      decreases |s| - i
    {
      var width := DecodeNext(to, from, s, whole, i, j);
      i, j := i + width, j + 1;
    }
    assert s[i..] == [];
  }

  /** `strdecode`, into another buffer or the one it reads from. */
  method StrDecode(to: array<Byte>, from: array<Byte>, ghost s: seq<Byte>) returns (ghost length: nat)
    requires Holds(from, s)
    requires to == from || |Decoded(s)| < to.Length
    modifies to
    ensures length == |Decoded(s)| < to.Length
    ensures to[..length + 1] == Decoded(s) + [0]
    ensures forall k :: length < k < to.Length ==> to[k] == old(to[k])
  {
    var j := DecodeAll(to, from, s);
    EndString(to, j, Decoded(s));
    length := j;
  }

  /** Encoding a name and decoding the result in place gives the name, or what fitted of it. */
  method EncodeThenDecode(buffer: array<Byte>, name: seq<Byte>) returns (taken: nat)
    requires buffer.Length > 0 && 0 !in name
    modifies buffer
    ensures Fits(name, buffer.Length, taken) && taken < buffer.Length
    ensures buffer[..taken + 1] == name[..taken] + [0]
  {
    taken := StrEncode(buffer, name);
    ghost var code := Encoded(name[..taken]);
    EncodedIsSafe(name[..taken]);
    DecodeEncoded(name[..taken]);
    assert buffer[..|code|] == buffer[..|code| + 1][..|code|] == code;
    assert buffer[|code|] == buffer[..|code| + 1][|code|] == 0;
    ghost var length := StrDecode(buffer, buffer, code);
  }
}
