/** The Base64 context: its tables, the encoder and the decoder, writing into caller-owned buffers. */
module FastdfsBase64Context {
  import opened Common
  import opened FastdfsBase64

  /** The letter for each digit, from the two configurable characters. */
  function Letter(d: Digit, plus: Byte, slash: Byte): Byte {
    if d < 26 then 65 + d else if d < 52 then 97 + (d - 26) else if d < 62 then 48 + (d - 52)
    else if d == 62 then plus else slash
  }

  /** The reverse table of an alphabet: where a letter occurs twice its last digit counts, and the
      pad overrides a letter. */
  predicate IsReverse(values: seq<int>, letters: seq<Byte>, pad: Byte) {
    && |values| == 256 && |letters| == 64
    && values[pad] == PAD
    && forall ch :: 0 <= ch < 256 && ch != pad ==>
         if ch in letters then
           0 <= values[ch] < 64 && letters[values[ch]] == ch && ch !in letters[values[ch] + 1..]
         else values[ch] == IGNORE
  }

  /** No letter twice, pad and separator characters no letters, pad not in the separator. */
  predicate Unambiguous(c: Codec) {
    && (forall i, j :: 0 <= i < j < |c.letters| ==> c.letters[i] != c.letters[j])
    && c.pad !in c.letters
    && forall i :: 0 <= i < |c.separator| ==> c.separator[i] !in c.letters && c.separator[i] != c.pad
  }

  /** Tables built from an alphabet are consistent exactly when the alphabet is unambiguous. */
  lemma ConsistentExactly(c: Codec)
    requires IsReverse(c.values, c.letters, c.pad)
    ensures Consistent(c) <==> Unambiguous(c)
  {
    if Consistent(c) {
      forall i, j | 0 <= i < j < 64
        ensures c.letters[i] != c.letters[j]
      {
        assert c.values[c.letters[i]] == i && c.values[c.letters[j]] == j;
      }
    }
    if Unambiguous(c) {
      forall d | 0 <= d < 64
        ensures c.values[c.letters[d]] == d
      {
        var v := c.values[c.letters[d]];
        assert c.letters[d] in c.letters && c.letters[v] == c.letters[d];
      }
      assert forall i :: 0 <= i < 256 ==> PAD <= c.values[i] < 64;
    }
  }

  class Base64Context {
    var lineSeparator: seq<Byte>
    var lineSepLen: nat
    var lineLength: int
    var padCh: Byte
    const valueToChar: array<Byte>
    const charToValue: array<int>

    ghost predicate Valid()
      reads this, valueToChar, charToValue
    {
      && valueToChar.Length == 64 && charToValue.Length == 256
      && IsReverse(charToValue[..], valueToChar[..], padCh)
      && |lineSeparator| < 16
    }

    /** The recorded length is that of the separator. */
    ghost predicate SeparatorFits()
      reads this
    {
      lineSepLen == |lineSeparator|
    }

    /** The encoder copies as many characters as are recorded: the separator if that fits, and otherwise
        also its terminator and what lies behind the field. */
    ghost predicate Reaches(behind: seq<Byte>)
      reads this
    {
      lineSepLen <= |lineSeparator| + 1 + |behind|
    }

    function Copied(behind: seq<Byte>): seq<Byte>
      requires Reaches(behind)
      reads this
    {
      (lineSeparator + [0] + behind)[..lineSepLen]
    }

    ghost function CodecOver(behind: seq<Byte>): Codec
      requires Reaches(behind)
      reads this, valueToChar, charToValue
    {
      AsCodec().(separator := Copied(behind))
    }

    ghost function AsCodec(): Codec
      reads this, valueToChar, charToValue
    {
      Codec(valueToChar[..], charToValue[..], padCh, lineLength, lineSeparator)
    }

    /** `base64_init_ex`: one separator character, a line feed. */
    constructor InitEx(nLineLength: int, plus: Byte, slash: Byte, pad: Byte)
      ensures Valid() && fresh(valueToChar) && fresh(charToValue)
      ensures lineLength == nLineLength && lineSeparator == [10] && padCh == pad && SeparatorFits()
      ensures forall d :: 0 <= d < 64 ==> valueToChar[d] == Letter(d, plus, slash)
    {
      lineLength, lineSeparator, lineSepLen, padCh := nLineLength, [10], 1, pad;
      valueToChar := new Byte[64](_ => 0);
      charToValue := new int[256](_ => IGNORE);
      new;
      FillLetters(plus, slash);
      FillReverse();
      ghost var before := charToValue[..];
      charToValue[pad] := PAD;
      assert forall ch :: 0 <= ch < 256 && ch != pad ==> charToValue[..][ch] == before[ch];
    }

    /** Capital letters, small letters, digits and the two others. */
    method FillLetters(plus: Byte, slash: Byte)
      requires valueToChar.Length == 64
      modifies valueToChar
      ensures forall d :: 0 <= d < 64 ==> valueToChar[d] == Letter(d, plus, slash)
    {
      for i := 0 to 26
        invariant forall d :: 0 <= d < i ==> valueToChar[d] == 65 + d
      {
        valueToChar[i] := 65 + i;
      }
      for i := 0 to 26
        invariant forall d :: 0 <= d < 26 + i ==> valueToChar[d] == Letter(d, plus, slash)
      {
        valueToChar[i + 26] := 97 + i;
      }
      for i := 0 to 10
        invariant forall d :: 0 <= d < 52 + i ==> valueToChar[d] == Letter(d, plus, slash)
      {
        valueToChar[i + 52] := 48 + i;
      }
      valueToChar[62] := plus;
      valueToChar[63] := slash;
    }

    /** Each letter's digit; a later letter overwrites an earlier one. */
    method FillReverse()
      requires valueToChar.Length == 64 && charToValue.Length == 256
      requires forall ch :: 0 <= ch < 256 ==> charToValue[ch] == IGNORE
      modifies charToValue
      ensures forall ch :: 0 <= ch < 256 ==>
                if ch in valueToChar[..] then
                  && 0 <= charToValue[ch] < 64 && valueToChar[charToValue[ch]] == ch
                  && ch !in valueToChar[..][charToValue[ch] + 1..]
                else charToValue[ch] == IGNORE
    {
      for i := 0 to 64
        invariant forall ch :: 0 <= ch < 256 ==>
                    if ch in valueToChar[..i] then
                      && 0 <= charToValue[ch] < i && valueToChar[charToValue[ch]] == ch
                      && ch !in valueToChar[charToValue[ch] + 1..i]
                    else charToValue[ch] == IGNORE
      {
        charToValue[valueToChar[i]] := i;
        assert valueToChar[..i + 1] == valueToChar[..i] + [valueToChar[i]];
      }
      assert valueToChar[..64] == valueToChar[..];
    }

    /** `base64_set_line_length` rounds toward zero to a multiple of four. */
    method SetLineLength(length: int)
      requires Valid()
      modifies this`lineLength
      ensures Valid() && lineLength % 4 == 0
      ensures length >= 0 ==> lineLength <= length < lineLength + 4
    {
      lineLength := TruncDiv(length, 4) * 4;
    }

    /** `base64_set_line_separator`: the field holds the first fifteen characters, but the length
        recorded is that of the whole separator. */
    method SetLineSeparator(separator: seq<Byte>)
      requires Valid()
      modifies this`lineSeparator, this`lineSepLen
      ensures Valid() && lineSepLen == |separator| && lineSeparator <= separator
      ensures |separator| <= 15 ==> lineSeparator == separator
      ensures SeparatorFits() <==> |separator| <= 15
    {
      lineSeparator := if |separator| < 16 then separator else separator[..15];
      lineSepLen := |separator|;
    }

    ghost predicate Apart(dest: array<Byte>)
      reads this
    {
      dest != valueToChar && dest as object != charToValue
    }

    /** Four letters through the output pointer. */
    method PutLetters(d: seq<Digit>, dest: array<Byte>, at: nat)
      requires Valid() && Apart(dest) && |d| == 4 && at + 4 <= dest.Length
      modifies dest
      ensures dest[..at + 4] == old(dest[..at]) + Letters(old(AsCodec()), d)
    {
      ghost var t := Letters(AsCodec(), d);
      dest[at] := valueToChar[d[0]];
      dest[at + 1] := valueToChar[d[1]];
      dest[at + 2] := valueToChar[d[2]];
      dest[at + 3] := valueToChar[d[3]];
      assert dest[..at + 4] == old(dest[..at]) + [t[0], t[1], t[2], t[3]];
      assert t == [t[0], t[1], t[2], t[3]];
    }

    /** Writes one group: a separator if it starts a new line, then four letters. */
    method PutGroup(a: Byte, b: Byte, c: Byte, dest: array<Byte>, at: nat, linePos: int, behind: seq<Byte>)
      returns (end: nat, pos: int)
      requires Valid() && Reaches(behind) && Apart(dest)
      requires at + |Lead(CodecOver(behind), linePos)| + 4 <= dest.Length
      modifies dest
      ensures end == at + |Lead(old(CodecOver(behind)), linePos)| + 4 && pos == NextPos(old(CodecOver(behind)), linePos)
      ensures var codec := old(CodecOver(behind));
              dest[..end] == old(dest[..at]) + Lead(codec, linePos) + FullGroup(codec, a, b, c)
    {
      ghost var codec := CodecOver(behind);
      pos := linePos + 4;
      end := at;
      if pos > lineLength {
        if lineLength != 0 {
          CopyTo(Copied(behind), dest, at);
          end := end + lineSepLen;
        }
        pos := 4;
      }
      assert dest[..end] == old(dest[..at]) + Lead(codec, linePos);
      assert CodecOver(behind) == codec;
      var d := SplitDigits(a, b, c);
      PutLetters(d, dest, end);
      end := end + 4;
    }

    /** The whole groups of three bytes. */
    method PutGroups(src: seq<Byte>, dest: array<Byte>, behind: seq<Byte>) returns (at: nat, pos: int)
      requires Valid() && Reaches(behind) && Apart(dest)
      requires dest.Length > |Encoded(CodecOver(behind), src, true)|
      modifies dest
      ensures CodecOver(behind) == old(CodecOver(behind))
      ensures var codec := CodecOver(behind);
              at < dest.Length && dest[..at] == Emit(codec, FullGroups(codec, src, |src| / 3), 0)
      ensures pos == PosAfter(CodecOver(behind), |src| / 3, 0)
    {
      ghost var codec := CodecOver(behind);
      at, pos := 0, 0;
      for i := 0 to |src| / 3
        invariant Valid() && Reaches(behind) && CodecOver(behind) == codec
        invariant at < dest.Length && dest[..at] == Emit(codec, FullGroups(codec, src, i), 0)
        invariant pos == PosAfter(codec, i, 0)
      {
        GroupNext(codec, src, i);
        GroupsFit(codec, src, i + 1, |src| / 3);
        at, pos := PutGroup(src[3 * i], src[3 * i + 1], src[3 * i + 2], dest, at, pos, behind);
      }
    }

    /** Terminates the text; the last `missing` letters become pads or go. */
    method EndText(missing: nat, pad: bool, dest: array<Byte>, at: nat) returns (destLen: nat)
      requires missing <= 2 && missing <= at < dest.Length
      modifies dest
      ensures destLen == (if pad then at else at - missing) && dest[destLen] == 0
      ensures dest[..destLen] == old(dest[..at - missing]) + (if pad then Repeat(padCh, missing) else [])
    {
      dest[at] := 0;
      destLen := at;
      if missing == 2 {
        if pad {
          dest[at - 1] := padCh;
          dest[at - 2] := padCh;
        } else {
          dest[at - 2] := 0;
          destLen := destLen - 2;
        }
      } else if missing == 1 {
        if pad {
          dest[at - 1] := padCh;
        } else {
          dest[at - 1] := 0;
          destLen := destLen - 1;
        }
      }
    }

    /** `base64_encode_ex`. The buffer needs room for the padded text and a terminator even when no
        padding is wanted: pads are written as letters first, then overwritten or cut off. `behind` is
        what memory holds behind the separator field. */
    method EncodeEx(src: seq<Byte>, pad: bool, dest: array<Byte>, behind: seq<Byte>) returns (destLen: nat)
      requires Valid() && Reaches(behind) && Apart(dest)
      requires dest.Length > |Encoded(CodecOver(behind), src, true)|
      modifies dest
      ensures CodecOver(behind) == old(CodecOver(behind))
      ensures destLen < dest.Length && dest[destLen] == 0
      ensures dest[..destLen] == Encoded(CodecOver(behind), src, pad)
    {
      ghost var codec := CodecOver(behind);
      if |src| == 0 {
        dest[0] := 0;
        return 0;
      }
      var whole := |src| / 3;
      var leftover := |src| - 3 * whole;
      var at, pos := PutGroups(src, dest, behind);
      if leftover == 0 {
        NothingMissing(codec, src, pad, whole);
        destLen := EndText(0, pad, dest, at);
      } else {
        var second := if leftover == 2 then src[3 * whole + 1] else 0;
        destLen := PutLast(src[3 * whole], second, 3 - leftover, pad, dest, at, pos, behind, src, whole);
      }
    }

    /** One or two bytes at the end, filled up with zeros. */
    method PutLast(first: Byte, second: Byte, missing: nat, pad: bool, dest: array<Byte>, from: nat, linePos: int,
                   behind: seq<Byte>, ghost src: seq<Byte>, ghost whole: nat)
      returns (destLen: nat)
      requires Valid() && Reaches(behind) && Apart(dest)
      requires 1 <= missing <= 2 && |src| + missing == 3 * whole + 3
      requires first == src[3 * whole] && second == if missing == 2 then 0 else src[3 * whole + 1]
      requires dest.Length > |Encoded(CodecOver(behind), src, true)|
      requires var codec := CodecOver(behind);
               from < dest.Length && dest[..from] == Emit(codec, FullGroups(codec, src, whole), 0)
      requires linePos == PosAfter(CodecOver(behind), whole, 0)
      modifies dest
      ensures CodecOver(behind) == old(CodecOver(behind))
      ensures destLen < dest.Length && dest[destLen] == 0
      ensures dest[..destLen] == Encoded(CodecOver(behind), src, pad)
    {
      ghost var codec, text := CodecOver(behind), dest[..from] + Lead(CodecOver(behind), linePos);
      ghost var g := FullGroup(codec, first, second, 0);
      LastGroupFits(codec, src, true, whole, missing);
      assert |text| + 4 < dest.Length;
      var at, _ := PutGroup(first, second, 0, dest, from, linePos, behind);
      assert dest[..at - missing] == dest[..at][..at - missing] == text + g[..4 - missing];
      destLen := EndText(missing, pad, dest, at);
      LastGroupFits(codec, src, pad, whole, missing);
      assert dest[..destLen] == text + LastGroup(codec, first, second, missing, pad);
    }

    /** A complete group of four digits becomes three bytes. */
    method PutBytes(combined: int, dest: array<Byte>, at: nat)
      requires 0 <= combined < 0x100_0000 && at + 3 <= dest.Length
      modifies dest
      ensures dest[..at + 3] == old(dest[..at]) + BytesOf(combined, 3)
    {
      ThreeBytes(combined);
      dest[at] := combined / 0x1_0000;
      dest[at + 1] := combined / 0x100 % 0x100;
      dest[at + 2] := combined % 0x100;
    }

    /** One more digit: completes a group every fourth time. */
    method TakeDigit(value: Digit, cycle: nat, combined: int, dest: array<Byte>, at: nat, ghost d: seq<Digit>,
                     ghost q: nat)
      returns (nextCycle: nat, nextCombined: int, end: nat, ghost next: nat)
      requires at <= dest.Length && Progress(d, q, cycle, combined, dest[..at])
      requires cycle == 3 ==> at + 3 <= dest.Length
      modifies dest
      ensures end <= dest.Length && next == (if cycle == 3 then q + 1 else q)
      ensures Progress(d + [value], next, nextCycle, nextCombined, dest[..end])
    {
      ghost var whole, part := d[..4 * q], d[4 * q..];
      ghost var e := d + [value];
      HeldNext(part, value);
      assert e[..4 * q] == whole && e[4 * q..] == part + [value];
      next, end := q, at;
      if cycle == 0 {
        nextCombined := value;
        nextCycle := 1;
      } else if cycle < 3 {
        nextCombined := combined * 64 + value;
        nextCycle := cycle + 1;
      } else {
        nextCombined := combined * 64 + value;
        ghost var four := part + [value];
        UnpackAppend(whole, q, four);
        assert e[..4 * q + 4] == whole + four;
        HeldBelow(four);
        PutBytes(nextCombined, dest, at);
        end := at + 3;
        nextCycle := 0;
        next := q + 1;
      }
    }

    /** One character: ignored, or a digit, a pad counting as zero. */
    method TakeChar(ch: Byte, cycle: nat, held: int, dest: array<Byte>, at: nat, ghost d: seq<Digit>, ghost q: nat)
      returns (nextCycle: nat, nextHeld: int, end: nat, pads: nat, ghost next: nat)
      requires Valid() && Apart(dest) && Sized(AsCodec())
      requires at <= dest.Length && Progress(d, q, cycle, held, dest[..at])
      requires cycle == 3 && ReadOne(AsCodec(), ch) != [] ==> at + 3 <= dest.Length
      modifies dest
      ensures Valid() && AsCodec() == old(AsCodec())
      ensures pads == IsPad(AsCodec(), ch) && end <= dest.Length
      ensures next == q || (next == q + 1 && end == at + 3)
      ensures Progress(d + ReadOne(AsCodec(), ch), next, nextCycle, nextHeld, dest[..end])
    {
      nextCycle, nextHeld, end, pads, next := cycle, held, at, 0, q;
      var value := charToValue[ch];
      if value == IGNORE {
        assert d + [] == d;
      } else {
        if value == PAD {
          value := 0;
          pads := 1;
        }
        nextCycle, nextHeld, end, next := TakeDigit(value, cycle, held, dest, at, d, q);
      }
    }

    /** The loop over all characters. Returns the position in the group, the end of the output and
        the number of pads. */
    method Scan(src: seq<Byte>, dest: array<Byte>)
      returns (cycle: nat, at: nat, dummies: nat, ghost q: nat, ghost combined: int)
      requires Valid() && Apart(dest) && Sized(AsCodec())
      requires dest.Length > 3 * (|Read(AsCodec(), src)| / 4)
      modifies dest
      ensures AsCodec() == old(AsCodec())
      ensures dummies == PadCount(AsCodec(), src) && at < dest.Length
      ensures Progress(Read(AsCodec(), src), q, cycle, combined, dest[..at])
    {
      ghost var codec := AsCodec();
      var held := 0;
      cycle, at, dummies, q := 0, 0, 0, 0;
      for i := 0 to |src|
        invariant Valid() && AsCodec() == codec
        invariant dummies == PadCount(codec, src[..i])
        invariant at < dest.Length && Progress(Read(codec, src[..i]), q, cycle, held, dest[..at])
      {
        ReadNext(codec, src, i);
        ReadPrefix(codec, src, i + 1);
        RoomFor(q, |Read(codec, src)|);
        var pads;
        cycle, held, at, pads, q := TakeChar(src[i], cycle, held, dest, at, Read(codec, src[..i]), q);
        dummies := dummies + pads;
      }
      assert src[..|src|] == src;
      combined := held;
    }

    /** `base64_decode`. The buffer needs three bytes for every four characters that count, and a
        terminator. A text of the wrong length leaves an empty result. With more pads than bytes the
        length comes out negative: the program puts its terminator that far in front of the buffer, a
        place this model does not have. */
    method Decode(src: seq<Byte>, dest: array<Byte>) returns (destLen: int, ok: bool)
      requires Valid() && Apart(dest) && Sized(AsCodec())
      requires dest.Length > 3 * (|Read(AsCodec(), src)| / 4)
      modifies dest
      ensures AsCodec() == old(AsCodec())
      ensures ok <==> Decoded(AsCodec(), src) != BadLength
      ensures destLen == if ok then 3 * (|Read(AsCodec(), src)| / 4) - PadCount(AsCodec(), src) else 0
      ensures destLen < 0 <==> Decoded(AsCodec(), src) == Overpadded
      ensures destLen >= 0 ==> destLen < dest.Length && dest[destLen] == 0
      ensures ok && destLen >= 0 ==> Decoded(AsCodec(), src) == Bytes(dest[..destLen])
      ensures destLen < 0 ==> dest[..3 * (|Read(AsCodec(), src)| / 4)] == Unpack(Read(AsCodec(), src))
    {
      var cycle, at, dummies, q, held := Scan(src, dest);
      ProgressEnds(Read(AsCodec(), src), q, cycle, held, dest[..at]);
      if cycle != 0 {
        dest[0] := 0;
        return 0, false;
      }
      UnpackLength(Read(AsCodec(), src));
      ghost var all := dest[..at];
      destLen, ok := at as int - dummies, true;
      if destLen >= 0 {
        assert dest[..destLen] == all[..|all| - dummies];
        dest[destLen] := 0;
      }
    }

    /** `base64_decode_auto`: pads up the text in a buffer of its own; `granted` tells whether one
        could be had for a text of more than 256 characters. */
    method DecodeAuto(src: seq<Byte>, dest: array<Byte>, granted: bool) returns (destLen: int, ok: bool)
      requires Valid() && Apart(dest) && Sized(AsCodec())
      requires dest.Length > 3 * (|Read(AsCodec(), AutoPadded(AsCodec(), src))| / 4)
      modifies dest
      ensures AsCodec() == old(AsCodec())
      ensures ok <==> Decoded(AsCodec(), AutoPadded(AsCodec(), src)) != BadLength
                      && (granted || |src| % 4 == 0 || |AutoPadded(AsCodec(), src)| <= 256)
      ensures var text := AutoPadded(AsCodec(), src);
              destLen == if ok then 3 * (|Read(AsCodec(), text)| / 4) - PadCount(AsCodec(), text) else 0
      ensures destLen < 0 <==> ok && Decoded(AsCodec(), AutoPadded(AsCodec(), src)) == Overpadded
      ensures destLen >= 0 ==> destLen < dest.Length && dest[destLen] == 0
      ensures ok && destLen >= 0 ==> Decoded(AsCodec(), AutoPadded(AsCodec(), src)) == Bytes(dest[..destLen])
    {
      var remain := |src| % 4;
      if remain == 0 {
        assert AutoPadded(AsCodec(), src) == src;
        destLen, ok := Decode(src, dest);
        return;
      }
      var padLen := 4 - remain;
      if |src| + padLen > 256 && !granted {
        dest[0] := 0;
        return 0, false;
      }
      destLen, ok := Decode(src + Repeat(padCh, padLen), dest);
    }

    /** `base64_get_encode_length`: the length of every padded encoding of that many bytes. */
    method GetEncodeLength(srcLen: nat) returns (length: int)
      requires Valid()
      ensures forall behind: seq<Byte> :: Reaches(behind) ==> length == EncodeLength(CodecOver(behind), srcLen)
      ensures SeparatorFits() ==> length == EncodeLength(AsCodec(), srcLen)
      ensures SeparatorFits() && (lineLength == 0 || LegalLength(lineLength)) ==>
                forall src: seq<Byte> :: |src| == srcLen ==> |Encoded(AsCodec(), src, true)| == length
    {
      assert SeparatorFits() ==> Copied([]) == lineSeparator && CodecOver([]) == AsCodec();
      if lineLength == 0 || LegalLength(lineLength) {
        forall src: seq<Byte> | |src| == srcLen {
          EncodeLengthExact(AsCodec(), src);
        }
      }
      length := (srcLen + 2) / 3 * 4;
      if lineLength != 0 {
        var lines := TruncDiv(length + lineLength - 1, lineLength) - 1;
        if lines > 0 {
          length := length + lines * lineSepLen;
        }
      }
    }
  }

  /** A buffer of the announced length takes the encoding with its terminator. */
  method EncodeNew(context: Base64Context, src: seq<Byte>) returns (text: array<Byte>, textLen: nat)
    requires context.Valid() && context.SeparatorFits()
    requires context.lineLength == 0 || LegalLength(context.lineLength)
    ensures textLen <= text.Length && text[..textLen] == Encoded(context.AsCodec(), src, true)
  {
    ghost var codec := context.AsCodec();
    EncodeLengthExact(codec, src);
    var length := context.GetEncodeLength(|src|);
    text := new Byte[length + 1](_ => 0);
    assert context.Copied([]) == context.lineSeparator;
    assert context.CodecOver([]) == codec;
    textLen := context.EncodeEx(src, true, text, []);
  }

  /** Decoding it gives the message back: for every message, every unambiguous alphabet, pad and separator,
      and every legal line length. */
  method RoundTrip(context: Base64Context, src: seq<Byte>) returns (out: array<Byte>, outLen: nat)
    requires context.Valid() && context.SeparatorFits() && Unambiguous(context.AsCodec())
    requires context.lineLength == 0 || LegalLength(context.lineLength)
    ensures outLen <= out.Length && out[..outLen] == src
  {
    ghost var codec := context.AsCodec();
    ConsistentExactly(codec);
    DecodeEncoded(codec, src);
    var text, textLen := EncodeNew(context, src);
    ReadNotLonger(codec, text[..textLen]);
    out := new Byte[textLen + 1](_ => 0);
    var n, ok := context.Decode(text[..textLen], out);
    outLen := n;
  }

  /** The decoder's state after reading the digits `d`: `output` holds the complete groups, the
      `cycle` digits after them are held in `combined`. */
  predicate Progress(d: seq<Digit>, q: nat, cycle: nat, combined: int, output: seq<Byte>) {
    && cycle < 4 && |d| == 4 * q + cycle
    && output == Unpack(d[..4 * q]) && |output| == 3 * q
    && (cycle > 0 ==> combined == Held(d[4 * q..]))
  }

  lemma ProgressEnds(d: seq<Digit>, q: nat, cycle: nat, combined: int, output: seq<Byte>)
    requires Progress(d, q, cycle, combined, output)
    ensures cycle == |d| % 4 && (cycle == 0 ==> output == Unpack(d))
  {
    RemainderOf(q, cycle);
    if cycle == 0 {
      assert d[..4 * q] == d;
    }
  }

  lemma RemainderOf(q: int, r: int)
    requires 0 <= r < 4
    ensures (4 * q + r) % 4 == r
  {
  }

  lemma RoomFor(q: nat, total: nat)
    ensures 4 * q + 4 <= total ==> 3 * q + 3 <= 3 * (total / 4)
  {
  }

  /** The four digits, peeled off from the low end. */
  method SplitDigits(a: Byte, b: Byte, c: Byte) returns (d: seq<Digit>)
    ensures d == Quad(a, b, c)
  {
    var combined := Combine(a, b, c);
    FourDigits(combined);
    var c3 := combined % 64;
    combined := combined / 64;
    var c2 := combined % 64;
    combined := combined / 64;
    var c1 := combined % 64;
    combined := combined / 64;
    var c0 := combined % 64;
    d := [c0, c1, c2, c3];
  }

  /** `memcpy` into a buffer. */
  method CopyTo(bytes: seq<Byte>, dest: array<Byte>, at: nat)
    requires at + |bytes| <= dest.Length
    modifies dest
    ensures dest[..at + |bytes|] == old(dest[..at]) + bytes
  {
    for i := 0 to |bytes|
      invariant dest[..at + i] == old(dest[..at]) + bytes[..i]
    {
      dest[at + i] := bytes[i];
      assert dest[..at + i + 1] == dest[..at + i] + [bytes[i]];
    }
  }

  lemma LetterInRuns(d: Digit, plus: Byte, slash: Byte, upper: string, lower: string, decimals: string)
    requires IsRun(upper, 0x41, 26) && IsRun(lower, 0x61, 26) && IsRun(decimals, 0x30, 10)
    ensures Letter(d, plus, slash) == if d < 62 then (upper + lower + decimals)[d] as int else [plus, slash][d - 62]
  {
  }

  /** The alphabet of section 4 of RFC 4648, with the two configurable characters last. */
  lemma LetterExactly(d: Digit, plus: Byte, slash: Byte)
    ensures Letter(d, plus, slash) == if d < 62 then (UPPER + LOWER + DECIMALS)[d] as int else [plus, slash][d - 62]
  {
    UpperIsRun();
    LowerIsRun();
    DecimalsAreRun();
    LetterInRuns(d, plus, slash, UPPER, LOWER, DECIMALS);
  }
}
