/** Bob Jenkins's hash as memcached uses it. Words are numbers below 2^32 with wrap-around; masking the
    low bits of a word is taking a remainder. Each reading path works on memory, the definition of the
    hash only on the key. */
module MemcachedJenkins {
  import opened Common
  import opened Words

  datatype Abc = Abc(a: Word, b: Word, c: Word)

  // ---------------------------------------------------------------------------------------
  // Mixing
  // ---------------------------------------------------------------------------------------

  function Rot4(x: Word): Word { Rot(x, 0x10, 0x1000_0000) }
  function Rot6(x: Word): Word { Rot(x, 0x40, 0x400_0000) }
  function Rot8(x: Word): Word { Rot(x, 0x100, 0x100_0000) }
  function Rot11(x: Word): Word { Rot(x, 0x800, 0x20_0000) }
  function Rot14(x: Word): Word { Rot(x, 0x4000, 0x4_0000) }
  function Rot16(x: Word): Word { Rot(x, 0x1_0000, 0x1_0000) }
  function Rot19(x: Word): Word { Rot(x, 0x8_0000, 0x2000) }
  function Rot24(x: Word): Word { Rot(x, 0x100_0000, 0x100) }
  function Rot25(x: Word): Word { Rot(x, 0x200_0000, 0x80) }

  function Negated(y: int): int { -y }

  function Minus(x: Word, y: int): Word { Plus(x, Negated(y)) }

  lemma PlusMinus(x: Word, y: int)
    ensures Minus(Plus(x, y), y) == x && Plus(Minus(x, y), y) == x
  {
    PlusInverse(x, y, Negated(y));
    PlusInverse(x, Negated(y), y);
  }

  /** The three lanes of one line of `mix`: `x -= z; x ^= r; z += y`, where `r` is a rotation of the
      old `z`. */
  function Stir(x: Word, y: Word, z: Word, r: Word): (Word, Word) {
    (Xor32(Minus(x, z), r), Plus(z, y))
  }

  function Mix(s: Abc): Abc {
    var (a1, c1) := Stir(s.a, s.b, s.c, Rot4(s.c));
    var (b1, a2) := Stir(s.b, c1, a1, Rot6(a1));
    var (c2, b2) := Stir(c1, a2, b1, Rot8(b1));
    var (a3, c3) := Stir(a2, b2, c2, Rot16(c2));
    var (b3, a4) := Stir(b2, c3, a3, Rot19(a3));
    var (c4, b4) := Stir(c3, a4, b3, Rot4(b3));
    Abc(a4, b4, c4)
  }

  /** Undoes a line: the old `z` first, then the old `x`. */
  function UnstirZ(z': Word, y: Word): Word {
    Minus(z', y)
  }

  function UnstirX(x': Word, z: Word, r: Word): Word {
    Plus(Xor32(x', r), z)
  }

  function Unmix(t: Abc): Abc {
    var b3 := UnstirZ(t.b, t.a);
    var c3 := UnstirX(t.c, b3, Rot4(b3));
    var a3 := UnstirZ(t.a, c3);
    var b2 := UnstirX(b3, a3, Rot19(a3));
    var c2 := UnstirZ(c3, b2);
    var a2 := UnstirX(a3, c2, Rot16(c2));
    var b1 := UnstirZ(b2, a2);
    var c1 := UnstirX(c2, b1, Rot8(b1));
    var a1 := UnstirZ(a2, c1);
    var b0 := UnstirX(b1, a1, Rot6(a1));
    var c0 := UnstirZ(c1, b0);
    var a0 := UnstirX(a1, c0, Rot4(c0));
    Abc(a0, b0, c0)
  }

  lemma StirInverse(x: Word, y: Word, z: Word, r: Word)
    ensures UnstirZ(Stir(x, y, z, r).1, y) == z
    ensures UnstirX(Stir(x, y, z, r).0, z, r) == x
  {
    PlusMinus(z, y);
    PlusMinus(x, z);
    XorCancels(Minus(x, z), r);
  }

  lemma UnstirInverse(x': Word, y: Word, z': Word, z: Word, r: Word)
    requires z == UnstirZ(z', y)
    ensures Stir(UnstirX(x', z, r), y, z, r) == (x', z')
  {
    PlusMinus(z', y);
    PlusMinus(Xor32(x', r), z);
    XorCancels(x', r);
  }

  /** `mix` loses nothing: every triple comes from exactly one triple. */
  lemma MixBijective(s: Abc)
    ensures Unmix(Mix(s)) == s && Mix(Unmix(s)) == s
  {
    MixUnmix(s);
    UnmixMix(s);
  }

  lemma MixUnmix(s: Abc)
    ensures Unmix(Mix(s)) == s
  {
    var (a1, c1) := Stir(s.a, s.b, s.c, Rot4(s.c));
    StirInverse(s.a, s.b, s.c, Rot4(s.c));
    var (b1, a2) := Stir(s.b, c1, a1, Rot6(a1));
    StirInverse(s.b, c1, a1, Rot6(a1));
    var (c2, b2) := Stir(c1, a2, b1, Rot8(b1));
    StirInverse(c1, a2, b1, Rot8(b1));
    var (a3, c3) := Stir(a2, b2, c2, Rot16(c2));
    StirInverse(a2, b2, c2, Rot16(c2));
    var (b3, a4) := Stir(b2, c3, a3, Rot19(a3));
    StirInverse(b2, c3, a3, Rot19(a3));
    StirInverse(c3, a4, b3, Rot4(b3));
  }

  lemma UnmixMix(t: Abc)
    ensures Mix(Unmix(t)) == t
  {
    var b3 := UnstirZ(t.b, t.a);
    UnstirInverse(t.c, t.a, t.b, b3, Rot4(b3));
    var c3 := UnstirX(t.c, b3, Rot4(b3));
    var a3 := UnstirZ(t.a, c3);
    UnstirInverse(b3, c3, t.a, a3, Rot19(a3));
    var b2 := UnstirX(b3, a3, Rot19(a3));
    var c2 := UnstirZ(c3, b2);
    UnstirInverse(a3, b2, c3, c2, Rot16(c2));
    var a2 := UnstirX(a3, c2, Rot16(c2));
    var b1 := UnstirZ(b2, a2);
    UnstirInverse(c2, a2, b2, b1, Rot8(b1));
    var c1 := UnstirX(c2, b1, Rot8(b1));
    var a1 := UnstirZ(a2, c1);
    UnstirInverse(b1, c1, a2, a1, Rot6(a1));
    var b0 := UnstirX(b1, a1, Rot6(a1));
    var c0 := UnstirZ(c1, b0);
    UnstirInverse(a1, b0, c1, c0, Rot4(c0));
  }

  /** `x ^= y; x -= r`, where `r` is a rotation of `y`. */
  function Fold(x: Word, y: Word, r: Word): Word {
    Minus(Xor32(x, y), r)
  }

  function Unfold(x': Word, y: Word, r: Word): Word {
    Xor32(Plus(x', r), y)
  }

  lemma FoldInverse(x: Word, y: Word, r: Word)
    ensures Unfold(Fold(x, y, r), y, r) == x && Fold(Unfold(x, y, r), y, r) == x
  {
    PlusMinus(Xor32(x, y), r);
    XorCancels(x, y);
    XorCancels(Plus(x, r), y);
    PlusMinus(x, r);
  }

  function Final(s: Abc): Abc {
    var c1 := Fold(s.c, s.b, Rot14(s.b));
    var a1 := Fold(s.a, c1, Rot11(c1));
    var b1 := Fold(s.b, a1, Rot25(a1));
    var c2 := Fold(c1, b1, Rot16(b1));
    var a2 := Fold(a1, c2, Rot4(c2));
    var b2 := Fold(b1, a2, Rot14(a2));
    var c3 := Fold(c2, b2, Rot24(b2));
    Abc(a2, b2, c3)
  }

  function Unfinal(t: Abc): Abc {
    var c2 := Unfold(t.c, t.b, Rot24(t.b));
    var b1 := Unfold(t.b, t.a, Rot14(t.a));
    var a1 := Unfold(t.a, c2, Rot4(c2));
    var c1 := Unfold(c2, b1, Rot16(b1));
    var b0 := Unfold(b1, a1, Rot25(a1));
    var a0 := Unfold(a1, c1, Rot11(c1));
    var c0 := Unfold(c1, b0, Rot14(b0));
    Abc(a0, b0, c0)
  }

  /** `final` loses nothing either, before all but `c` is thrown away. */
  lemma FinalBijective(s: Abc)
    ensures Unfinal(Final(s)) == s && Final(Unfinal(s)) == s
  {
    FinalUnfinal(s);
    UnfinalFinal(s);
  }

  lemma FinalUnfinal(s: Abc)
    ensures Unfinal(Final(s)) == s
  {
    var c1 := Fold(s.c, s.b, Rot14(s.b));
    FoldInverse(s.c, s.b, Rot14(s.b));
    var a1 := Fold(s.a, c1, Rot11(c1));
    FoldInverse(s.a, c1, Rot11(c1));
    var b1 := Fold(s.b, a1, Rot25(a1));
    FoldInverse(s.b, a1, Rot25(a1));
    var c2 := Fold(c1, b1, Rot16(b1));
    FoldInverse(c1, b1, Rot16(b1));
    var a2 := Fold(a1, c2, Rot4(c2));
    FoldInverse(a1, c2, Rot4(c2));
    var b2 := Fold(b1, a2, Rot14(a2));
    FoldInverse(b1, a2, Rot14(a2));
    FoldInverse(c2, b2, Rot24(b2));
  }

  lemma UnfinalFinal(t: Abc)
    ensures Final(Unfinal(t)) == t
  {
    FoldInverse(t.c, t.b, Rot24(t.b));
    var c2 := Unfold(t.c, t.b, Rot24(t.b));
    FoldInverse(t.b, t.a, Rot14(t.a));
    var b1 := Unfold(t.b, t.a, Rot14(t.a));
    FoldInverse(t.a, c2, Rot4(c2));
    var a1 := Unfold(t.a, c2, Rot4(c2));
    FoldInverse(c2, b1, Rot16(b1));
    var c1 := Unfold(c2, b1, Rot16(b1));
    FoldInverse(b1, a1, Rot25(a1));
    var b0 := Unfold(b1, a1, Rot25(a1));
    FoldInverse(a1, c1, Rot11(c1));
    FoldInverse(c1, b0, Rot14(b0));
  }

  // ---------------------------------------------------------------------------------------
  // Both mixes as rounds of one shape
  // ---------------------------------------------------------------------------------------

  /** The amounts by which `mix` and `final` turn words, in order. */
  const MIX_TURNS: seq<nat> := [4, 6, 8, 16, 19, 4]
  const FINAL_TURNS: seq<nat> := [14, 11, 25, 16, 4, 14, 24]

  /** A word turned left by `k` bits. */
  ghost predicate IsTurned(x: Word, k: nat, y: Word) {
    k <= 32 && y == x * Pow2(k) % TWO_32 + x / Pow2(32 - k)
  }

  lemma TurnedBy(x: Word)
    ensures IsTurned(x, 4, Rot4(x)) && IsTurned(x, 6, Rot6(x)) && IsTurned(x, 8, Rot8(x))
    ensures IsTurned(x, 11, Rot11(x)) && IsTurned(x, 14, Rot14(x)) && IsTurned(x, 16, Rot16(x))
    ensures IsTurned(x, 19, Rot19(x)) && IsTurned(x, 24, Rot24(x)) && IsTurned(x, 25, Rot25(x))
  {
    assert Pow2(4) == 0x10 && Pow2(6) == 0x40 && Pow2(8) == 0x100 && Pow2(7) == 0x80;
    assert Pow2(11) == 0x800 && Pow2(13) == 0x2000 && Pow2(14) == 0x4000 && Pow2(16) == 0x1_0000;
    assert Pow2(18) == 0x4_0000 && Pow2(19) == 0x8_0000 && Pow2(21) == 0x20_0000 && Pow2(24) == 0x100_0000;
    assert Pow2(25) == 0x200_0000 && Pow2(26) == 0x400_0000 && Pow2(28) == 0x1000_0000;
  }

  /** A round takes one triple to the next and turns a word by a given amount. */
  type Round = (Abc, nat, Abc) -> bool

  /** `c` and a turned `c` go into `a`, then `b` into `c`; the lanes then change places. */
  ghost predicate IsMixRound(s: Abc, k: nat, t: Abc) {
    exists r: Word ::
      && IsTurned(s.c, k, r)
      && t == Abc(s.b, (s.c + s.b) % TWO_32, Xor32((s.a - s.c) % TWO_32, r))
  }

  /** `b` and then a turned `b` go into `a`; the lanes then change places. */
  ghost predicate IsFinalRound(s: Abc, k: nat, t: Abc) {
    exists r: Word ::
      && IsTurned(s.b, k, r)
      && t == Abc(s.c, (Xor32(s.a, s.b) - r) % TWO_32, s.b)
  }

  ghost predicate AreRounds(round: Round, turns: seq<nat>, ts: seq<Abc>) {
    |ts| == |turns| + 1 && forall i :: 0 <= i < |turns| ==> round(ts[i], turns[i], ts[i + 1])
  }

  lemma StirIsRound(s: Abc, k: nat, r: Word)
    requires IsTurned(s.c, k, r)
    ensures var (x, z) := Stir(s.a, s.b, s.c, r); IsMixRound(s, k, Abc(s.b, z, x))
  {
  }

  lemma FoldIsRound(s: Abc, k: nat, r: Word)
    requires IsTurned(s.b, k, r)
    ensures IsFinalRound(s, k, Abc(s.c, Fold(s.a, s.b, r), s.b))
  {
  }

  type Turn = Word -> Word

  /** Every line of `mix` with this rotation is such a round. */
  ghost predicate StirsBy(round: Round, k: nat, turn: Turn) {
    forall s :: StirsAt(round, k, turn, s)
  }

  predicate StirsAt(round: Round, k: nat, turn: Turn, s: Abc) {
    var (x, z) := Stir(s.a, s.b, s.c, turn(s.c));
    round(s, k, Abc(s.b, z, x))
  }

  ghost predicate FoldsBy(round: Round, k: nat, turn: Turn) {
    forall s :: FoldsAt(round, k, turn, s)
  }

  predicate FoldsAt(round: Round, k: nat, turn: Turn, s: Abc) {
    round(s, k, Abc(s.c, Fold(s.a, s.b, turn(s.b)), s.b))
  }

  lemma MixOver(round: Round, s: Abc)
    requires StirsBy(round, 4, Rot4) && StirsBy(round, 6, Rot6) && StirsBy(round, 8, Rot8)
    requires StirsBy(round, 16, Rot16) && StirsBy(round, 19, Rot19)
    ensures exists ts: seq<Abc> :: AreRounds(round, MIX_TURNS, ts) && ts[0] == s && ts[6] == Mix(s)
  {
    var (a1, c1) := Stir(s.a, s.b, s.c, Rot4(s.c));
    var (b1, a2) := Stir(s.b, c1, a1, Rot6(a1));
    var (c2, b2) := Stir(c1, a2, b1, Rot8(b1));
    var (a3, c3) := Stir(a2, b2, c2, Rot16(c2));
    var (b3, a4) := Stir(b2, c3, a3, Rot19(a3));
    var (c4, b4) := Stir(c3, a4, b3, Rot4(b3));
    assert StirsAt(round, 4, Rot4, s);
    assert StirsAt(round, 6, Rot6, Abc(s.b, c1, a1));
    assert StirsAt(round, 8, Rot8, Abc(c1, a2, b1));
    assert StirsAt(round, 16, Rot16, Abc(a2, b2, c2));
    assert StirsAt(round, 19, Rot19, Abc(b2, c3, a3));
    assert StirsAt(round, 4, Rot4, Abc(c3, a4, b3));
    assert AreRounds(round, MIX_TURNS, [s, Abc(s.b, c1, a1), Abc(c1, a2, b1), Abc(a2, b2, c2), Abc(b2, c3, a3),
                                        Abc(c3, a4, b3), Abc(a4, b4, c4)]);
  }

  lemma FinalOver(round: Round, s: Abc)
    requires FoldsBy(round, 4, Rot4) && FoldsBy(round, 11, Rot11) && FoldsBy(round, 14, Rot14)
    requires FoldsBy(round, 16, Rot16) && FoldsBy(round, 24, Rot24) && FoldsBy(round, 25, Rot25)
    ensures exists ts: seq<Abc> ::
              && AreRounds(round, FINAL_TURNS, ts)
              && ts[0] == Abc(s.c, s.b, s.a)
              && ts[7] == Abc(Final(s).a, Final(s).c, Final(s).b)
  {
    var c1 := Fold(s.c, s.b, Rot14(s.b));
    var a1 := Fold(s.a, c1, Rot11(c1));
    var b1 := Fold(s.b, a1, Rot25(a1));
    var c2 := Fold(c1, b1, Rot16(b1));
    var a2 := Fold(a1, c2, Rot4(c2));
    var b2 := Fold(b1, a2, Rot14(a2));
    var c3 := Fold(c2, b2, Rot24(b2));
    assert FoldsAt(round, 14, Rot14, Abc(s.c, s.b, s.a));
    assert FoldsAt(round, 11, Rot11, Abc(s.a, c1, s.b));
    assert FoldsAt(round, 25, Rot25, Abc(s.b, a1, c1));
    assert FoldsAt(round, 16, Rot16, Abc(c1, b1, a1));
    assert FoldsAt(round, 4, Rot4, Abc(a1, c2, b1));
    assert FoldsAt(round, 14, Rot14, Abc(b1, a2, c2));
    assert FoldsAt(round, 24, Rot24, Abc(c2, b2, a2));
    assert AreRounds(round, FINAL_TURNS, [Abc(s.c, s.b, s.a), Abc(s.a, c1, s.b), Abc(s.b, a1, c1), Abc(c1, b1, a1),
                                          Abc(a1, c2, b1), Abc(b1, a2, c2), Abc(c2, b2, a2), Abc(a2, c3, b2)]);
  }

  lemma StirsAreRounds(k: nat, turn: Turn)
    requires forall x :: IsTurned(x, k, turn(x))
    ensures StirsBy(IsMixRound, k, turn)
  {
    forall s
      ensures StirsAt(IsMixRound, k, turn, s)
    {
      StirIsRound(s, k, turn(s.c));
    }
  }

  lemma FoldsAreRounds(k: nat, turn: Turn)
    requires forall x :: IsTurned(x, k, turn(x))
    ensures FoldsBy(IsFinalRound, k, turn)
  {
    forall s
      ensures FoldsAt(IsFinalRound, k, turn, s)
    {
      FoldIsRound(s, k, turn(s.b));
    }
  }

  /** `mix` is six rounds of one shape, which turn by the amounts of its list. */
  lemma MixIsRounds(s: Abc)
    ensures exists ts: seq<Abc> :: AreRounds(IsMixRound, MIX_TURNS, ts) && ts[0] == s && ts[6] == Mix(s)
  {
    forall x { TurnedBy(x); }
    StirsAreRounds(4, Rot4);
    StirsAreRounds(6, Rot6);
    StirsAreRounds(8, Rot8);
    StirsAreRounds(16, Rot16);
    StirsAreRounds(19, Rot19);
    MixOver(IsMixRound, s);
  }

  /** `final` is seven rounds of one shape on the lanes `c`, `b`, `a`. */
  lemma FinalIsRounds(s: Abc)
    ensures exists ts: seq<Abc> ::
              && AreRounds(IsFinalRound, FINAL_TURNS, ts)
              && ts[0] == Abc(s.c, s.b, s.a)
              && ts[7] == Abc(Final(s).a, Final(s).c, Final(s).b)
  {
    forall x { TurnedBy(x); }
    FoldsAreRounds(4, Rot4);
    FoldsAreRounds(11, Rot11);
    FoldsAreRounds(14, Rot14);
    FoldsAreRounds(16, Rot16);
    FoldsAreRounds(24, Rot24);
    FoldsAreRounds(25, Rot25);
    FinalOver(IsFinalRound, s);
  }
}
