/** 32-bit words as integers: exclusive or, shifts, rotations and products modulo 2^32. */
module Words {
  import opened Arithmetic
  import opened Common

  function Pow2(n: nat): (p: int)
    ensures p >= 1
  {
    if n == 0 then 1 else 2 * Pow2(n - 1)
  }

  /** Exclusive or, bit by bit. */
  function Xor(a: nat, b: nat): nat
    decreases a + b
  {
    if a == 0 && b == 0 then 0 else (if a % 2 == b % 2 then 0 else 1) + 2 * Xor(a / 2, b / 2)
  }

  lemma {:induction false} XorBelow(a: nat, b: nat, n: nat)
    requires a < Pow2(n) && b < Pow2(n)
    ensures Xor(a, b) < Pow2(n)
    decreases n
  {
    if a != 0 || b != 0 {
      XorBelow(a / 2, b / 2, n - 1);
    }
  }

  lemma Pow2Is32()
    ensures Pow2(32) == TWO_32
  {
    assert Pow2(8) == 0x100;
    assert Pow2(16) == 0x1_0000;
    assert Pow2(24) == 0x100_0000;
  }

  lemma XorZero(a: nat)
    ensures Xor(a, 0) == a && Xor(0, a) == a
    decreases a
  {
    if a != 0 {
      XorZero(a / 2);
    }
  }

  lemma {:induction false} XorCommutes(a: nat, b: nat)
    ensures Xor(a, b) == Xor(b, a)
    decreases a + b
  {
    if a != 0 || b != 0 {
      XorCommutes(a / 2, b / 2);
    }
  }

  lemma Halves(x: int, p: int, y: int)
    requires x == p + 2 * y && 0 <= p < 2
    ensures x % 2 == p && x / 2 == y
  {
  }

  predicate Odd(x: int) { x % 2 == 1 }

  /** The lowest bit and the rest of an exclusive or. */
  lemma XorParts(a: nat, b: nat)
    ensures (Odd(Xor(a, b)) <==> Odd(a) != Odd(b)) && Xor(a, b) / 2 == Xor(a / 2, b / 2)
  {
    if a != 0 || b != 0 {
      Halves(Xor(a, b), if a % 2 == b % 2 then 0 else 1, Xor(a / 2, b / 2));
    }
  }

  lemma SameParts(x: nat, y: nat)
    requires (Odd(x) <==> Odd(y)) && x / 2 == y / 2
    ensures x == y
  {
  }

  lemma {:induction false} XorAssociates(a: nat, b: nat, c: nat)
    ensures Xor(Xor(a, b), c) == Xor(a, Xor(b, c))
    decreases a + b + c
  {
    if a == 0 {
      XorZero(b);
      XorZero(Xor(b, c));
    } else {
      XorAssociates(a / 2, b / 2, c / 2);
      XorParts(a, b);
      XorParts(b, c);
      XorParts(Xor(a, b), c);
      XorParts(a, Xor(b, c));
      SameParts(Xor(Xor(a, b), c), Xor(a, Xor(b, c)));
    }
  }

  lemma {:induction false} XorSelf(a: nat)
    ensures Xor(a, a) == 0
    decreases a
  {
    if a != 0 {
      XorSelf(a / 2);
    }
  }

  lemma XorCancels(a: nat, b: nat)
    ensures Xor(Xor(a, b), b) == a
  {
    XorAssociates(a, b, b);
    XorSelf(b);
    XorZero(a);
  }

  /** Numbers that share no bit: their exclusive or is their sum. */
  lemma {:induction false} XorDisjoint(a: nat, b: nat, n: nat)
    requires b < Pow2(n)
    ensures Xor(a * Pow2(n), b) == a * Pow2(n) + b
    decreases n
  {
    if n == 0 {
      XorZero(a);
    } else {
      var high := a * Pow2(n - 1);
      NonNegative(a, Pow2(n - 1));
      Reassociate(a, 2, Pow2(n - 1));
      assert a * Pow2(n) == 2 * high;
      XorDisjoint(a, b / 2, n - 1);
      Halves(2 * high, 0, high);
      XorParts(2 * high, b);
      Halves(2 * high + b, b % 2, high + b / 2);
      SameParts(Xor(2 * high, b), 2 * high + b);
    }
  }

  /** Exclusive or of two words. */
  function Xor32(a: Word, b: Word): Word {
    Pow2Is32();
    XorBelow(a, b, 32);
    Xor(a, b)
  }

  /** A right shift. */
  function Shr(x: nat, n: nat): nat {
    if n == 0 then x else Shr(x / 2, n - 1)
  }

  lemma {:induction false} ShrBelow(x: nat, n: nat, m: nat)
    requires x < Pow2(n + m)
    ensures Shr(x, n) < Pow2(m)
    decreases n
  {
    if n > 0 {
      ShrBelow(x / 2, n - 1, m);
    }
  }

  lemma {:induction false} ShrXor(a: nat, b: nat, n: nat)
    ensures Shr(Xor(a, b), n) == Xor(Shr(a, n), Shr(b, n))
    decreases n
  {
    if n > 0 {
      XorParts(a, b);
      ShrXor(a / 2, b / 2, n - 1);
    }
  }

  lemma {:induction false} ShrShr(x: nat, n: nat, m: nat)
    ensures Shr(Shr(x, n), m) == Shr(x, n + m)
    decreases n
  {
    if n > 0 {
      ShrShr(x / 2, n - 1, m);
    }
  }

  lemma {:induction false} ShrNotAbove(x: nat, n: nat)
    ensures Shr(x, n) <= x
    decreases n
  {
    if n > 0 {
      ShrNotAbove(x / 2, n - 1);
    }
  }

  lemma ShrOut(x: Word, n: nat)
    requires n >= 32
    ensures Shr(x, n) == 0
  {
    Pow2Is32();
    ShrShr(x, 32, n - 32);
    ShrBelow(x, 32, 0);
    ShrNotAbove(Shr(x, 32), n - 32);
  }

  /** `x ^ (x >> n)`. */
  function XorShift(x: Word, n: nat): Word {
    ShrNotAbove(x, n);
    Xor32(x, Shr(x, n))
  }

  /** `x ^ (x >> n) ^ (x >> 2n)`. */
  function XorShift2(x: Word, n: nat): Word {
    ShrNotAbove(x, 2 * n);
    Xor32(XorShift(x, n), Shr(x, 2 * n))
  }

  /** A shift by at least half the width is undone by itself. */
  lemma XorShiftSelfInverse(x: Word, n: nat)
    requires n >= 16
    ensures XorShift(XorShift(x, n), n) == x
  {
    var s := Shr(x, n);
    ShrXor(x, s, n);
    ShrShr(x, n, n);
    ShrOut(x, 2 * n);
    XorZero(s);
    XorCancels(x, s);
  }

  lemma XorTwice(x: nat, s: nat, t: nat)
    ensures Xor(Xor(Xor(x, s), Xor(s, t)), t) == x
    ensures Xor(Xor(Xor(x, s), t), Xor(s, t)) == x
  {
    XorAssociates(Xor(x, s), s, t);
    XorCancels(x, s);
    XorCancels(x, t);
    XorCommutes(s, t);
    XorAssociates(Xor(Xor(x, s), t), t, s);
    XorCancels(Xor(x, s), t);
  }

  /** A shift by at least a third of the width is undone by two. */
  lemma XorShiftInverse(x: Word, n: nat)
    requires n >= 11
    ensures XorShift2(XorShift(x, n), n) == x
    ensures XorShift(XorShift2(x, n), n) == x
  {
    var s, t := Shr(x, n), Shr(x, 2 * n);
    ShrShr(x, n, n);
    ShrShr(x, n, 2 * n);
    ShrShr(x, 2 * n, n);
    ShrOut(x, 3 * n);
    XorZero(t);
    XorZero(Xor(s, t));
    ShrXor(x, s, n);
    ShrXor(x, s, 2 * n);
    ShrXor(Xor(x, s), t, n);
    XorTwice(x, s, t);
  }

  // ---------------------------------------------------------------------------------------
  // Rotations and products
  // ---------------------------------------------------------------------------------------

  /** `(x << r) | (x >> (32 - r))`, where `a` is 2^r and `b` is 2^(32 - r). The two parts share no
      bit, so their union is their sum. */
  function Rot(x: Word, a: int, b: int): (y: Word)
    requires a > 0 && b > 0 && a * b == TWO_32
  {
    RotParts(x, a, b);
    Wrap32(x * a) + x / b
  }

  lemma RotParts(x: Word, a: int, b: int)
    requires a > 0 && b > 0 && a * b == TWO_32
    ensures Wrap32(x * a) == x % b * a && 0 <= x / b < a && 0 <= x % b * a <= TWO_32 - a
  {
    var hi, lo := x / b, x % b;
    assert x == hi * b + lo;
    LowPart(lo, a, b);
    Distribute(hi * b, lo, a);
    Reassociate(hi, b, a);
    DivMod(x * a, TWO_32, hi, lo * a);
    FactorBelow(hi, a, b);
  }

  lemma LowPart(lo: int, a: int, b: int)
    requires a > 0 && 0 <= lo < b
    ensures 0 <= lo * a <= a * b - a
  {
    NonNegative(lo, a);
    NonNegative(b - 1 - lo, a);
    Distribute(b, -1 - lo, a);
    Distribute(-1, -lo, a);
  }

  /** Rotating the other way undoes a rotation. */
  lemma RotInverse(x: Word, a: int, b: int)
    requires a > 0 && b > 0 && a * b == TWO_32
    ensures b * a == TWO_32 && Rot(Rot(x, a, b), b, a) == x
  {
    var hi, lo := x / b, x % b;
    var y := Rot(x, a, b);
    RotParts(x, a, b);
    DivMod(y, a, lo, hi);
    RotParts(y, b, a);
  }

  function Mul(x: Word, c: int): Word { Wrap32(x * c) }

  function Plus(x: Word, c: int): Word { Wrap32(x + c) }

  lemma PlusInverse(x: Word, c: int, d: int)
    requires c + d == 0
    ensures Plus(Plus(x, c), d) == x
  {
    var q, r := (x + c) / TWO_32, (x + c) % TWO_32;
    DivMod(r + d, TWO_32, -q, x);
  }

  /** An odd factor `c` has an inverse `d` modulo 2^32. */
  lemma MulInverse(x: Word, c: int, d: int, k: int)
    requires c * d == 1 + k * TWO_32
    ensures Mul(Mul(x, c), d) == x
  {
    var p := x * c;
    var q, r := p / TWO_32, p % TWO_32;
    assert p == q * TWO_32 + r;
    Distribute(q * TWO_32, r, d);
    Reassociate(q, TWO_32, d);
    Reassociate(x, c, d);
    Distribute(1, k * TWO_32, x);
    Reassociate(k, TWO_32, x);
    DivMod(r * d, TWO_32, k * x - q * d, x);
  }

  lemma LowByte(x: Byte, y: Byte, p: int, q: int)
    requires x + 0x100 * p == y + 0x100 * q
    ensures x == y && p == q
  {
  }

  lemma LittleEndianInjective(a: Byte, b: Byte, c: Byte, d: Byte, a': Byte, b': Byte, c': Byte, d': Byte)
    requires LittleEndian(a, b, c, d) == LittleEndian(a', b', c', d')
    ensures a == a' && b == b' && c == c' && d == d'
  {
    LowByte(a, a', b + 0x100 * (c + 0x100 * d), b' + 0x100 * (c' + 0x100 * d'));
    LowByte(b, b', c + 0x100 * d, c' + 0x100 * d');
    LowByte(c, c', d, d');
  }
}
