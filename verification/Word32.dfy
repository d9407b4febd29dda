/** 32-bit unsigned words as naturals below 2^32, with the operations the hash is made of: exclusive or,
    right shift, and multiplication by a constant that wraps modulo 2^32. */
module Word32 {

  const MODULUS: nat := 0x1_0000_0000

  type Word = x: nat | x < 0x1_0000_0000

  function Pow2(k: nat): (p: nat)
    ensures p >= 1
  {
    if k == 0 then 1 else 2 * Pow2(k - 1)
  }

  lemma Pow2Of32()
    ensures Pow2(8) == 0x100 && Pow2(16) == 0x1_0000 && Pow2(32) == MODULUS
  {
    assert Pow2(4) == 16;
    assert Pow2(8) == 256;
    assert Pow2(12) == 0x1000;
    assert Pow2(16) == 0x1_0000;
    assert Pow2(20) == 0x10_0000;
    assert Pow2(24) == 0x100_0000;
    assert Pow2(28) == 0x1000_0000;
  }

  function Xor(a: nat, b: nat): (x: nat) {
    if a == 0 && b == 0 then 0 else (if a % 2 == b % 2 then 0 else 1) + 2 * Xor(a / 2, b / 2)
  }

  function Shr(x: nat, k: nat): (y: nat)
    ensures y <= x
  {
    if k == 0 then x else Shr(x / 2, k - 1)
  }

  lemma {:induction false} XorBelow(a: nat, b: nat, k: nat)
    requires a < Pow2(k) && b < Pow2(k)
    ensures Xor(a, b) < Pow2(k)
  {
    if k > 0 { XorBelow(a / 2, b / 2, k - 1); }
  }

  function XorWord(a: Word, b: Word): (x: Word)
    ensures x == Xor(a, b)
  {
    Pow2Of32();
    XorBelow(a, b, 32);
    Xor(a, b)
  }

  lemma {:induction false} XorZero(a: nat)
    ensures Xor(a, 0) == a == Xor(0, a)
  {
    if a > 0 { XorZero(a / 2); }
  }

  lemma XorHalves(a: nat, b: nat)
    ensures Xor(a, b) / 2 == Xor(a / 2, b / 2) && (Xor(a, b) % 2 == 0 <==> a % 2 == b % 2)
  {}

  lemma EqualByHalves(x: nat, y: nat)
    requires x / 2 == y / 2 && x % 2 == y % 2
    ensures x == y
  {}

  lemma {:induction false} XorAssociates(a: nat, b: nat, c: nat)
    ensures Xor(Xor(a, b), c) == Xor(a, Xor(b, c))
    decreases a + b + c
  {
    if a + b + c > 0 {
      var l, r := Xor(Xor(a, b), c), Xor(a, Xor(b, c));
      XorAssociates(a / 2, b / 2, c / 2);
      AssociatesLow(a, b, c);
      EqualByHalves(l, r);
    }
  }

  lemma AssociatesLow(a: nat, b: nat, c: nat)
    ensures Xor(Xor(a, b), c) % 2 == Xor(a, Xor(b, c)) % 2
    ensures Xor(Xor(a, b), c) / 2 == Xor(Xor(a / 2, b / 2), c / 2)
    ensures Xor(a, Xor(b, c)) / 2 == Xor(a / 2, Xor(b / 2, c / 2))
  {
    hide Xor;
    var ab, bc := Xor(a, b), Xor(b, c);
    XorHalves(a, b);
    XorHalves(b, c);
    XorHalves(ab, c);
    XorHalves(a, bc);
  }

  lemma {:induction false} XorSelf(a: nat)
    ensures Xor(a, a) == 0
  {
    if a > 0 { XorSelf(a / 2); }
  }

  lemma XorCancels(a: nat, b: nat)
    ensures Xor(Xor(a, b), b) == a && Xor(b, Xor(b, a)) == a
  {
    XorAssociates(a, b, b);
    XorAssociates(b, b, a);
    XorSelf(b);
    XorZero(a);
  }

  lemma {:induction false} ShrXor(a: nat, b: nat, k: nat)
    ensures Shr(Xor(a, b), k) == Xor(Shr(a, k), Shr(b, k))
    decreases k
  {
    if k > 0 {
      XorHalves(a, b);
      ShrXor(a / 2, b / 2, k - 1);
    }
  }

  lemma {:induction false} ShrAdds(x: nat, j: nat, k: nat)
    ensures Shr(Shr(x, j), k) == Shr(x, j + k)
    decreases j
  {
    if j > 0 { ShrAdds(x / 2, j - 1, k); }
  }

  lemma {:induction false} ShrVanishes(x: nat, k: nat)
    requires x < Pow2(k)
    ensures Shr(x, k) == 0
    decreases k
  {
    if k > 0 { ShrVanishes(x / 2, k - 1); }
  }

  lemma {:induction false} Pow2Monotone(j: nat, k: nat)
    requires j <= k
    ensures Pow2(j) <= Pow2(k)
  {
    if j < k { Pow2Monotone(j, k - 1); }
  }

  /** Bit i of an exclusive or tells whether the two bits i differ. */
  lemma XorBits(a: nat, b: nat, i: nat)
    ensures Shr(Xor(a, b), i) % 2 == (Shr(a, i) + Shr(b, i)) % 2
  {
    ShrXor(a, b, i);
    XorHalves(Shr(a, i), Shr(b, i));
  }

  lemma TimesAtLeast(d: nat, n: nat)
    requires n >= 1
    ensures d * n >= d
  {}

  lemma QuotientsAgree(d: nat, q1: nat, r1: nat, q2: nat, r2: nat)
    requires d * q1 + r1 == d * q2 + r2 && r1 < d && r2 < d
    ensures q1 == q2
  {
    assert d * (q2 - q1) == r1 - r2;
    if q1 < q2 { TimesAtLeast(d, q2 - q1); }
    if q2 < q1 { TimesAtLeast(d, q1 - q2); }
  }

  lemma QuotientIs(x: nat, d: nat, q: nat, r: nat)
    requires x == d * q + r && r < d
    ensures x / d == q
  {
    QuotientsAgree(d, x / d, x % d, q, r);
  }

  lemma QuotientOfHalf(x: nat, p: nat)
    requires p > 0
    ensures (x / 2) / p == x / (2 * p)
  {
    var y := x / 2;
    var q, r := y / p, y % p;
    assert y == p * q + r;
    assert (2 * p) * q == 2 * (p * q);
    QuotientIs(x, 2 * p, q, 2 * r + x % 2);
  }

  /** Shifting right by k divides by 2^k. */
  lemma {:induction false} ShrIsQuotient(x: nat, k: nat)
    ensures Shr(x, k) == x / Pow2(k)
    decreases k
  {
    if k > 0 {
      ShrIsQuotient(x / 2, k - 1);
      QuotientOfHalf(x, Pow2(k - 1));
    }
  }

  /** Adding bits below position k is the same as xor-ing them in. */
  lemma {:induction false} XorOfDisjointBits(a: nat, b: nat, k: nat)
    requires b < Pow2(k)
    ensures Xor(a * Pow2(k), b) == a * Pow2(k) + b
  {
    if k == 0 {
      XorZero(a);
    } else {
      var p := Pow2(k - 1);
      assert a * Pow2(k) == 2 * (a * p);
      XorOfDisjointBits(a, b / 2, k - 1);
      XorOfEven(a * p, b);
    }
  }

  lemma XorOfEven(n: nat, b: nat)
    requires Xor(n, b / 2) == n + b / 2
    ensures Xor(2 * n, b) == 2 * n + b
  {
    XorHalves(2 * n, b);
    EqualByHalves(Xor(2 * n, b), 2 * n + b);
  }

  // ---------- x ^= x >> s ----------

  function XorShift(x: Word, s: nat): Word {
    XorWord(x, Shr(x, s))
  }

  /** Undoes XorShift for every shift of at least 11 (three shifts clear the word). */
  function UnxorShift(y: Word, s: nat): Word {
    XorWord(XorWord(y, Shr(y, s)), Shr(y, 2 * s))
  }

  lemma ShiftsClear(x: Word, s: nat)
    requires s >= 11
    ensures Shr(Shr(x, 2 * s), s) == 0
  {
    ShrAdds(x, 2 * s, s);
    Pow2Monotone(32, 3 * s);
    Pow2Of32();
    ShrVanishes(x, 3 * s);
  }

  lemma UnxorAfterXor(x: Word, s: nat)
    requires s >= 11
    ensures UnxorShift(XorShift(x, s), s) == x
  {
    hide Xor, Shr;
    var x1, x2 := Shr(x, s), Shr(x, 2 * s);
    var y := Xor(x, x1);
    ShrAdds(x, s, s);
    ShiftsClear(x, s);
    ShrXor(x, x1, s);
    ShrXor(x1, x2, s);
    ShrAdds(y, s, s);
    XorZero(x2);
    assert Shr(y, s) == Xor(x1, x2) && Shr(y, 2 * s) == x2;
    XorAssociates(y, Xor(x1, x2), x2);
    XorCancels(x1, x2);
    XorCancels(x, x1);
  }

  lemma XorAfterUnxor(x: Word, s: nat)
    requires s >= 11
    ensures XorShift(UnxorShift(x, s), s) == x
  {
    hide Xor, Shr;
    var x1, x2 := Shr(x, s), Shr(x, 2 * s);
    ShrAdds(x, s, s);
    ShiftsClear(x, s);
    ShrXor(x, x1, s);
    ShrXor(Xor(x, x1), x2, s);
    XorZero(Xor(x1, x2));
    XorAssociates(x, x1, x2);
    XorCancels(x, Xor(x1, x2));
  }

  // ---------- h *= m ----------

  function Times(x: Word, m: nat): Word {
    (x * m) % MODULUS
  }

  lemma TimesInverse(x: Word, m: nat, d: nat, k: nat)
    requires m * d == 1 + k * MODULUS
    ensures Times(Times(x, m), d) == x
  {
    var y, q := (x * m) % MODULUS, (x * m) / MODULUS;
    assert y == x * m - q * MODULUS;
    calc {
      y * d;
      (x * m) * d - (q * MODULUS) * d;
      { assert (x * m) * d == x * (m * d); assert (q * MODULUS) * d == (q * d) * MODULUS; }
      x * (1 + k * MODULUS) - (q * d) * MODULUS;
      { assert x * (1 + k * MODULUS) == x + (x * k) * MODULUS; }
      x + (x * k) * MODULUS - (q * d) * MODULUS;
      x + (x * k - q * d) * MODULUS;
    }
    RemainderIsUnique(y * d, x * k - q * d, x);
  }

  lemma RemainderIsUnique(n: nat, q: int, r: Word)
    requires n == r + q * MODULUS
    ensures n % MODULUS == r
  {}
}
