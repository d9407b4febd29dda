/** The 32-bit hash of src/common/MurmurHash2.c.

    Every mixing step is undone by an explicit inverse.  Composing the inverses gives, for a fixed key,
    the seed behind any hash, and for a fixed seed and position, the word behind any hash. */
module MurmurHash2 {
  import opened Word32

  type Byte = b: nat | b < 256
  type Bytes = seq<Byte>

  const M: Word := 0x5bd1e995
  const M_INVERSE: Word := 0xe59b19bd

  /** A key whose length fits the C parameter `int len`. */
  predicate IsKey(key: Bytes) {
    |key| < 0x8000_0000
  }

  // ---------- the mixing steps and their inverses ----------

  function Mul(x: Word): Word { Times(x, M) }

  function Unmul(x: Word): Word { Times(x, M_INVERSE) }

  /** The 4-byte read of a little-endian machine. */
  function WordAt(key: Bytes): Word
    requires |key| >= 4
  {
    Join(key[0], Join(key[1], Join(key[2], key[3])))
  }

  /** `high` placed above one byte. */
  function Join(low: nat, high: nat): nat { low + 0x100 * high }

  lemma JoinInjective(b1: Byte, h1: nat, b2: Byte, h2: nat)
    requires Join(b1, h1) == Join(b2, h2)
    ensures b1 == b2 && h1 == h2
  {}

  function WordBytes(k: Word): (b: Bytes)
    ensures |b| == 4 && WordAt(b) == k
  {
    [k % 256, (k / 256) % 256, (k / 256 / 256) % 256, k / 256 / 256 / 256]
  }

  function MixWord(k: Word): Word {
    Mul(XorShift(Mul(k), 24))
  }

  function UnmixWord(y: Word): Word {
    Unmul(UnxorShift(Unmul(y), 24))
  }

  function Step(h: Word, k: Word): Word {
    XorWord(Mul(h), MixWord(k))
  }

  function Unstep(t: Word, k: Word): Word {
    Unmul(XorWord(t, MixWord(k)))
  }

  /** The word that takes `h` to `t`. */
  function StepWord(h: Word, t: Word): Word {
    UnmixWord(XorWord(Mul(h), t))
  }

  /** The trailing bytes, xor-ed in from the highest down as the switch falls through. */
  function XorTail(h: Word, tail: Bytes): Word
    requires |tail| <= 3
  {
    var h3 := if |tail| == 3 then XorWord(h, Join(0, Join(0, tail[2]))) else h;
    var h2 := if |tail| >= 2 then XorWord(h3, Join(0, tail[1])) else h3;
    if |tail| >= 1 then XorWord(h2, tail[0]) else h2
  }

  function TailMix(h: Word, tail: Bytes): Word
    requires |tail| <= 3
  {
    if tail == [] then h else Mul(XorTail(h, tail))
  }

  /** The value of the trailing bytes as one number. */
  function TailBits(tail: Bytes): Word
    requires |tail| <= 3
  {
    var b2 := if |tail| == 3 then tail[2] else 0;
    var b1 := if |tail| >= 2 then tail[1] else 0;
    var b0 := if |tail| >= 1 then tail[0] else 0;
    Join(b0, Join(b1, b2))
  }

  function TailUnmix(t: Word, tail: Bytes): Word
    requires |tail| <= 3
  {
    if tail == [] then t else XorWord(Unmul(t), TailBits(tail))
  }

  function Final(h: Word): Word {
    XorShift(Mul(XorShift(h, 13)), 15)
  }

  function Unfinal(t: Word): Word {
    UnxorShift(Unmul(UnxorShift(t, 15)), 13)
  }

  lemma MulInverse(x: Word)
    ensures Unmul(Mul(x)) == x == Mul(Unmul(x))
  {
    var k := (M * M_INVERSE) / MODULUS;
    assert M * M_INVERSE == 1 + k * MODULUS;
    TimesInverse(x, M, M_INVERSE, k);
    TimesInverse(x, M_INVERSE, M, k);
  }

  lemma WordInjective(a: Bytes, b: Bytes)
    requires |a| == |b| == 4 && WordAt(a) == WordAt(b)
    ensures a == b
  {
    hide Join;
    JoinInjective(a[0], Join(a[1], Join(a[2], a[3])), b[0], Join(b[1], Join(b[2], b[3])));
    JoinInjective(a[1], Join(a[2], a[3]), b[1], Join(b[2], b[3]));
    JoinInjective(a[2], a[3], b[2], b[3]);
  }

  lemma TailBitsInjective(a: Bytes, b: Bytes)
    requires |a| == |b| <= 3 && TailBits(a) == TailBits(b)
    ensures a == b
  {
    hide Join;
    var a1, b1 := if |a| >= 2 then a[1] else 0, if |b| >= 2 then b[1] else 0;
    var a2, b2 := if |a| == 3 then a[2] else 0, if |b| == 3 then b[2] else 0;
    if |a| > 0 {
      JoinInjective(a[0], Join(a1, a2), b[0], Join(b1, b2));
      JoinInjective(a1, a2, b1, b2);
    }
  }

  /** The three separate xors amount to one xor with the bytes read as a number. */
  lemma XorTailIsOneXor(h: Word, tail: Bytes)
    requires |tail| <= 3
    ensures XorTail(h, tail) == Xor(h, TailBits(tail))
  {
    hide Xor;
    XorZero(h);
    Pow2Of32();
    var b0 := if |tail| >= 1 then tail[0] else 0;
    var b1 := if |tail| >= 2 then tail[1] else 0;
    var b2 := if |tail| == 3 then tail[2] else 0;
    var x2, x1 := Join(0, Join(0, b2)), Join(0, b1);
    XorOfDisjointBits(b1, b0, 8);
    XorOfDisjointBits(b2, x1 + b0, 16);
    XorAssociates(Xor(h, x2), x1, b0);
    XorAssociates(h, x2, x1 + b0);
    XorZero(Xor(h, x2));
    XorZero(Xor(Xor(h, x2), x1));
    assert XorTail(h, tail) == Xor(Xor(Xor(h, x2), x1), b0);
  }

  lemma MixWordInverse(k: Word)
    ensures UnmixWord(MixWord(k)) == k == MixWord(UnmixWord(k))
  {
    hide Mul, Unmul, XorShift, UnxorShift;
    MulInverse(k);
    MulInverse(XorShift(Mul(k), 24));
    UnxorAfterXor(Mul(k), 24);
    MulInverse(UnxorShift(Unmul(k), 24));
    XorAfterUnxor(Unmul(k), 24);
  }

  lemma StepInverse(h: Word, k: Word)
    ensures Unstep(Step(h, k), k) == h && Step(Unstep(h, k), k) == h
  {
    hide Xor, Mul, Unmul, MixWord;
    XorCancels(Mul(h), MixWord(k));
    XorCancels(h, MixWord(k));
    MulInverse(h);
    MulInverse(XorWord(h, MixWord(k)));
  }

  lemma StepWordInverse(h: Word, k: Word)
    ensures StepWord(h, Step(h, k)) == k && Step(h, StepWord(h, k)) == k
  {
    hide Xor, Mul, Unmul, MixWord, UnmixWord;
    XorCancels(MixWord(k), Mul(h));
    XorCancels(k, Mul(h));
    MixWordInverse(k);
    MixWordInverse(XorWord(Mul(h), k));
  }

  lemma TailInverse(h: Word, tail: Bytes)
    requires |tail| <= 3
    ensures TailUnmix(TailMix(h, tail), tail) == h && TailMix(TailUnmix(h, tail), tail) == h
  {
    hide Xor, Mul, Unmul, XorTail, TailBits;
    if tail != [] {
      var x := TailBits(tail);
      XorTailIsOneXor(h, tail);
      MulInverse(XorTail(h, tail));
      XorCancels(h, x);
      MulInverse(h);
      XorTailIsOneXor(TailUnmix(h, tail), tail);
      XorCancels(Unmul(h), x);
    }
  }

  lemma FinalInverse(h: Word)
    ensures Unfinal(Final(h)) == h && Final(Unfinal(h)) == h
  {
    hide Mul, Unmul, XorShift, UnxorShift;
    UnxorAfterXor(Mul(XorShift(h, 13)), 15);
    MulInverse(XorShift(h, 13));
    UnxorAfterXor(h, 13);
    XorAfterUnxor(Unmul(UnxorShift(h, 15)), 13);
    MulInverse(UnxorShift(h, 15));
    XorAfterUnxor(h, 15);
  }

  // ---------- the hash as a fold over the words of the key ----------

  function Fold(h: Word, key: Bytes): Word
    decreases |key|
  {
    if |key| < 4 then TailMix(h, key) else Fold(Step(h, WordAt(key)), key[4..])
  }

  /** The state in which the fold over `key` must start to end in `t`. */
  function Unfold(t: Word, key: Bytes): Word
    decreases |key|
  {
    if |key| < 4 then TailUnmix(t, key) else Unstep(Unfold(t, key[4..]), WordAt(key))
  }

  function Hash(key: Bytes, seed: Word): Word
    requires IsKey(key)
  {
    Final(Fold(XorWord(seed, |key|), key))
  }

  /** The seed under which `key` hashes to `t`. */
  function SeedOf(key: Bytes, t: Word): Word
    requires IsKey(key)
  {
    XorWord(Unfold(Unfinal(t), key), |key|)
  }

  /** The loop and the fall-through switch of the C function compute the fold. */
  method ComputeHash(key: array<Byte>, seed: Word) returns (h: Word)
    requires IsKey(key[..])
    ensures h == Hash(key[..], seed)
  {
    hide Xor, Mul, XorShift, TailMix, XorTail, Final, Step, MixWord;
    var len: int := key.Length;
    var data: int := 0;
    h := XorWord(seed, len);
    ghost var h0 := h;
    while len >= 4
      invariant 0 <= data <= data + len == key.Length
      invariant Fold(h, key[data..]) == Fold(h0, key[..])
    {
      ghost var rest := key[data..];
      assert rest[4..] == key[data + 4..];
      h := MixNextWord(h, key, data);
      data := data + 4;
      len := len - 4;
    }
    h := MixTail(h, key, data, len);
    h := FinalMix(h);
  }

  /** The body of the word loop: the word is multiplied, folded onto itself and multiplied again, then joined to
      the multiplied state by exclusive or. */
  method MixNextWord(h0: Word, key: array<Byte>, data: nat) returns (h: Word)
    requires data + 4 <= key.Length
    ensures h == Step(h0, WordAt(key[data..]))
  {
    hide Xor, Times;
    var k: Word := Join(key[data], Join(key[data + 1], Join(key[data + 2], key[data + 3])));
    assert k == WordAt(key[data..]);
    k := Mul(k);
    k := XorShift(k, 24);
    k := Mul(k);
    h := Mul(h0);
    h := XorWord(h, k);
  }

  /** The switch: case 3 falls into case 2, case 2 into case 1, and only case 1 multiplies. */
  method MixTail(h0: Word, key: array<Byte>, data: nat, len: nat) returns (h: Word)
    requires data + len == key.Length && len <= 3
    ensures h == TailMix(h0, key[data..])
  {
    hide Xor, Times;
    h := h0;
    if len == 3 { h := XorWord(h, Join(0, Join(0, key[data + 2]))); }
    if len >= 2 { h := XorWord(h, Join(0, key[data + 1])); }
    if len >= 1 {
      h := XorWord(h, key[data]);
      h := Mul(h);
    }
  }

  method FinalMix(h0: Word) returns (h: Word)
    ensures h == Final(h0)
  {
    hide Xor, Times;
    h := XorShift(h0, 13);
    h := Mul(h);
    h := XorShift(h, 15);
  }

  // ---------- the hash in plain numbers ----------

  lemma ShiftsInNumbers(x: Word)
    ensures Shr(x, 13) == x / 0x2000 && Shr(x, 15) == x / 0x8000 && Shr(x, 24) == x / 0x100_0000
  {
    hide Shr;
    ShrIsQuotient(x, 13);
    ShrIsQuotient(x, 15);
    ShrIsQuotient(x, 24);
    Pow2Of32();
    assert Pow2(13) == 32 * Pow2(8) by { assert Pow2(13) == 2 * 2 * 2 * 2 * 2 * Pow2(8); }
    assert Pow2(15) == 4 * Pow2(13);
    assert Pow2(24) == 0x100_0000 by { assert Pow2(20) == 16 * Pow2(16); assert Pow2(24) == 16 * Pow2(20); }
  }

  /** One round of the word loop: four bytes, least significant first, times 0x5bd1e995, xor-ed with its own upper
      byte, times 0x5bd1e995, xor-ed with the state times 0x5bd1e995, all modulo 2^32. */
  lemma RoundInNumbers(h: Word, key: Bytes)
    requires |key| >= 4
    ensures var w := key[0] as nat + 0x100 * key[1] as nat + 0x1_0000 * key[2] as nat + 0x100_0000 * key[3] as nat;
            var t := (w * 0x5bd1e995) % 0x1_0000_0000;
            var mixed := (Xor(t, t / 0x100_0000) * 0x5bd1e995) % 0x1_0000_0000;
            Fold(h, key) == Fold(XorWord((h * 0x5bd1e995) % 0x1_0000_0000, mixed), key[4..])
  {
    hide Xor, Shr, Fold;
    var w: Word := WordAt(key);
    ShiftsInNumbers(Mul(w));
    assert Fold(h, key) == Fold(Step(h, w), key[4..]) by { FoldOnce(h, key); }
  }

  lemma FoldOnce(h: Word, key: Bytes)
    requires |key| >= 4
    ensures Fold(h, key) == Fold(Step(h, WordAt(key)), key[4..])
  {
    hide Step, WordAt, TailMix;
  }

  /** The trailing bytes are xor-ed in at their places, and the state is multiplied once if there are any. */
  lemma TailInNumbers(h: Word, b0: Byte, b1: Byte, b2: Byte)
    ensures Fold(h, []) == h
    ensures Fold(h, [b0]) == (Xor(h, b0) * 0x5bd1e995) % 0x1_0000_0000
    ensures Fold(h, [b0, b1]) == (Xor(Xor(h, 0x100 * b1), b0) * 0x5bd1e995) % 0x1_0000_0000
    ensures Fold(h, [b0, b1, b2]) == (Xor(Xor(Xor(h, 0x1_0000 * b2), 0x100 * b1), b0) * 0x5bd1e995) % 0x1_0000_0000
  {
    hide Xor;
    FoldOfTail(h, []);
    FoldOfTail(h, [b0]);
    FoldOfTail(h, [b0, b1]);
    FoldOfTail(h, [b0, b1, b2]);
    hide Fold;
  }

  lemma FoldOfTail(h: Word, tail: Bytes)
    requires |tail| <= 3
    ensures Fold(h, tail) == TailMix(h, tail)
  {
    hide TailMix;
  }

  /** The start and the end of the hash. */
  lemma HashInNumbers(key: Bytes, seed: Word)
    requires IsKey(key)
    ensures var h := Fold(XorWord(seed, |key|), key);
            var t := (Xor(h, h / 0x2000) * 0x5bd1e995) % 0x1_0000_0000;
            Hash(key, seed) == Xor(t, t / 0x8000)
  {
    hide Xor, Shr, Fold;
    var h := Fold(XorWord(seed, |key|), key);
    ShiftsInNumbers(h);
    ShiftsInNumbers(Mul(XorShift(h, 13)));
  }

  // ---------- what the hash never does ----------

  lemma {:induction false} FoldInverse(h: Word, key: Bytes)
    ensures Unfold(Fold(h, key), key) == h && Fold(Unfold(h, key), key) == h
    decreases |key|
  {
    hide Step, Unstep, TailMix, TailUnmix, WordAt;
    if |key| < 4 {
      TailInverse(h, key);
    } else {
      var k := WordAt(key);
      FoldInverse(Step(h, k), key[4..]);
      StepInverse(h, k);
      FoldInverse(h, key[4..]);
      StepInverse(Unfold(h, key[4..]), k);
    }
  }

  /** For a fixed key the hash is a permutation of the seeds, and SeedOf is its inverse. */
  lemma SeedRoundTrip(key: Bytes, seed: Word)
    requires IsKey(key)
    ensures SeedOf(key, Hash(key, seed)) == seed && Hash(key, SeedOf(key, seed)) == seed
  {
    hide Xor, Fold, Unfold, Final, Unfinal;
    FoldInverse(XorWord(seed, |key|), key);
    FinalInverse(Fold(XorWord(seed, |key|), key));
    XorCancels(seed, |key|);
    FinalInverse(seed);
    FoldInverse(Unfinal(seed), key);
    XorCancels(Unfold(Unfinal(seed), key), |key|);
  }

  lemma DistinctSeedsNeverCollide(key: Bytes, s1: Word, s2: Word)
    requires IsKey(key) && s1 != s2
    ensures Hash(key, s1) != Hash(key, s2)
  {
    hide Hash, SeedOf;
    SeedRoundTrip(key, s1);
    SeedRoundTrip(key, s2);
  }

  /** A prefix of whole words can be folded first. */
  lemma {:induction false} FoldSplits(h: Word, prefix: Bytes, rest: Bytes)
    requires |prefix| % 4 == 0
    ensures Fold(h, prefix + rest) == Fold(Fold(h, prefix), rest)
    decreases |prefix|
  {
    hide Step, TailUnmix, XorTail, Mul;
    var key := prefix + rest;
    if prefix == [] {
      assert key == rest;
    } else {
      assert key[4..] == prefix[4..] + rest;
      assert WordAt(key) == WordAt(prefix);
      FoldSplits(Step(h, WordAt(prefix)), prefix[4..], rest);
    }
  }

  /** The hash of a key seen around the aligned word at `i`. */
  lemma HashAroundWord(key: Bytes, i: nat, seed: Word)
    requires IsKey(key) && i % 4 == 0 && i + 4 <= |key|
    ensures Hash(key, seed)
         == Final(Fold(Step(Fold(XorWord(seed, |key|), key[..i]), WordAt(key[i..i + 4])), key[i + 4..]))
  {
    hide Step, Final, TailMix, Xor;
    assert key == key[..i] + key[i..];
    FoldSplits(XorWord(seed, |key|), key[..i], key[i..]);
    assert key[i..][4..] == key[i + 4..];
    assert WordAt(key[i..]) == WordAt(key[i..i + 4]);
  }

  /** Keys of one length that differ only inside one aligned word never collide under a common seed. */
  lemma OneWordNeverCollides(a: Bytes, b: Bytes, i: nat, seed: Word)
    requires IsKey(a) && |a| == |b| && i % 4 == 0 && i + 4 <= |a|
    requires a[..i] == b[..i] && a[i + 4..] == b[i + 4..] && a != b
    ensures Hash(a, seed) != Hash(b, seed)
  {
    hide Hash, Fold, Step, StepWord, Final, Unfinal, Unfold, WordAt, Xor;
    HashAroundWord(a, i, seed);
    HashAroundWord(b, i, seed);
    var h, wa, wb, rest := Fold(XorWord(seed, |a|), a[..i]), a[i..i + 4], b[i..i + 4], a[i + 4..];
    assert a == a[..i] + wa + rest && b == b[..i] + wb + rest;
    if WordAt(wa) == WordAt(wb) { WordInjective(wa, wb); }
    StepWordInverse(h, WordAt(wa));
    StepWordInverse(h, WordAt(wb));
    FoldInverse(Step(h, WordAt(wa)), rest);
    FoldInverse(Step(h, WordAt(wb)), rest);
    FinalInverse(Fold(Step(h, WordAt(wa)), rest));
    FinalInverse(Fold(Step(h, WordAt(wb)), rest));
  }

  /** ... and every hash value is reached by some choice of that one word. */
  lemma OneWordReachesEveryHash(a: Bytes, i: nat, seed: Word, t: Word) returns (b: Bytes)
    requires IsKey(a) && i % 4 == 0 && i + 4 <= |a|
    ensures |b| == |a| && b[..i] == a[..i] && b[i + 4..] == a[i + 4..]
    ensures Hash(b, seed) == t
  {
    hide Hash, Fold, Step, StepWord, Final, Unfinal, Unfold, WordAt, Xor;
    var h, rest := Fold(XorWord(seed, |a|), a[..i]), a[i + 4..];
    var g := Unfold(Unfinal(t), rest);
    var w := WordBytes(StepWord(h, g));
    b := a[..i] + w + rest;
    assert b[..i] == a[..i] && b[i + 4..] == rest && b[i..i + 4] == w;
    HashAroundWord(b, i, seed);
    StepWordInverse(h, g);
    FoldInverse(Unfinal(t), rest);
    FinalInverse(t);
  }

  /** Keys of one length that differ only in the 1 to 3 trailing bytes never collide under a common seed. */
  lemma TailNeverCollides(a: Bytes, b: Bytes, seed: Word)
    requires IsKey(a) && |a| == |b| && a != b
    requires a[..|a| - |a| % 4] == b[..|a| - |a| % 4]
    ensures Hash(a, seed) != Hash(b, seed)
  {
    hide Step, Final, Unfinal, Mul, Unmul, XorTail, TailBits, Xor;
    var i := |a| - |a| % 4;
    var h, ta, tb := Fold(XorWord(seed, |a|), a[..i]), a[i..], b[i..];
    assert a == a[..i] + ta && b == b[..i] + tb;
    FoldSplits(XorWord(seed, |a|), a[..i], ta);
    FoldSplits(XorWord(seed, |a|), b[..i], tb);
    var xa, xb := TailBits(ta), TailBits(tb);
    if xa == xb { TailBitsInjective(ta, tb); }
    XorTailIsOneXor(h, ta);
    XorTailIsOneXor(h, tb);
    XorCancels(xa, h);
    XorCancels(xb, h);
    MulInverse(XorTail(h, ta));
    MulInverse(XorTail(h, tb));
    FinalInverse(TailMix(h, ta));
    FinalInverse(TailMix(h, tb));
  }
}
