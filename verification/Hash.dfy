/** The in-memory hash: FNV-1a, then the SplitMix64 finalizer.

Every step can be taken back, so nothing is lost after the last byte has gone in: two keys collide
exactly when FNV-1a makes them collide, one key never collides with itself under two seeds, and two
keys that differ in a single byte never collide.
*/
module Hash {
  import opened Arithmetic
  import opened Words

  type Octet = n: nat | n < 256

  const FNV_OFFSET_BASIS: u64 := 0xCBF2_9CE4_8422_2325

  // -- FNV-1a --------------------------------------------------------------------------

  function FnvStep(hash: u64, byte: Octet): u64 {
    Times(Xor(hash, byte), 0x0000_0100_0000_01B3)
  }

  /** The bytes taken in one after another. */
  function Fnv(state: u64, data: seq<Octet>): u64
    decreases |data|
  {
    if data == [] then state else Fnv(FnvStep(state, data[0]), data[1..])
  }

  method Fnv1a64From(state: u64, data: seq<Octet>) returns (hash: u64)
    ensures hash == Fnv(state, data)
  {
    hide Xor, Times;
    hash := state;
    assert data[0..] == data;
    for i := 0 to |data|
      invariant Fnv(hash, data[i..]) == Fnv(state, data)
    {
      assert data[i..][1..] == data[i + 1..];
      var mixed := Xor(hash, data[i]);
      hash := Times(mixed, 0x0000_0100_0000_01B3);
    }
  }

  lemma XorOfWords(a: u64, b: u64)
    ensures Xor(a, b) < 0x1_0000_0000_0000_0000
  {
    hide Xor;
    Pow2Values();
    XorFits(a, b, 64);
  }

  /** What a step leaves tells the state from the byte, and the byte from the state. */
  lemma FnvStepBack(hash: u64, byte: Octet)
    ensures Xor(Times(FnvStep(hash, byte), 0xCE96_5057_AFF6_957B), byte) == hash
    ensures Xor(Times(FnvStep(hash, byte), 0xCE96_5057_AFF6_957B), hash) == byte
  {
    hide Xor, Times;
    XorOfWords(hash, byte);
    TimesUndone(Xor(hash, byte), 0x0000_0100_0000_01B3, 0xCE96_5057_AFF6_957B, 0xCE_9650_590F);
    XorCancels(hash, byte);
    XorCommutes(hash, byte);
    XorCancels(byte, hash);
  }

  /** In pieces or at once, the state is the same. */
  lemma {:induction false} FnvChains(state: u64, a: seq<Octet>, b: seq<Octet>)
    ensures Fnv(Fnv(state, a), b) == Fnv(state, a + b)
    decreases |a|
  {
    hide FnvStep;
    if a == [] {
      assert a + b == b;
    } else {
      assert (a + b)[1..] == a[1..] + b;
      FnvChains(FnvStep(state, a[0]), a[1..], b);
    }
  }

  /** Different states stay different over the same bytes. */
  lemma {:induction false} FnvInjective(s: u64, t: u64, data: seq<Octet>)
    requires Fnv(s, data) == Fnv(t, data)
    ensures s == t
    decreases |data|
  {
    hide FnvStep, Xor, Times;
    if data != [] {
      FnvInjective(FnvStep(s, data[0]), FnvStep(t, data[0]), data[1..]);
      FnvStepBack(s, data[0]);
      FnvStepBack(t, data[0]);
    }
  }

  // -- the finalizer -------------------------------------------------------------------

  lemma Folds(x: u64, k: nat)
    requires 22 <= k
    ensures Fold(x, k) < 0x1_0000_0000_0000_0000 && Unfold(x, k) < 0x1_0000_0000_0000_0000
    ensures Unfold(Fold(x, k), k) == x && Fold(Unfold(x, k), k) == x
  {
    hide Fold, Unfold, Pow2;
    Pow2Values();
    Pow2Monotone(64, 3 * k);
    FoldFits(x, k, 64);
    FoldUndone(x, k);
  }

  lemma Factors(x: u64)
    ensures Times(Times(x, 0xBF58_476D_1CE4_E5B9), 0x96DE_1B17_3F11_9089) == x
    ensures Times(Times(x, 0x96DE_1B17_3F11_9089), 0xBF58_476D_1CE4_E5B9) == x
    ensures Times(Times(x, 0x94D0_49BB_1331_11EB), 0x3196_42B2_D24D_8EC3) == x
    ensures Times(Times(x, 0x3196_42B2_D24D_8EC3), 0x94D0_49BB_1331_11EB) == x
  {
    hide Times;
    TimesUndone(x, 0xBF58_476D_1CE4_E5B9, 0x96DE_1B17_3F11_9089, 0x70C3_BCA7_8F27_F46C);
    TimesUndone(x, 0x96DE_1B17_3F11_9089, 0xBF58_476D_1CE4_E5B9, 0x70C3_BCA7_8F27_F46C);
    TimesUndone(x, 0x94D0_49BB_1331_11EB, 0x3196_42B2_D24D_8EC3, 0x1CD3_36ED_A85F_1453);
    TimesUndone(x, 0x3196_42B2_D24D_8EC3, 0x94D0_49BB_1331_11EB, 0x1CD3_36ED_A85F_1453);
  }

  method Mix64(value: u64) returns (r: u64)
    ensures r == Mix(value)
  {
    hide Xor, Shift, Times;
    var x: nat := value;
    Folds(x, 30);
    x := Xor(x, Shift(x, 30));
    x := Times(x, 0xBF58_476D_1CE4_E5B9);
    Folds(x, 27);
    x := Xor(x, Shift(x, 27));
    x := Times(x, 0x94D0_49BB_1331_11EB);
    Folds(x, 31);
    x := Xor(x, Shift(x, 31));
    r := x;
  }

  function Mix(x: u64): (r: u64) {
    var a := Times(Fold(x, 30), 0xBF58_476D_1CE4_E5B9);
    var b := Times(Fold(a, 27), 0x94D0_49BB_1331_11EB);
    Folds(b, 31);
    Fold(b, 31)
  }

  function Unmix(x: u64): (r: u64) {
    var b := Times(Unfold(x, 31), 0x3196_42B2_D24D_8EC3);
    var a := Times(Unfold(b, 27), 0x96DE_1B17_3F11_9089);
    Folds(a, 30);
    Unfold(a, 30)
  }

  /** The finalizer is a bijection, with its inverse written out. */
  lemma MixIsABijection(x: u64)
    ensures Unmix(Mix(x)) == x
    ensures Mix(Unmix(x)) == x
  {
    MixUndone(x);
    UnmixUndone(x);
  }

  lemma MixUndone(x: u64)
    ensures Unmix(Mix(x)) == x
  {
    hide Fold, Unfold, Times;
    Folds(x, 30);
    Factors(Fold(x, 30));
    var a := Times(Fold(x, 30), 0xBF58_476D_1CE4_E5B9);
    Folds(a, 27);
    Factors(Fold(a, 27));
    Folds(Times(Fold(a, 27), 0x94D0_49BB_1331_11EB), 31);
  }

  lemma UnmixUndone(x: u64)
    ensures Mix(Unmix(x)) == x
  {
    hide Fold, Unfold, Times;
    Folds(x, 31);
    Factors(Unfold(x, 31));
    var b := Times(Unfold(x, 31), 0x3196_42B2_D24D_8EC3);
    Folds(b, 27);
    Factors(Unfold(b, 27));
    Folds(Times(Unfold(b, 27), 0x96DE_1B17_3F11_9089), 30);
  }

  // -- the hash ------------------------------------------------------------------------

  function Hash64(data: seq<Octet>): u64 {
    Mix(Fnv(FNV_OFFSET_BASIS, data))
  }

  function Seeded(seed: u64): u64 {
    XorOfWords(FNV_OFFSET_BASIS, seed);
    Xor(FNV_OFFSET_BASIS, seed)
  }

  function Hash64WithSeed(seed: u64, data: seq<Octet>): u64 {
    Mix(Fnv(Seeded(seed), data))
  }

  /** The finalizer neither adds nor hides a collision. */
  lemma CollidesExactly(a: seq<Octet>, b: seq<Octet>)
    ensures Hash64(a) == Hash64(b) <==> Fnv(FNV_OFFSET_BASIS, a) == Fnv(FNV_OFFSET_BASIS, b)
  {
    hide Mix, Unmix, Fnv;
    MixIsABijection(Fnv(FNV_OFFSET_BASIS, a));
    MixIsABijection(Fnv(FNV_OFFSET_BASIS, b));
  }

  lemma SeededTells(s: u64)
    ensures Xor(Seeded(s), FNV_OFFSET_BASIS) == s
  {
    hide Xor;
    XorCommutes(FNV_OFFSET_BASIS, s);
    XorCancels(s, FNV_OFFSET_BASIS);
  }

  /** One key under two seeds has two hashes. */
  lemma SeedsDiffer(s: u64, t: u64, data: seq<Octet>)
    requires s != t
    ensures Hash64WithSeed(s, data) != Hash64WithSeed(t, data)
  {
    hide Mix, Unmix, Fnv, Xor, Seeded;
    var a, b := Seeded(s), Seeded(t);
    MixIsABijection(Fnv(a, data));
    MixIsABijection(Fnv(b, data));
    SeededTells(s);
    SeededTells(t);
    if Fnv(a, data) == Fnv(b, data) {
      FnvInjective(a, b, data);
    }
  }

  /** Two keys that differ in one byte have two hashes, under every seed. */
  lemma OneByteTells(seed: u64, before: seq<Octet>, a: Octet, b: Octet, after: seq<Octet>)
    requires a != b
    ensures Hash64WithSeed(seed, before + [a] + after) != Hash64WithSeed(seed, before + [b] + after)
  {
    hide Mix, Unmix, Xor, Seeded, FnvStep, Fnv, Times;
    var s := Seeded(seed);
    var t := Fnv(s, before);
    SplitAtByte(s, before, a, after);
    SplitAtByte(s, before, b, after);
    FnvStepBack(t, a);
    FnvStepBack(t, b);
    MixIsABijection(Fnv(FnvStep(t, a), after));
    MixIsABijection(Fnv(FnvStep(t, b), after));
    if Fnv(FnvStep(t, a), after) == Fnv(FnvStep(t, b), after) {
      FnvInjective(FnvStep(t, a), FnvStep(t, b), after);
    }
  }

  lemma SplitAtByte(s: u64, before: seq<Octet>, a: Octet, after: seq<Octet>)
    ensures Fnv(s, before + [a] + after) == Fnv(FnvStep(Fnv(s, before), a), after)
  {
    hide FnvStep;
    FnvChains(s, before + [a], after);
    FnvChains(s, before, [a]);
    assert [a][1..] == [];
    assert Fnv(Fnv(s, before), [a]) == Fnv(FnvStep(Fnv(s, before), a), []);
  }

  lemma LetterIn()
    ensures Xor(FNV_OFFSET_BASIS, 0x61) == 0xCBF2_9CE4_8422_2344
  {
    hide Xor;
    XorZero(0xCB_F29C_E484_2223);
    NextDigit(0xCB_F29C_E484_2223, 0x2, 0, 0x6, 0xCB_F29C_E484_2223, 0x4);
    NextDigit(0xCBF_29CE_4842_2232, 0x5, 0x6, 0x1, 0xCBF_29CE_4842_2234, 0x4);
  }

  /** The published value for one letter. */
  lemma KnownHash()
    ensures Fnv(FNV_OFFSET_BASIS, [0x61]) == 0xAF63_DC4C_8601_EC8C
  {
    hide Xor;
    LetterIn();
    assert FnvStep(FNV_OFFSET_BASIS, 0x61) == 0xAF63_DC4C_8601_EC8C;
    assert [0x61][1..] == [];
    hide FnvStep;
    assert Fnv(FNV_OFFSET_BASIS, [0x61]) == Fnv(FnvStep(FNV_OFFSET_BASIS, 0x61), []);
  }

  lemma Powers()
    ensures Pow2(27) == 0x800_0000 && Pow2(30) == 0x4000_0000 && Pow2(31) == 0x8000_0000
  {
    Pow2Values();
    assert Pow2(31) == 2 * Pow2(30) && Pow2(28) == 2 * Pow2(27);
    hide Pow2;
    Pow2Of(27, Pow2(27), 3, 8);
  }

  // The exclusive ors of one run of the finalizer, four bits at a time.

  lemma FirstTop()
    ensures Xor(0xC_BF29_CE48, 0x32) == 0xC_BF29_CE7A
  {
    hide Xor;
    XorZero(0xCBF_29CE);
    NextDigit(0xCBF_29CE, 0x4, 0x0, 0x3, 0xCBF_29CE, 0x7);
    NextDigit(0xCBF2_9CE4, 0x8, 0x3, 0x2, 0xCBF2_9CE7, 0xA);
  }

  lemma FirstHigh()
    ensures Xor(0xCBF_29CE_4842, 0x32FC) == 0xCBF_29CE_7ABE
  {
    hide Xor;
    FirstTop();
    NextDigit(0xC_BF29_CE48, 0x4, 0x32, 0xF, 0xC_BF29_CE7A, 0xB);
    NextDigit(0xCB_F29C_E484, 0x2, 0x32F, 0xC, 0xCB_F29C_E7AB, 0xE);
  }

  lemma FirstLow()
    ensures Xor(0xCBF2_9CE4_8422_2325, 0x3_2FCA_7392) == 0xCBF2_9CE7_ABE8_50B7
  {
    hide Xor;
    FirstHigh();
    NextDigit(0xCBF_29CE_4842, 0x2, 0x32FC, 0xA, 0xCBF_29CE_7ABE, 0x8);
    NextDigit(0xCBF2_9CE4_8422, 0x2, 0x3_2FCA, 0x7, 0xCBF2_9CE7_ABE8, 0x5);
    NextDigit(0xC_BF29_CE48_4222, 0x3, 0x32_FCA7, 0x3, 0xC_BF29_CE7A_BE85, 0x0);
    NextDigit(0xCB_F29C_E484_2223, 0x2, 0x32F_CA73, 0x9, 0xCB_F29C_E7AB_E850, 0xB);
    NextDigit(0xCBF_29CE_4842_2232, 0x5, 0x32FC_A739, 0x2, 0xCBF_29CE_7ABE_850B, 0x7);
  }

  lemma FirstFold()
    ensures Fold(0xCBF2_9CE4_8422_2325, 30) == 0xCBF2_9CE7_ABE8_50B7
  {
    hide Xor, Shift, Pow2;
    Powers();
    ShiftIs(0xCBF2_9CE4_8422_2325, 30, 0x3_2FCA_7392, 0x422_2325);
    FirstLow();
  }

  lemma SecondTop()
    ensures Xor(0x6_6064_2D8F, 0xCC) == 0x6_6064_2D43
  {
    hide Xor;
    XorZero(0x660_642D);
    NextDigit(0x660_642D, 0x8, 0x0, 0xC, 0x660_642D, 0x4);
    NextDigit(0x6606_42D8, 0xF, 0xC, 0xC, 0x6606_42D4, 0x3);
  }

  lemma SecondHigh()
    ensures Xor(0x660_642D_8F21, 0xCC0C) == 0x660_642D_432D
  {
    hide Xor;
    SecondTop();
    NextDigit(0x6_6064_2D8F, 0x2, 0xCC, 0x0, 0x6_6064_2D43, 0x2);
    NextDigit(0x66_0642_D8F2, 0x1, 0xCC0, 0xC, 0x66_0642_D432, 0xD);
  }

  lemma SecondLow()
    ensures Xor(0x6606_42D8_F212_073F, 0xC_C0C8_5B1E) == 0x6606_42D4_32DA_5C21
  {
    hide Xor;
    SecondHigh();
    NextDigit(0x660_642D_8F21, 0x2, 0xCC0C, 0x8, 0x660_642D_432D, 0xA);
    NextDigit(0x6606_42D8_F212, 0x0, 0xC_C0C8, 0x5, 0x6606_42D4_32DA, 0x5);
    NextDigit(0x6_6064_2D8F_2120, 0x7, 0xCC_0C85, 0xB, 0x6_6064_2D43_2DA5, 0xC);
    NextDigit(0x66_0642_D8F2_1207, 0x3, 0xCC0_C85B, 0x1, 0x66_0642_D432_DA5C, 0x2);
    NextDigit(0x660_642D_8F21_2073, 0xF, 0xCC0C_85B1, 0xE, 0x660_642D_432D_A5C2, 0x1);
  }

  lemma SecondFold()
    ensures Fold(0x6606_42D8_F212_073F, 27) == 0x6606_42D4_32DA_5C21
  {
    hide Xor, Shift, Pow2;
    Powers();
    ShiftIs(0x6606_42D8_F212_073F, 27, 0xC_C0C8_5B1E, 0x212_073F);
    SecondLow();
  }

  lemma ThirdTop()
    ensures Xor(0xF_52A1_5E84, 0x1E) == 0xF_52A1_5E9A
  {
    hide Xor;
    XorZero(0xF52_A15E);
    NextDigit(0xF52_A15E, 0x8, 0x0, 0x1, 0xF52_A15E, 0x9);
    NextDigit(0xF52A_15E8, 0x4, 0x1, 0xE, 0xF52A_15E9, 0xA);
  }

  lemma ThirdHigh()
    ensures Xor(0xF52_A15E_843E, 0x1EA5) == 0xF52_A15E_9A9B
  {
    hide Xor;
    ThirdTop();
    NextDigit(0xF_52A1_5E84, 0x3, 0x1E, 0xA, 0xF_52A1_5E9A, 0x9);
    NextDigit(0xF5_2A15_E843, 0xE, 0x1EA, 0x5, 0xF5_2A15_E9A9, 0xB);
  }

  lemma ThirdLow()
    ensures Xor(0xF52A_15E8_43E1_C34B, 0x1_EA54_2BD0) == 0xF52A_15E9_A9B5_E89B
  {
    hide Xor;
    ThirdHigh();
    NextDigit(0xF52_A15E_843E, 0x1, 0x1EA5, 0x4, 0xF52_A15E_9A9B, 0x5);
    NextDigit(0xF52A_15E8_43E1, 0xC, 0x1_EA54, 0x2, 0xF52A_15E9_A9B5, 0xE);
    NextDigit(0xF_52A1_5E84_3E1C, 0x3, 0x1E_A542, 0xB, 0xF_52A1_5E9A_9B5E, 0x8);
    NextDigit(0xF5_2A15_E843_E1C3, 0x4, 0x1EA_542B, 0xD, 0xF5_2A15_E9A9_B5E8, 0x9);
    NextDigit(0xF52_A15E_843E_1C34, 0xB, 0x1EA5_42BD, 0x0, 0xF52_A15E_9A9B_5E89, 0xB);
  }

  lemma ThirdFold()
    ensures Fold(0xF52A_15E8_43E1_C34B, 31) == 0xF52A_15E9_A9B5_E89B
  {
    hide Xor, Shift, Pow2;
    Powers();
    ShiftIs(0xF52A_15E8_43E1_C34B, 31, 0x1_EA54_2BD0, 0x43E1_C34B);
    ThirdLow();
  }

  /** The frozen value of the whole hash for no bytes at all. */
  lemma KnownFinalizer()
    ensures Hash64([]) == 0xF52A_15E9_A9B5_E89B
  {
    hide Fold;
    FirstFold();
    SecondFold();
    ThirdFold();
    assert Times(0xCBF2_9CE7_ABE8_50B7, 0xBF58_476D_1CE4_E5B9) == 0x6606_42D8_F212_073F;
    assert Times(0x6606_42D4_32DA_5C21, 0x94D0_49BB_1331_11EB) == 0xF52A_15E8_43E1_C34B;
  }
}
