/** CRC32C: the reflected Castagnoli checksum, by shift register and by tables.

The definition is the shift register: one bit of the message enters at a time, lowest bit of each
byte first. The implementation reads eight bytes per turn out of eight tables. That they agree, for
every starting value and every length, rests on one fact: a register step is linear over exclusive
or, so the bytes of a word can be advanced separately and put back together.
*/
module Crc32c {
  const POLYNOMIAL: bv32 := 0x82F6_3B78

  // -- words ---------------------------------------------------------------------------
  //
  // The word operations carry names so that proofs about the algorithm can work from their laws
  // and leave the bits alone.

  function Xor(a: bv32, b: bv32): bv32 { a ^ b }

  function Not(a: bv32): bv32 { !a }

  function Half(a: bv32): bv32 { a >> 1 }

  function Double(a: bv32): bv32 { a << 1 }

  function And(a: bv32, b: bv32): bv32 { a & b }

  function Wide(b: bv8): bv32 { b as bv32 }

  predicate Odd(a: bv32) { a & 1 == 1 }

  lemma NotNot(a: bv32)
    ensures Not(Not(a)) == a
  {
  }

  lemma XorBits(a: bv32, b: bv32, c: bv32)
    ensures (a ^ b) ^ c == a ^ (b ^ c) && a ^ b == b ^ a && (a ^ b) ^ b == a && a ^ 0 == a && a ^ a == 0
    ensures (a ^ b) >> 1 == (a >> 1) ^ (b >> 1)
  {
  }

  lemma XorAssoc(a: bv32, b: bv32, c: bv32)
    ensures Xor(Xor(a, b), c) == Xor(a, Xor(b, c))
  {
    XorBits(a, b, c);
  }

  lemma XorLaws(a: bv32, b: bv32)
    ensures Xor(a, b) == Xor(b, a) && Xor(Xor(a, b), b) == a && Xor(a, 0) == a && Xor(a, a) == 0
  {
    XorBits(a, b, 0);
  }

  lemma HalfXor(a: bv32, b: bv32)
    ensures Half(Xor(a, b)) == Xor(Half(a), Half(b))
  {
    XorBits(a, b, 0);
  }

  lemma OddBits(a: bv32, b: bv32)
    ensures (a ^ b) & 1 == (a & 1) ^ (b & 1)
    ensures a & 1 == 0 || a & 1 == 1
  {
  }

  lemma OddXor(a: bv32, b: bv32)
    ensures Odd(Xor(a, b)) <==> (Odd(a) != Odd(b))
  {
    OddBits(a, b);
    OddBits(b, a);
  }

  // -- the definition ------------------------------------------------------------------

  /** The register shifted once; what falls out decides whether the polynomial is folded in. */
  function Step(c: bv32): bv32 {
    if Odd(c) then Xor(Half(c), POLYNOMIAL) else Half(c)
  }

  function Bit(b: bool): bv32 {
    if b then 1 else 0
  }

  /** The register after a run of message bits. */
  function Register(c: bv32, bits: seq<bool>): bv32
    decreases |bits|
  {
    if bits == [] then c else Register(Step(Xor(c, Bit(bits[0]))), bits[1..])
  }

  /** The `n` lowest bits of a word, lowest first. */
  function LowBits(n: nat, w: bv32): (bits: seq<bool>)
    ensures |bits| == n
  {
    if n == 0 then [] else [Odd(w)] + LowBits(n - 1, Half(w))
  }

  function Bits(data: seq<bv8>): (bits: seq<bool>)
    ensures |bits| == 8 * |data|
  {
    if data == [] then [] else LowBits(8, Wide(data[0])) + Bits(data[1..])
  }

  /** The checksum, continued from `prev`. The register holds the complement of what is reported. */
  function Crc(prev: bv32, data: seq<bv8>): bv32 {
    Not(Register(Not(prev), Bits(data)))
  }

  // -- linearity -----------------------------------------------------------------------

  lemma StepLinear(a: bv32, b: bv32)
    ensures Step(Xor(a, b)) == Xor(Step(a), Step(b))
  {
    hide Xor, Half, Odd;
    OddXor(a, b);
    HalfXor(a, b);
    var x, y, p := Half(a), Half(b), POLYNOMIAL;
    XorAssoc(x, p, Xor(y, p));
    XorAssoc(x, y, p);
    XorAssoc(x, p, y);
    XorAssoc(p, y, p);
    XorLaws(p, y);
    XorLaws(y, p);
  }

  /** The register shifted `n` times with nothing coming in. */
  function Steps(n: nat, c: bv32): bv32 {
    if n == 0 then c else Steps(n - 1, Step(c))
  }

  lemma {:induction false} StepsLinear(n: nat, a: bv32, b: bv32)
    ensures Steps(n, Xor(a, b)) == Xor(Steps(n, a), Steps(n, b))
  {
    hide Step, Xor;
    if n > 0 {
      StepLinear(a, b);
      StepsLinear(n - 1, Step(a), Step(b));
    }
  }

  lemma {:induction false} StepsAdd(m: nat, n: nat, c: bv32)
    ensures Steps(m + n, c) == Steps(n, Steps(m, c))
  {
    hide Step;
    if m > 0 {
      StepsAdd(m - 1, n, Step(c));
    }
  }

  lemma {:induction false} RegisterConcat(c: bv32, a: seq<bool>, b: seq<bool>)
    ensures Register(c, a + b) == Register(Register(c, a), b)
    decreases |a|
  {
    hide Step, Xor, Bit;
    if a == [] {
      assert a + b == b;
    } else {
      assert (a + b)[1..] == a[1..] + b;
      RegisterConcat(Step(Xor(c, Bit(a[0]))), a[1..], b);
    }
  }

  lemma {:induction false} BitsConcat(a: seq<bv8>, b: seq<bv8>)
    ensures Bits(a + b) == Bits(a) + Bits(b)
  {
    hide LowBits, Wide;
    if a == [] {
      assert a + b == b;
    } else {
      assert (a + b)[1..] == a[1..] + b;
      BitsConcat(a[1..], b);
    }
  }

  /** Checksumming in pieces changes nothing. */
  lemma CrcChains(prev: bv32, a: seq<bv8>, b: seq<bv8>)
    ensures Crc(Crc(prev, a), b) == Crc(prev, a + b)
  {
    hide Not, Register, Bits;
    BitsConcat(a, b);
    RegisterConcat(Not(prev), Bits(a), Bits(b));
    NotNot(Register(Not(prev), Bits(a)));
  }

  // -- a run of bits as a word ---------------------------------------------------------

  /** A run of bits as a word, first bit lowest. */
  function Pack(bits: seq<bool>): bv32 {
    if bits == [] then 0 else Xor(Bit(bits[0]), Double(Pack(bits[1..])))
  }

  function Halves(n: nat, w: bv32): bv32 {
    if n == 0 then w else Halves(n - 1, Half(w))
  }

  lemma {:induction false} HalvesAdd(m: nat, n: nat, w: bv32)
    ensures Halves(m + n, w) == Halves(n, Halves(m, w))
  {
    hide Half;
    if m > 0 {
      HalvesAdd(m - 1, n, Half(w));
    }
  }

  function ShiftByte(w: bv32): bv32 { w >> 8 }

  lemma EightHalves(w: bv32)
    ensures Half(Half(Half(Half(Half(Half(Half(Half(w)))))))) == ShiftByte(w)
  {
  }

  lemma FourHalves(n: nat, w: bv32)
    requires n >= 4
    ensures Halves(n, w) == Halves(n - 4, Half(Half(Half(Half(w)))))
  {
    hide Half;
    var v := Half(Half(w));
    assert Halves(n, w) == Halves(n - 2, v);
    assert Halves(n - 2, v) == Halves(n - 4, Half(Half(v)));
  }

  lemma HalvesByEight(w: bv32)
    ensures Halves(8, w) == ShiftByte(w)
  {
    hide Half, ShiftByte;
    EightHalves(w);
    FourHalves(8, w);
    FourHalves(4, Half(Half(Half(Half(w)))));
  }

  lemma HalvesOfBytes(w: bv32)
    ensures Halves(16, w) == ShiftByte(ShiftByte(w))
    ensures Halves(24, w) == ShiftByte(ShiftByte(ShiftByte(w)))
    ensures Halves(32, w) == ShiftByte(ShiftByte(ShiftByte(ShiftByte(w))))
  {
    hide Halves, ShiftByte;
    HalvesAdd(8, 8, w);
    HalvesAdd(16, 8, w);
    HalvesAdd(24, 8, w);
    HalvesByEight(w);
    HalvesByEight(ShiftByte(w));
    HalvesByEight(ShiftByte(ShiftByte(w)));
    HalvesByEight(ShiftByte(ShiftByte(ShiftByte(w))));
  }

  lemma FourBytesEmpty(w: bv32)
    ensures ShiftByte(ShiftByte(ShiftByte(ShiftByte(w)))) == 0
  {
  }

  lemma OneByteEmpties(b: bv8)
    ensures ShiftByte(Wide(b)) == 0
  {
  }

  /** A word that is used up after thirty-one shifts can be doubled without loss. */
  lemma Doubles(w: bv32)
    requires Half(Half(Half(Half(Half(Half(Half(ShiftByte(ShiftByte(ShiftByte(w)))))))))) == 0
    ensures Half(Double(w)) == w
  {
  }

  lemma {:induction false} HalvesOfZero(n: nat)
    ensures Halves(n, 0) == 0
  {
    if n > 0 {
      HalvesOfZero(n - 1);
    }
  }

  lemma RoomToDouble(n: nat, w: bv32)
    requires n < 32 && Halves(n, w) == 0
    ensures Half(Double(w)) == w
  {
    hide Half, ShiftByte, Double;
    HalvesAdd(n, 31 - n, w);
    HalvesOfZero(31 - n);
    HalvesAdd(24, 7, w);
    HalvesOfBytes(w);
    var v := ShiftByte(ShiftByte(ShiftByte(w)));
    FourHalves(7, v);
    v := Half(Half(Half(Half(v))));
    assert Halves(3, v) == Halves(1, Half(Half(v)));
    Doubles(w);
  }

  lemma SplitOdd(w: bv32)
    requires Odd(w)
    ensures w == Xor(1, Double(Half(w)))
  {
  }

  lemma SplitEven(w: bv32)
    requires !Odd(w)
    ensures w == Xor(0, Double(Half(w)))
  {
  }

  lemma Split(w: bv32)
    ensures w == Xor(Bit(Odd(w)), Double(Half(w)))
  {
    hide Xor, Double, Half, Odd;
    if Odd(w) {
      SplitOdd(w);
    } else {
      SplitEven(w);
    }
  }

  lemma StepOfRest(w: bv32)
    ensures Step(Double(Half(w))) == Half(w)
  {
  }

  /** Shifting a word in bit by bit is folding it in at once and shifting; what has not come in yet
      is left over. */
  lemma {:induction false} RegisterOfWord(n: nat, c: bv32, w: bv32)
    ensures Steps(n, Xor(c, w)) == Xor(Register(c, LowBits(n, w)), Halves(n, w))
  {
    hide Xor, Double, Half, Odd, Step, Bit;
    if n > 0 {
      var low, rest := Bit(Odd(w)), Double(Half(w));
      Split(w);
      XorAssoc(c, low, rest);
      StepLinear(Xor(c, low), rest);
      StepOfRest(w);
      RegisterOfWord(n - 1, Step(Xor(c, low)), Half(w));
      assert LowBits(n, w)[1..] == LowBits(n - 1, Half(w));
    }
  }

  lemma PushOne(a: bv32)
    requires Half(Double(a)) == a
    ensures Odd(Xor(1, Double(a))) && Half(Xor(1, Double(a))) == a
  {
  }

  lemma PushZero(a: bv32)
    requires Half(Double(a)) == a
    ensures !Odd(Xor(0, Double(a))) && Half(Xor(0, Double(a))) == a
  {
  }

  /** A run of up to thirty-two bits fits its word and is read back from it. */
  lemma {:induction false} Packed(bits: seq<bool>)
    requires |bits| <= 32
    ensures Halves(|bits|, Pack(bits)) == 0
    ensures LowBits(|bits|, Pack(bits)) == bits
  {
    hide Xor, Double, Half, Odd;
    if bits != [] {
      var rest := Pack(bits[1..]);
      Packed(bits[1..]);
      RoomToDouble(|bits| - 1, rest);
      if bits[0] {
        PushOne(rest);
      } else {
        PushZero(rest);
      }
      assert bits == [bits[0]] + bits[1..];
    }
  }

  lemma RegisterIsSteps(c: bv32, bits: seq<bool>)
    requires |bits| <= 32
    ensures Register(c, bits) == Steps(|bits|, Xor(c, Pack(bits)))
  {
    hide Xor, Register, Steps, Pack, LowBits, Halves;
    Packed(bits);
    RegisterOfWord(|bits|, c, Pack(bits));
    XorLaws(Register(c, bits), 0);
  }

  // -- what a checksum catches ---------------------------------------------------------

  function Back(c: bv32): bv32 {
    if And(c, 0x8000_0000) == 0 then Double(c) else Xor(1, Double(Xor(c, POLYNOMIAL)))
  }

  /** A step can be taken back: the polynomial's top bit says whether it was folded in. */
  lemma StepBack(c: bv32)
    ensures Back(Step(c)) == c
  {
  }

  lemma {:induction false} StepsInjective(n: nat, c: bv32, d: bv32)
    requires Steps(n, c) == Steps(n, d)
    ensures c == d
  {
    hide Step, Back;
    if n > 0 {
      StepsInjective(n - 1, Step(c), Step(d));
      StepBack(c);
      StepBack(d);
    }
  }

  lemma {:induction false} RegisterInjective(c: bv32, d: bv32, bits: seq<bool>)
    requires Register(c, bits) == Register(d, bits)
    ensures c == d
    decreases |bits|
  {
    hide Step, Back, Xor, Bit;
    if bits != [] {
      var e := Bit(bits[0]);
      RegisterInjective(Step(Xor(c, e)), Step(Xor(d, e)), bits[1..]);
      StepBack(Xor(c, e));
      StepBack(Xor(d, e));
      XorLaws(c, e);
      XorLaws(d, e);
    }
  }

  /** Two runs of up to thirty-two bits leave different registers, whatever surrounds them. */
  lemma BurstIsSeen(c: bv32, before: seq<bool>, s: seq<bool>, t: seq<bool>, after: seq<bool>)
    requires |s| == |t| <= 32 && s != t
    ensures Register(c, before + s + after) != Register(c, before + t + after)
  {
    hide Xor, Register, Steps, Pack, LowBits, Halves;
    var d := Register(c, before);
    RegisterConcat(c, before + s, after);
    RegisterConcat(c, before + t, after);
    RegisterConcat(c, before, s);
    RegisterConcat(c, before, t);
    if Register(c, before + s + after) == Register(c, before + t + after) {
      RegisterInjective(Register(d, s), Register(d, t), after);
      RegisterIsSteps(d, s);
      RegisterIsSteps(d, t);
      StepsInjective(|s|, Xor(d, Pack(s)), Xor(d, Pack(t)));
      XorLaws(Pack(s), d);
      XorLaws(Pack(t), d);
      Packed(s);
      Packed(t);
    }
  }

  lemma WideInjective(a: bv8, b: bv8)
    requires Wide(a) == Wide(b)
    ensures a == b
  {
  }

  /** A byte goes through the register as a word of its own. */
  lemma RegisterOfByte(c: bv32, b: bv8)
    ensures Register(c, LowBits(8, Wide(b))) == Steps(8, Xor(c, Wide(b)))
  {
    hide Xor, Register, Steps, LowBits, Halves, Wide, ShiftByte;
    RegisterOfWord(8, c, Wide(b));
    HalvesByEight(Wide(b));
    OneByteEmpties(b);
    XorLaws(Register(c, LowBits(8, Wide(b))), 0);
  }

  lemma ByteBitsInjective(a: bv8, b: bv8)
    requires LowBits(8, Wide(a)) == LowBits(8, Wide(b))
    ensures a == b
  {
    hide Xor, Register, Steps, LowBits, Wide;
    RegisterOfByte(0, a);
    RegisterOfByte(0, b);
    StepsInjective(8, Xor(0, Wide(a)), Xor(0, Wide(b)));
    XorLaws(0, Wide(a));
    XorLaws(0, Wide(b));
    XorLaws(Wide(a), 0);
    XorLaws(Wide(b), 0);
    WideInjective(a, b);
  }

  lemma {:induction false} BitsInjective(a: seq<bv8>, b: seq<bv8>)
    requires |a| == |b| && Bits(a) == Bits(b)
    ensures a == b
  {
    hide LowBits, Wide;
    if a != [] {
      assert Bits(a)[..8] == LowBits(8, Wide(a[0])) && Bits(b)[..8] == LowBits(8, Wide(b[0]));
      assert Bits(a)[8..] == Bits(a[1..]) && Bits(b)[8..] == Bits(b[1..]);
      ByteBitsInjective(a[0], b[0]);
      BitsInjective(a[1..], b[1..]);
      assert a == [a[0]] + a[1..] && b == [b[0]] + b[1..];
    }
  }

  /** Damage confined to any thirty-two consecutive bits always changes the checksum. */
  lemma BurstIsCaught(prev: bv32, a: seq<bv8>, b: seq<bv8>, i: nat)
    requires |a| == |b| && a != b
    requires forall k :: 0 <= k < 8 * |a| && !(i <= k < i + 32) ==> Bits(a)[k] == Bits(b)[k]
    ensures Crc(prev, a) != Crc(prev, b)
  {
    hide Register, Bits, Not;
    var x, y, n := Bits(a), Bits(b), 8 * |a|;
    var from := if i < n then i else n;
    var to := if i + 32 < n then i + 32 else n;
    if x == y {
      BitsInjective(a, b);
    }
    assert x == x[..from] + x[from..to] + x[to..];
    assert y == x[..from] + y[from..to] + x[to..];
    BurstIsSeen(Not(prev), x[..from], x[from..to], y[from..to], x[to..]);
    NotNot(Register(Not(prev), x));
    NotNot(Register(Not(prev), y));
  }

  // -- by tables -----------------------------------------------------------------------

  function LowByte(w: bv32): bv32 { And(w, 0xFF) }

  ghost predicate Ones(n: nat, m: bv32) {
    n == 0 || (Odd(m) && Ones(n - 1, Half(m)))
  }

  lemma HalfAnd(a: bv32, b: bv32)
    ensures Half(And(a, b)) == And(Half(a), Half(b))
  {
  }

  lemma OddAnd(a: bv32, b: bv32)
    requires Odd(b)
    ensures Odd(And(a, b)) == Odd(a)
  {
  }

  lemma {:induction false} LowBitsAnd(n: nat, a: bv32, m: bv32)
    requires Ones(n, m)
    ensures LowBits(n, And(a, m)) == LowBits(n, a)
  {
    hide And, Half, Odd;
    if n > 0 {
      OddAnd(a, m);
      HalfAnd(a, m);
      LowBitsAnd(n - 1, Half(a), Half(m));
    }
  }

  lemma EightOnes()
    ensures Ones(8, 0xFF)
  {
    assert Half(0xFF) == 0x7F && Half(0x7F) == 0x3F && Half(0x3F) == 0x1F && Half(0x1F) == 0xF;
    assert Ones(4, 0xF);
    assert Ones(6, 0x3F);
  }

  lemma LowByteBits(w: bv32)
    ensures LowBits(8, LowByte(w)) == LowBits(8, w)
    ensures ShiftByte(LowByte(w)) == 0
  {
    EightOnes();
    LowBitsAnd(8, w, 0xFF);
    LowByteEmpties(w);
  }

  lemma LowByteEmpties(w: bv32)
    ensures ShiftByte(LowByte(w)) == 0
  {
  }

  /** Eight steps shift out the low byte and fold in what that byte alone would have left. */
  lemma Advance(w: bv32)
    ensures Steps(8, w) == Xor(ShiftByte(w), Steps(8, LowByte(w)))
  {
    hide Xor, Register, Steps, LowBits, Halves, LowByte, ShiftByte;
    var r := Register(0, LowBits(8, w));
    RegisterOfWord(8, 0, w);
    RegisterOfWord(8, 0, LowByte(w));
    LowByteBits(w);
    HalvesByEight(w);
    HalvesByEight(LowByte(w));
    XorLaws(r, 0);
    XorLaws(r, ShiftByte(w));
    XorLaws(w, 0);
    XorLaws(0, w);
    XorLaws(LowByte(w), 0);
    XorLaws(0, LowByte(w));
  }

  lemma AdvanceMore(n: nat, w: bv32)
    ensures Steps(8 + n, w) == Xor(Steps(8 + n, LowByte(w)), Steps(n, ShiftByte(w)))
  {
    hide Xor, Steps, LowByte, ShiftByte;
    Advance(w);
    StepsAdd(8, n, w);
    StepsAdd(8, n, LowByte(w));
    StepsLinear(n, ShiftByte(w), Steps(8, LowByte(w)));
    XorLaws(Steps(n, ShiftByte(w)), Steps(8 + n, LowByte(w)));
  }

  lemma StepOfZero()
    ensures Step(0) == 0
  {
  }

  lemma {:induction false} StepsOfZero(n: nat)
    ensures Steps(n, 0) == 0
  {
    hide Step;
    if n > 0 {
      StepOfZero();
      StepsOfZero(n - 1);
    }
  }

  lemma FoldByte(acc: bv32, n: nat, w: bv32)
    ensures Xor(acc, Steps(8 + n, w)) == Xor(Xor(acc, Steps(8 + n, LowByte(w))), Steps(n, ShiftByte(w)))
  {
    hide Xor, Steps, LowByte, ShiftByte;
    AdvanceMore(n, w);
    XorAssoc(acc, Steps(8 + n, LowByte(w)), Steps(n, ShiftByte(w)));
  }

  /** A word is advanced byte by byte, each byte as far as it still has to go. */
  lemma FoldWord(acc: bv32, n: nat, w: bv32)
    ensures Xor(Xor(Xor(Xor(acc, Steps(32 + n, LowByte(w))),
                        Steps(24 + n, LowByte(ShiftByte(w)))),
                    Steps(16 + n, LowByte(ShiftByte(ShiftByte(w))))),
                Steps(8 + n, LowByte(ShiftByte(ShiftByte(ShiftByte(w))))))
            == Xor(acc, Steps(32 + n, w))
  {
    hide Xor, Steps, LowByte, ShiftByte;
    var w1 := ShiftByte(w);
    var w2 := ShiftByte(w1);
    var w3 := ShiftByte(w2);
    FoldByte(acc, 24 + n, w);
    var a1 := Xor(acc, Steps(32 + n, LowByte(w)));
    FoldByte(a1, 16 + n, w1);
    var a2 := Xor(a1, Steps(24 + n, LowByte(w1)));
    FoldByte(a2, 8 + n, w2);
    var a3 := Xor(a2, Steps(16 + n, LowByte(w2)));
    FoldByte(a3, n, w3);
    FourBytesEmpty(w);
    StepsOfZero(n);
    XorLaws(Xor(a3, Steps(8 + n, LowByte(w3))), 0);
  }

  function LittleEndian(a: bv8, b: bv8, c: bv8, d: bv8): bv32 {
    (a as bv32) | ((b as bv32) << 8) | ((c as bv32) << 16) | ((d as bv32) << 24)
  }

  lemma LittleEndianBytes(a: bv8, b: bv8, c: bv8, d: bv8)
    ensures var w := LittleEndian(a, b, c, d);
            && LowByte(w) == Wide(a)
            && LowByte(ShiftByte(w)) == Wide(b)
            && LowByte(ShiftByte(ShiftByte(w))) == Wide(c)
            && LowByte(ShiftByte(ShiftByte(ShiftByte(w)))) == Wide(d)
  {
  }

  lemma {:induction false} LowBitsSplit(m: nat, n: nat, w: bv32)
    ensures LowBits(m + n, w) == LowBits(m, w) + LowBits(n, Halves(m, w))
  {
    hide Half, Odd;
    if m == 0 {
      assert LowBits(0, w) + LowBits(n, w) == LowBits(n, w);
    } else {
      LowBitsSplit(m - 1, n, Half(w));
    }
  }

  lemma BitsOfFour(a: bv8, b: bv8, c: bv8, d: bv8)
    ensures Bits([a, b, c, d])
            == LowBits(8, Wide(a)) + (LowBits(8, Wide(b)) + (LowBits(8, Wide(c)) + LowBits(8, Wide(d))))
  {
    hide LowBits, Wide;
    assert [a, b, c, d][1..] == [b, c, d] && [b, c, d][1..] == [c, d] && [c, d][1..] == [d];
    assert Bits([d]) == LowBits(8, Wide(d));
    assert Bits([c, d]) == LowBits(8, Wide(c)) + Bits([d]);
    assert Bits([b, c, d]) == LowBits(8, Wide(b)) + Bits([c, d]);
  }

  lemma WordBits(a: bv8, b: bv8, c: bv8, d: bv8)
    ensures LowBits(32, LittleEndian(a, b, c, d)) == Bits([a, b, c, d])
  {
    hide LowBits, Wide, Halves, ShiftByte, LowByte, Bits, LittleEndian;
    var w := LittleEndian(a, b, c, d);
    var w1 := ShiftByte(w);
    var w2 := ShiftByte(w1);
    LittleEndianBytes(a, b, c, d);
    BitsOfFour(a, b, c, d);
    LowBitsSplit(8, 24, w);
    LowBitsSplit(8, 16, w1);
    LowBitsSplit(8, 8, w2);
    HalvesByEight(w);
    HalvesByEight(w1);
    HalvesByEight(w2);
    LowByteBits(w);
    LowByteBits(w1);
    LowByteBits(w2);
    LowByteBits(ShiftByte(w2));
  }

  /** Four bytes go through the register as one word. */
  lemma RegisterOfFour(r: bv32, a: bv8, b: bv8, c: bv8, d: bv8)
    ensures Register(r, Bits([a, b, c, d])) == Steps(32, Xor(r, LittleEndian(a, b, c, d)))
  {
    hide LowBits, Wide, Halves, ShiftByte, Bits, LittleEndian, Xor, Register, Steps;
    var w := LittleEndian(a, b, c, d);
    WordBits(a, b, c, d);
    RegisterOfWord(32, r, w);
    HalvesOfBytes(w);
    FourBytesEmpty(w);
    XorLaws(Register(r, LowBits(32, w)), 0);
  }

  lemma RegisterOfEight(r: bv32, s: seq<bv8>)
    requires |s| == 8
    ensures Register(r, Bits(s))
            == Xor(Steps(64, Xor(LittleEndian(s[0], s[1], s[2], s[3]), r)),
                   Steps(32, LittleEndian(s[4], s[5], s[6], s[7])))
  {
    hide LowBits, Wide, Halves, ShiftByte, Bits, LittleEndian, Xor, Register, Steps;
    var low, high := LittleEndian(s[0], s[1], s[2], s[3]), LittleEndian(s[4], s[5], s[6], s[7]);
    var s0, s1 := [s[0], s[1], s[2], s[3]], [s[4], s[5], s[6], s[7]];
    assert s == s0 + s1;
    BitsConcat(s0, s1);
    RegisterConcat(r, Bits(s0), Bits(s1));
    RegisterOfFour(r, s[0], s[1], s[2], s[3]);
    RegisterOfFour(Register(r, Bits(s0)), s[4], s[5], s[6], s[7]);
    XorLaws(low, r);
    StepsLinear(32, Steps(32, Xor(low, r)), high);
    StepsAdd(32, 32, Xor(low, r));
  }

  function Word(i: nat): bv32
    requires i < 256
  {
    i as bv32
  }

  function Value(w: bv32): nat { w as nat }

  /** Byte `index` of a word, as a table index. */
  function ByteOf(word: bv32, index: nat): nat
    requires index < 4
  {
    Value(LowByte(word >> (8 * index)))
  }

  lemma WordOfValue(w: bv32)
    requires Value(w) < 256
    ensures Word(Value(w)) == w
  {
  }

  lemma LowByteIsSmall(w: bv32)
    ensures Value(LowByte(w)) < 256
  {
  }

  lemma BytesOf(w: bv32)
    ensures ByteOf(w, 0) == Value(LowByte(w))
    ensures ByteOf(w, 1) == Value(LowByte(ShiftByte(w)))
    ensures ByteOf(w, 2) == Value(LowByte(ShiftByte(ShiftByte(w))))
    ensures ByteOf(w, 3) == Value(LowByte(ShiftByte(ShiftByte(ShiftByte(w)))))
  {
  }

  /** Table `k` holds what each byte contributes once `k` more bytes have followed it. */
  ghost predicate Built(tables: array2<bv32>)
    reads tables
  {
    && tables.Length0 == 8 && tables.Length1 == 256
    && forall k, i :: 0 <= k < 8 && 0 <= i < 256 ==> tables[k, i] == Steps(8 * k + 8, Word(i))
  }

  lemma OneMore(n: nat, c: bv32)
    ensures Steps(n + 1, c) == Step(Steps(n, c))
  {
    hide Step;
    StepsAdd(n, 1, c);
    assert Steps(1, Steps(n, c)) == Steps(0, Step(Steps(n, c)));
  }

  method BuildTables() returns (tables: array2<bv32>)
    ensures fresh(tables) && Built(tables)
  {
    hide Xor, Half, Odd, ShiftByte, LowByte, Word, Value, Steps;
    tables := new bv32[8, 256];
    for byte := 0 to 256
      invariant forall i :: 0 <= i < byte ==> tables[0, i] == Steps(8, Word(i))
    {
      var crc := Word(byte);
      assert crc == Steps(0, Word(byte)) by { NoSteps(Word(byte)); }
      for bit := 0 to 8
        invariant crc == Steps(bit, Word(byte))
        modifies {}
      {
        OneMore(bit, Word(byte));
        if Odd(crc) {
          crc := Xor(Half(crc), POLYNOMIAL);
        } else {
          crc := Half(crc);
        }
      }
      tables[0, byte] := crc;
    }
    for byte := 0 to 256
      invariant forall i :: 0 <= i < 256 ==> tables[0, i] == Steps(8, Word(i))
      invariant forall k, i :: 0 <= k < 8 && 0 <= i < byte ==> tables[k, i] == Steps(8 * k + 8, Word(i))
    {
      for k := 1 to 8
        invariant forall i :: 0 <= i < 256 ==> tables[0, i] == Steps(8, Word(i))
        invariant forall j, i :: 0 <= j < 8 && 0 <= i < byte ==> tables[j, i] == Steps(8 * j + 8, Word(i))
        invariant forall j :: 0 <= j < k ==> tables[j, byte] == Steps(8 * j + 8, Word(byte))
      {
        var prev := tables[k - 1, byte];
        LowByteIsSmall(prev);
        WordOfValue(LowByte(prev));
        Advance(prev);
        StepsAdd(8 * k, 8, Word(byte));
        tables[k, byte] := Xor(ShiftByte(prev), tables[0, Value(LowByte(prev))]);
      }
    }
  }

  lemma NoSteps(c: bv32)
    ensures Steps(0, c) == c
  {
  }

  lemma ShiftIgnoresLowByte(c: bv32, b: bv8)
    ensures ShiftByte(Xor(c, Wide(b))) == ShiftByte(c)
  {
  }

  /** Reading the tables at the eight bytes of a chunk advances the register over the chunk. */
  method OneChunk(tables: array2<bv32>, crc: bv32, chunk: seq<bv8>) returns (r: bv32)
    requires Built(tables) && |chunk| == 8
    ensures r == Register(crc, Bits(chunk))
  {
    hide Xor, ShiftByte, LowByte, Word, Value, Steps, LittleEndian, ByteOf, Register, Bits;
    var low := Xor(LittleEndian(chunk[0], chunk[1], chunk[2], chunk[3]), crc);
    var high := LittleEndian(chunk[4], chunk[5], chunk[6], chunk[7]);
    TableBytes(low);
    TableBytes(high);
    var t7 := tables[7, ByteOf(low, 0)];
    var t6 := tables[6, ByteOf(low, 1)];
    var t5 := tables[5, ByteOf(low, 2)];
    var t4 := tables[4, ByteOf(low, 3)];
    var t3 := tables[3, ByteOf(high, 0)];
    var t2 := tables[2, ByteOf(high, 1)];
    var t1 := tables[1, ByteOf(high, 2)];
    var t0 := tables[0, ByteOf(high, 3)];
    r := Xor(Xor(Xor(Xor(Xor(Xor(Xor(t7, t6), t5), t4), t3), t2), t1), t0);
    FoldWord(0, 32, low);
    XorLaws(t7, 0);
    XorLaws(0, t7);
    XorLaws(Steps(64, low), 0);
    XorLaws(0, Steps(64, low));
    FoldWord(Steps(64, low), 0, high);
    RegisterOfEight(crc, chunk);
  }

  lemma TableBytes(w: bv32)
    ensures ByteOf(w, 0) < 256 && Word(ByteOf(w, 0)) == LowByte(w)
    ensures ByteOf(w, 1) < 256 && Word(ByteOf(w, 1)) == LowByte(ShiftByte(w))
    ensures ByteOf(w, 2) < 256 && Word(ByteOf(w, 2)) == LowByte(ShiftByte(ShiftByte(w)))
    ensures ByteOf(w, 3) < 256 && Word(ByteOf(w, 3)) == LowByte(ShiftByte(ShiftByte(ShiftByte(w))))
  {
    hide ShiftByte, LowByte, Word, Value, ByteOf;
    BytesOf(w);
    TableByte(w);
    TableByte(ShiftByte(w));
    TableByte(ShiftByte(ShiftByte(w)));
    TableByte(ShiftByte(ShiftByte(ShiftByte(w))));
  }

  lemma TableByte(w: bv32)
    ensures Value(LowByte(w)) < 256 && Word(Value(LowByte(w))) == LowByte(w)
  {
    hide LowByte, Word, Value;
    LowByteIsSmall(w);
    WordOfValue(LowByte(w));
  }

  method OneByte(tables: array2<bv32>, crc: bv32, byte: bv8) returns (r: bv32)
    requires Built(tables)
    ensures r == Register(crc, Bits([byte]))
  {
    hide Xor, ShiftByte, LowByte, Word, Value, Steps, LittleEndian, ByteOf, Register, Bits, Wide, LowBits;
    var w := Xor(crc, Wide(byte));
    TableBytes(w);
    r := Xor(ShiftByte(crc), tables[0, ByteOf(w, 0)]);
    ShiftIgnoresLowByte(crc, byte);
    Advance(w);
    RegisterOfByte(crc, byte);
    BitsOfOne(byte);
  }

  lemma BitsOfOne(byte: bv8)
    ensures Bits([byte]) == LowBits(8, Wide(byte))
  {
    hide LowBits, Wide;
    assert Bits([byte][1..]) == [];
  }

  /** The table-driven checksum is the shift-register one, for every start and every length. */
  method UpdateSoftware(tables: array2<bv32>, prev: bv32, data: seq<bv8>) returns (r: bv32)
    requires Built(tables)
    ensures r == Crc(prev, data)
  {
    hide Register, Bits, Not, Steps;
    var crc := Not(prev);
    var at := 0;
    Nothing(crc);
    assert data[..0] == [];
    while at + 8 <= |data|
      invariant 0 <= at <= |data|
      invariant crc == Register(Not(prev), Bits(data[..at]))
    {
      var chunk := data[at..at + 8];
      crc := OneChunk(tables, crc, chunk);
      Onward(Not(prev), data, at, at + 8);
      at := at + 8;
    }
    while at < |data|
      invariant 0 <= at <= |data|
      invariant crc == Register(Not(prev), Bits(data[..at]))
    {
      crc := OneByte(tables, crc, data[at]);
      assert data[at..at + 1] == [data[at]];
      Onward(Not(prev), data, at, at + 1);
      at := at + 1;
    }
    assert data[..at] == data;
    r := Not(crc);
  }

  lemma Nothing(c: bv32)
    ensures Register(c, Bits([])) == c
  {
  }

  lemma Onward(c: bv32, data: seq<bv8>, i: nat, j: nat)
    requires i <= j <= |data|
    ensures Register(c, Bits(data[..j])) == Register(Register(c, Bits(data[..i])), Bits(data[i..j]))
  {
    hide Register, Bits;
    assert data[..j] == data[..i] + data[i..j];
    BitsConcat(data[..i], data[i..j]);
    RegisterConcat(c, Bits(data[..i]), Bits(data[i..j]));
  }

  lemma EightSteps(c: bv32)
    ensures Steps(8, c) == Step(Step(Step(Step(Step(Step(Step(Step(c))))))))
  {
    hide Step;
    var d := Step(Step(Step(Step(c))));
    assert Steps(8, c) == Steps(6, Step(Step(c))) == Steps(4, d);
    var e := Step(Step(d));
    assert Steps(4, d) == Steps(2, e);
    assert Steps(2, e) == Steps(0, Step(Step(e)));
  }

  lemma StepsOfLetter()
    ensures Step(0xFFFF_FF9E) == 0x7FFF_FFCF && Step(0x7FFF_FFCF) == 0xBD09_C49F
    ensures Step(0xBD09_C49F) == 0xDC72_D937 && Step(0xDC72_D937) == 0xECCF_57E3
    ensures Step(0xECCF_57E3) == 0xF491_9089 && Step(0xF491_9089) == 0xF8BE_F33C
    ensures Step(0xF8BE_F33C) == 0x7C5F_799E && Step(0x7C5F_799E) == 0x3E2F_BCCF
  {
  }

  /** The published checksums of nothing and of one letter. */
  lemma KnownChecksums()
    ensures Crc(0, []) == 0
    ensures Crc(0, [0x61]) == 0xC1D0_4330
  {
    assert Not(0) == 0xFFFF_FFFF && Not(0xFFFF_FFFF) == 0 && Not(0x3E2F_BCCF) == 0xC1D0_4330;
    assert Xor(0xFFFF_FFFF, Wide(0x61)) == 0xFFFF_FF9E;
    hide Not, Xor, Wide, Step, Steps, Register, Bits, LowBits;
    Nothing(0xFFFF_FFFF);
    BitsOfOne(0x61);
    RegisterOfByte(0xFFFF_FFFF, 0x61);
    EightSteps(0xFFFF_FF9E);
    StepsOfLetter();
  }
}
