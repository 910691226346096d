/** SHA-256 as a stream: what has been fed in, however it was cut, decides the digest.

The compression of one block is a parameter. Everything around it is here: the buffer of an unfinished
block, the total length, the padding of section 5.1.1 of FIPS 180-4 and the order in which blocks
are folded.
*/
module Sha256 {
  import opened Arithmetic

  type Octet = n: nat | n < 256
  type Octets = seq<Octet>
  type Word = n: nat | n < 0x1_0000_0000
  type State = s: seq<Word> | |s| == 8 witness [0, 0, 0, 0, 0, 0, 0, 0]
  type Compress = (State, Octets) -> State

  const INITIAL: State := [
    0x6a09_e667, 0xbb67_ae85, 0x3c6e_f372, 0xa54f_f53a,
    0x510e_527f, 0x9b05_688c, 0x1f83_d9ab, 0x5be0_cd19
  ]

  // -- the definition ------------------------------------------------------------------

  /** The blocks of a message compressed one after another. */
  function Folded(compress: Compress, state: State, bytes: Octets): State
    requires |bytes| % 64 == 0
    decreases |bytes|
  {
    if bytes == [] then state else Folded(compress, compress(state, bytes[..64]), bytes[64..])
  }

  lemma {:induction false} FoldedConcat(compress: Compress, state: State, a: Octets, b: Octets)
    requires |a| % 64 == 0 && |b| % 64 == 0
    ensures Folded(compress, state, a + b) == Folded(compress, Folded(compress, state, a), b)
    decreases |a|
  {
    if a == [] {
      assert a + b == b;
    } else {
      assert (a + b)[..64] == a[..64] && (a + b)[64..] == a[64..] + b;
      FoldedConcat(compress, compress(state, a[..64]), a[64..], b);
    }
  }

  lemma FoldedOne(compress: Compress, state: State, block: Octets)
    requires |block| == 64
    ensures Folded(compress, state, block) == compress(state, block)
  {
    assert block[..64] == block && block[64..] == [];
  }

  /** The `k` low bytes of a number, highest first. */
  function BigEndian(k: nat, n: nat): (bytes: Octets)
    ensures |bytes| == k
  {
    if k == 0 then [] else BigEndian(k - 1, n / 256) + [n % 256]
  }

  function Zeros(k: nat): (bytes: Octets)
    ensures |bytes| == k
  {
    seq(k, i => 0)
  }

  function ZeroCount(length: nat): nat {
    if length % 64 <= 55 then 55 - length % 64 else 119 - length % 64
  }

  /** A one bit, as many zeros as it takes, and the length in bits. */
  function Padding(length: nat): (bytes: Octets)
    ensures |bytes| == 9 + ZeroCount(length)
  {
    [0x80] + Zeros(ZeroCount(length)) + BigEndian(8, (8 * length) % 0x1_0000_0000_0000_0000)
  }

  /** With so many zeros the length ends a block; with fewer it would not. */
  lemma PaddingIsLeast(length: nat, zeros: nat)
    requires zeros <= ZeroCount(length)
    ensures (length + 1 + zeros + 8) % 64 == 0 <==> zeros == ZeroCount(length)
  {
    var q, r := length / 64, length % 64;
    var n := r + 9 + zeros;
    if n < 64 {
      ModIs(length + 1 + zeros + 8, q, n, 64);
    } else if n < 128 {
      ModIs(length + 1 + zeros + 8, q + 1, n - 64, 64);
    } else {
      ModIs(length + 1 + zeros + 8, q + 2, n - 128, 64);
    }
  }

  function Padded(message: Octets): (bytes: Octets)
    ensures |bytes| % 64 == 0
  {
    PaddingIsLeast(|message|, ZeroCount(|message|));
    message + Padding(|message|)
  }

  function Output(state: seq<Word>): (bytes: Octets)
    ensures |bytes| == 4 * |state|
  {
    if state == [] then [] else BigEndian(4, state[0]) + Output(state[1..])
  }

  /** The digest, by definition. */
  function Hash(compress: Compress, message: Octets): (digest: Octets)
    ensures |digest| == 32
  {
    Output(Folded(compress, INITIAL, Padded(message)))
  }

  // -- where each byte goes ------------------------------------------------------------

  lemma DivByBytes(n: nat, p: nat)
    requires p > 0
    ensures n / 256 / p == n / (256 * p)
  {
    var q, r := n / 256, n % 256;
    var high, low := q / p, q % p;
    assert q == high * p + low;
    Reordered(high, p);
    ModIs(n, high, 256 * low + r, 256 * p);
  }

  lemma Reordered(n: nat, p: nat)
    ensures n * (256 * p) == 256 * (n * p)
  {
  }

  lemma ByteUp(n: nat, i: nat)
    ensures n / 256 / Pow2(8 * i) == n / Pow2(8 * (i + 1))
  {
    Pow2OfEight();
    Pow2Add(8, 8 * i);
    hide Pow2;
    DivByBytes(n, Pow2(8 * i));
  }

  /** Byte `j` of a number written highest first. */
  lemma {:induction false} BigEndianAt(k: nat, n: nat, j: nat)
    requires j < k
    ensures BigEndian(k, n)[j] == n / Pow2(8 * (k - 1 - j)) % 256
  {
    BigEndianEnds(k, n);
    if j == k - 1 {
      NoBits();
    } else {
      hide BigEndian, Pow2;
      BigEndianAt(k - 1, n / 256, j);
      ByteUp(n, k - 2 - j);
      assert BigEndian(k, n)[j] == BigEndian(k, n)[..k - 1][j];
    }
  }

  /** The words of the state come out in their order, the highest byte of each first. */
  lemma {:induction false} OutputAt(state: seq<Word>, i: nat, j: nat)
    requires i < |state| && j < 4
    ensures Output(state)[4 * i + j] == state[i] / Pow2(8 * (3 - j)) % 256
  {
    hide BigEndian, Pow2;
    if i == 0 {
      BigEndianAt(4, state[0], j);
    } else {
      OutputAt(state[1..], i - 1, j);
      assert Output(state)[4 * i + j] == Output(state[1..])[4 * (i - 1) + j];
    }
  }

  /** The message, one bit, zeros, and last the number of bits, highest byte first. */
  lemma PaddedAt(message: Octets, i: nat)
    requires i < |Padded(message)|
    ensures var n, end := |message|, |Padded(message)| - 8;
      Padded(message)[i] ==
        if i < n then message[i]
        else if i == n then 0x80
        else if i < end then 0
        else (8 * n) % 0x1_0000_0000_0000_0000 / Pow2(8 * (7 - (i - end))) % 256
  {
    hide BigEndian, Pow2;
    var n, end := |message|, |Padded(message)| - 8;
    if i >= end {
      BigEndianAt(8, (8 * n) % 0x1_0000_0000_0000_0000, i - end);
    }
  }

  // -- no two messages are padded alike ------------------------------------------------

  lemma {:induction false} BigEndianInjective(k: nat, m: nat, n: nat)
    requires m < Pow2(8 * k) && n < Pow2(8 * k) && BigEndian(k, m) == BigEndian(k, n)
    ensures m == n
  {
    hide Pow2;
    if k == 0 {
      NoBits();
    } else {
      BigEndianEnds(k, m);
      BigEndianEnds(k, n);
      hide BigEndian;
      ByteSmaller(k, m);
      ByteSmaller(k, n);
      BigEndianInjective(k - 1, m / 256, n / 256);
    }
  }

  lemma NoBits()
    ensures Pow2(0) == 1
  {
  }

  lemma BigEndianEnds(k: nat, n: nat)
    requires k > 0
    ensures BigEndian(k, n)[..k - 1] == BigEndian(k - 1, n / 256) && BigEndian(k, n)[k - 1] == n % 256
  {
  }

  lemma ByteSmaller(k: nat, n: nat)
    requires k > 0 && n < Pow2(8 * k)
    ensures n / 256 < Pow2(8 * (k - 1))
  {
    Pow2OfEight();
    Pow2Add(8, 8 * (k - 1));
    hide Pow2;
  }

  /** The padded form gives the message back, even where the bit count has wrapped. */
  lemma PaddedInjective(a: Octets, b: Octets)
    requires Padded(a) == Padded(b)
    ensures a == b
  {
    hide BigEndian, Zeros;
    var p, n := Padded(a), |Padded(a)|;
    Ending(a);
    Ending(b);
    Pow2Values();
    BigEndianInjective(8, (8 * |a|) % 0x1_0000_0000_0000_0000, (8 * |b|) % 0x1_0000_0000_0000_0000);
    SameLength(|a|, |b|);
    assert a == p[..|a|] && b == p[..|b|];
  }

  lemma Ending(message: Octets)
    ensures Padded(message)[|Padded(message)| - 8..]
            == BigEndian(8, (8 * |message|) % 0x1_0000_0000_0000_0000)
  {
    hide BigEndian, Zeros;
  }

  lemma SameLength(m: nat, n: nat)
    requires m - 64 < n < m + 64
    requires (8 * m) % 0x1_0000_0000_0000_0000 == (8 * n) % 0x1_0000_0000_0000_0000
    ensures m == n
  {
    var u: nat := 0x1_0000_0000_0000_0000;
    assert 8 * m == (8 * m / u) * u + 8 * m % u && 8 * n == (8 * n / u) * u + 8 * n % u;
  }

  // -- the stream ----------------------------------------------------------------------

  class Hasher {
    const compress: Compress
    var state: State
    var buffered: nat
    const block: array<Octet>
    var len: nat

    /** The whole blocks of a message are folded and the rest of it is buffered. */
    ghost predicate Keeps(message: Octets)
      reads `state, `buffered, block
    {
      && block.Length == 64 && buffered == |message| % 64
      && state == Folded(compress, INITIAL, Whole(message))
      && block[..buffered] == Rest(message)
    }

    /** What a hasher that has taken in a message looks like. */
    ghost predicate Holds(message: Octets)
      reads this, block
    {
      Keeps(message) && len == |message| % 0x1_0000_0000_0000_0000
    }

    constructor (compress: Compress)
      ensures this.compress == compress && fresh(block)
      ensures Holds([])
    {
      this.compress := compress;
      state := INITIAL;
      buffered := 0;
      block := new Octet[64](_ => 0);
      len := 0;
    }

    method Copy(at: nat, bytes: Octets)
      requires at + |bytes| <= block.Length
      modifies block
      ensures block[..at + |bytes|] == old(block[..at]) + bytes
      ensures block[at + |bytes|..] == old(block[at + |bytes|..])
    {
      for i := 0 to |bytes|
        invariant block[..at + i] == old(block[..at]) + bytes[..i]
        invariant block[at + i..] == old(block[at + i..])
      {
        block[at + i] := bytes[i];
      }
    }

    /** Fills the block that was begun, as far as the data reaches. */
    method TopUp(data: Octets, ghost message: Octets) returns (rest: Octets, full: bool, ghost k: nat)
      requires Keeps(message) && buffered > 0
      modifies `state, `buffered, block
      ensures k <= |data| && rest == data[k..] && Keeps(message + data[..k])
      ensures if full then buffered == 0 else rest == []
    {
      hide Folded;
      var take := Min(64 - buffered, |data|);
      k := take;
      var some := data[..take];
      rest := data[take..];
      Copy(buffered, some);
      buffered := buffered + take;
      assert block[..buffered] == Rest(message) + some;
      full := buffered == 64;
      if full {
        Completed(compress, message, some);
        assert block[..] == block[..buffered];
        state := compress(state, block[..]);
        buffered := 0;
        Remainder(message + some, []);
        assert message + some + [] == message + some;
      } else {
        Buffered(message, some);
      }
    }

    /** Folds whole blocks straight from the data and keeps what is left. */
    method TakeBlocks(data: Octets, ghost message: Octets)
      requires Keeps(message) && buffered == 0
      modifies `state, `buffered, block
      ensures Keeps(message + data)
    {
      hide Folded, Whole, Rest;
      var at := 0;
      Begun(message);
      assert message + data[..0] == message;
      while at + 64 <= |data|
        invariant 0 <= at <= |data| && (|message| + at) % 64 == 0
        invariant state == Folded(compress, INITIAL, message + data[..at])
        invariant buffered == 0
      {
        NextBlock(compress, message, data, at);
        state := compress(state, data[at..at + 64]);
        at := at + 64;
      }
      var tail := data[at..];
      Copy(0, tail);
      buffered := |tail|;
      assert block[..buffered] == tail;
      assert message + data == (message + data[..at]) + tail;
      Remainder(message + data[..at], tail);
    }

    method Update(data: Octets, ghost message: Octets)
      requires Holds(message)
      modifies this, block
      ensures Holds(message + data)
    {
      hide Folded, Keeps;
      len := (len + |data|) % 0x1_0000_0000_0000_0000;
      LengthAdds(|message|, |data|);
      var rest := data;
      ghost var done := message;
      if buffered > 0 {
        var full;
        ghost var k;
        rest, full, k := TopUp(data, message);
        done := message + data[..k];
        Continues(message, data, k);
        if !full {
          return;
        }
      }
      TakeBlocks(rest, done);
    }

    method Finish(ghost message: Octets) returns (out: Octets)
      requires Holds(message)
      modifies this, block
      ensures out == Hash(compress, message)
    {
      hide Folded, BigEndian, Output, Padding;
      var bitLen := (len * 8) % 0x1_0000_0000_0000_0000;
      BitLength(|message|);
      ghost var rest, n := Rest(message), |message|;
      Copy(buffered, [0x80]);
      buffered := buffered + 1;
      assert block[..buffered] == rest + [0x80];
      ghost var begun := state;
      ghost var first: Octets := [];
      if buffered > 56 {
        Copy(buffered, Zeros(64 - buffered));
        assert block[..] == block[..64];
        first := block[..];
        state := compress(state, block[..]);
        buffered := 0;
      }
      ghost var kept := block[..buffered];
      Copy(buffered, Zeros(56 - buffered));
      Copy(56, BigEndian(8, bitLen));
      assert block[..] == block[..64] == kept + Zeros(56 - buffered) + BigEndian(8, bitLen);
      LastBlocks(compress, message, begun, first, block[..]);
      state := compress(state, block[..]);
      out := Output(state);
    }
  }

  lemma Continues(message: Octets, data: Octets, k: nat)
    requires k <= |data|
    ensures (message + data[..k]) + data[k..] == message + data
    ensures data[k..] == [] ==> message + data[..k] == message + data
  {
    assert data == data[..k] + data[k..];
  }

  function Whole(message: Octets): (bytes: Octets)
    ensures |bytes| % 64 == 0
  {
    message[..|message| - |message| % 64]
  }

  function Rest(message: Octets): Octets {
    message[|message| - |message| % 64..]
  }

  lemma Remainder(whole: Octets, rest: Octets)
    requires |whole| % 64 == 0 && |rest| < 64
    ensures Whole(whole + rest) == whole && Rest(whole + rest) == rest
    ensures |whole + rest| % 64 == |rest|
  {
    ModIs(|whole| + |rest|, |whole| / 64, |rest|, 64);
  }

  lemma LengthAdds(m: nat, n: nat)
    ensures (m % 0x1_0000_0000_0000_0000 + n) % 0x1_0000_0000_0000_0000 == (m + n) % 0x1_0000_0000_0000_0000
  {
    SameRemainder(m % 0x1_0000_0000_0000_0000 + n, m / 0x1_0000_0000_0000_0000, 0x1_0000_0000_0000_0000);
  }

  /** Whole multiples do not change a remainder. */
  lemma SameRemainder(x: nat, q: nat, n: nat)
    requires n > 0
    ensures (q * n + x) % n == x % n
  {
    assert q * n + x == (q + x / n) * n + x % n by {
      assert (q + x / n) * n == q * n + (x / n) * n;
    }
    ModIs(q * n + x, q + x / n, x % n, n);
  }

  lemma Buffered(message: Octets, data: Octets)
    requires |message| % 64 + |data| < 64
    ensures Whole(message + data) == Whole(message) && Rest(message + data) == Rest(message) + data
    ensures |message + data| % 64 == |message| % 64 + |data|
  {
    assert message == Whole(message) + Rest(message);
    assert message + data == Whole(message) + (Rest(message) + data);
    Remainder(Whole(message), Rest(message) + data);
  }

  lemma Parts(message: Octets)
    ensures message == Whole(message) + Rest(message)
    ensures |Rest(message)| == |message| % 64
  {
  }

  lemma OneMoreBlock(whole: Octets, block: Octets)
    requires |whole| % 64 == 0 && |block| == 64
    ensures |whole + block| % 64 == 0
  {
  }

  /** Filling the buffer to a block folds exactly that block in. */
  lemma Completed(compress: Compress, message: Octets, data: Octets)
    requires |message| % 64 + |data| == 64
    ensures |message + data| % 64 == 0
    ensures Folded(compress, INITIAL, message + data)
            == compress(Folded(compress, INITIAL, Whole(message)), Rest(message) + data)
  {
    hide Folded, Whole, Rest;
    Parts(message);
    var whole, block := Whole(message), Rest(message) + data;
    assert message + data == whole + block;
    OneMoreBlock(whole, block);
    FoldedConcat(compress, INITIAL, whole, block);
    FoldedOne(compress, Folded(compress, INITIAL, whole), block);
  }

  lemma Begun(message: Octets)
    requires |message| % 64 == 0
    ensures Whole(message) == message && Rest(message) == []
  {
  }

  lemma NextBlock(compress: Compress, message: Octets, data: Octets, at: nat)
    requires (|message| + at) % 64 == 0 && at + 64 <= |data|
    ensures (|message| + at + 64) % 64 == 0
    ensures Folded(compress, INITIAL, message + data[..at + 64])
            == compress(Folded(compress, INITIAL, message + data[..at]), data[at..at + 64])
  {
    hide Folded;
    var done, next := message + data[..at], data[at..at + 64];
    assert message + data[..at + 64] == done + next;
    FoldedConcat(compress, INITIAL, done, next);
    FoldedOne(compress, Folded(compress, INITIAL, done), next);
  }

  lemma BitLength(n: nat)
    ensures ((n % 0x1_0000_0000_0000_0000) * 8) % 0x1_0000_0000_0000_0000 == (8 * n) % 0x1_0000_0000_0000_0000
  {
    var q, r := n / 0x1_0000_0000_0000_0000, n % 0x1_0000_0000_0000_0000;
    SameRemainder(r * 8, 8 * q, 0x1_0000_0000_0000_0000);
    assert 8 * n == (8 * q) * 0x1_0000_0000_0000_0000 + r * 8;
  }

  /** The one or two blocks a hasher ends with are the rest of the message and its padding. */
  lemma LastBlocks(compress: Compress, message: Octets, begun: State, first: Octets, last: Octets)
    requires begun == Folded(compress, INITIAL, Whole(message))
    requires |last| == 64 && (first == [] || |first| == 64)
    requires var tail := BigEndian(8, (8 * |message|) % 0x1_0000_0000_0000_0000);
             var begin := Rest(message) + [0x80];
             if |begin| > 56 then
               first == begin + Zeros(64 - |begin|) && last == Zeros(56) + tail
             else
               first == [] && last == begin + Zeros(56 - |begin|) + tail
    ensures Folded(compress, INITIAL, Padded(message))
            == compress(if first == [] then begun else compress(begun, first), last)
  {
    hide Folded, BigEndian, Whole, Rest;
    Parts(message);
    if first == [] {
      assert Padded(message) == Whole(message) + last;
      FoldedOne(compress, begun, last);
      FoldedConcat(compress, INITIAL, Whole(message), last);
    } else {
      assert Padded(message) == Whole(message) + (first + last) by {
        ZerosAdd(64 - |Rest(message)| - 1, 56);
      }
      FoldedConcat(compress, INITIAL, Whole(message), first + last);
      FoldedConcat(compress, begun, first, last);
      FoldedOne(compress, begun, first);
      FoldedOne(compress, compress(begun, first), last);
    }
  }

  lemma ZerosAdd(m: nat, n: nat)
    ensures Zeros(m) + Zeros(n) == Zeros(m + n)
  {
  }

  // -- one message, in one piece or many -----------------------------------------------

  method Digest(compress: Compress, data: Octets) returns (out: Octets)
    ensures out == Hash(compress, data)
  {
    var hasher := new Hasher(compress);
    hasher.Update(data, []);
    assert [] + data == data;
    out := hasher.Finish(data);
  }

  function Joined(pieces: seq<Octets>): Octets {
    if pieces == [] then [] else Joined(pieces[..|pieces| - 1]) + pieces[|pieces| - 1]
  }

  /** Wherever the calls fall, the digest is that of the concatenation. */
  method DigestOfPieces(compress: Compress, pieces: seq<Octets>) returns (out: Octets)
    ensures out == Hash(compress, Joined(pieces))
  {
    var hasher := new Hasher(compress);
    for i := 0 to |pieces|
      invariant hasher.Holds(Joined(pieces[..i])) && hasher.compress == compress
      invariant fresh(hasher) && fresh(hasher.block)
    {
      hasher.Update(pieces[i], Joined(pieces[..i]));
      assert pieces[..i + 1][..i] == pieces[..i];
    }
    assert pieces[..|pieces|] == pieces;
    out := hasher.Finish(Joined(pieces));
  }
}
