/** HMAC over the streaming hash, as section 2 of RFC 2104 defines it. */
module Hmac {
  import opened Arithmetic
  import opened Sha256
  import Words

  function Xor(a: Octet, b: Octet): Octet {
    Pow2OfEight();
    Words.XorFits(a, b, 8);
    Words.Xor(a, b)
  }

  /** A key made one block wide: its digest if it is longer, and zeros to fill. */
  function BlockKey(compress: Compress, key: Octets): (r: Octets)
    ensures |r| == 64
  {
    var short := if |key| > 64 then Hash(compress, key) else key;
    short + Zeros(64 - |short|)
  }

  function Masked(key: Octets, pad: Octet): (r: Octets)
    ensures |r| == |key|
  {
    seq(|key|, i requires 0 <= i < |key| => Xor(key[i], pad))
  }

  /** The definition: two hashes, nested, under the two masked keys. */
  function Definition(compress: Compress, key: Octets, message: Octets): Octets {
    var k := BlockKey(compress, key);
    Hash(compress, Masked(k, 0x5C) + Hash(compress, Masked(k, 0x36) + message))
  }

  /** A block of keys and pads, combined byte by byte in place. */
  method Mask(padded: array<Octet>, pad: array<Octet>, byte: Octet)
    requires padded != pad && padded.Length == pad.Length
    requires forall i :: 0 <= i < pad.Length ==> pad[i] == byte
    modifies pad
    ensures pad[..] == Masked(padded[..], byte)
  {
    hide Xor;
    for i := 0 to padded.Length
      invariant forall j :: 0 <= j < i ==> pad[j] == Xor(padded[j], byte)
      invariant forall j :: i <= j < pad.Length ==> pad[j] == byte
    {
      pad[i] := Xor(padded[i], pad[i]);
    }
  }

  method HmacSha256(compress: Compress, key: Octets, message: Octets) returns (out: Octets)
    ensures out == Definition(compress, key, message)
  {
    hide Hash, Xor;
    var short := key;
    if |key| > 64 {
      short := Digest(compress, key);
    }
    var padded := new Octet[64](_ => 0);
    for i := 0 to |short|
      invariant padded[..i] == short[..i]
      invariant forall j :: i <= j < 64 ==> padded[j] == 0
    {
      padded[i] := short[i];
    }
    assert padded[..] == BlockKey(compress, key);
    var innerPad := new Octet[64](_ => 0x36);
    var outerPad := new Octet[64](_ => 0x5C);
    Mask(padded, innerPad, 0x36);
    Mask(padded, outerPad, 0x5C);
    var inner := TwoUpdates(compress, innerPad[..], message);
    out := TwoUpdates(compress, outerPad[..], inner);
  }

  method TwoUpdates(compress: Compress, first: Octets, second: Octets) returns (out: Octets)
    ensures out == Hash(compress, first + second)
  {
    hide Hash;
    var hasher := new Hasher(compress);
    hasher.Update(first, []);
    assert [] + first == first;
    hasher.Update(second, first);
    out := hasher.Finish(first + second);
  }
}
