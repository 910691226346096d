/** Strict LEB128: seven payload bits a byte, low ones first, the high bit set on all but the last.

The decoder accepts exactly what the encoder writes. A value is read back from its own encoding
whatever follows it, and an input no encoder produces is refused, with the reason.

The loops of the program shift and mask; the model divides and takes remainders. Wherever the
program joins two bit patterns with an or, their bits do not overlap and the model adds.
*/
module Varint {
  import opened Arithmetic
  import opened Proto

  type Octet = n: nat | n < 256
  type u64 = n: nat | n < 0x1_0000_0000_0000_0000
  type i64 = n: int | -0x8000_0000_0000_0000 <= n < 0x8000_0000_0000_0000

  const MAX_LEN_U64: nat := 10

  datatype VarintError =
    | Truncated(read: nat)
    | Overflow(bits: nat)
    | NotCanonical(len: nat, want: nat)

  // -- encoding ------------------------------------------------------------------------

  function Encode(value: nat): (bytes: seq<Octet>)
    ensures |bytes| >= 1
  {
    if value < 128 then [value] else [value % 128 + 128] + Encode(value / 128)
  }

  method PutU64(value: u64, out: seq<Octet>) returns (r: seq<Octet>)
    ensures r == out + Encode(value)
  {
    var rest := value;
    r := out;
    while rest >= 0x80
      invariant r + Encode(rest) == out + Encode(value)
    {
      r := r + [rest % 0x80 + 0x80];
      rest := rest / 0x80;
    }
    r := r + [rest];
  }

  /** The low seven bits come first. */
  lemma KnownEncoding()
    ensures Encode(300) == [0xAC, 0x02]
  {
    assert Encode(300 / 128) == [2];
  }

  /** Bits up to and including the highest one set. */
  function Significant(value: nat): nat {
    if value == 0 then 0 else 1 + Significant(value / 2)
  }

  function EncodedLen(value: u64): nat {
    var significant := Significant(value);
    ((if significant < 1 then 1 else significant) + 6) / 7
  }

  lemma SignificantByBytes(value: nat)
    ensures value >= 128 ==> Significant(value) == 7 + Significant(value / 128)
    ensures value < 128 ==> Significant(value) <= 7
    ensures value > 0 ==> Significant(value) >= 1
  {
    var v1 := value / 2;
    var v2 := v1 / 2;
    var v3 := v2 / 2;
    var v4 := v3 / 2;
    var v5 := v4 / 2;
    var v6 := v5 / 2;
    assert value >= 128 ==> v6 >= 2;
    assert value < 128 ==> v6 <= 1;
    assert v6 / 2 == value / 128;
  }

  lemma {:induction false} LengthBySignificant(value: nat)
    ensures |Encode(value)| == ((if value == 0 then 1 else Significant(value)) + 6) / 7
  {
    SignificantByBytes(value);
    if value >= 128 {
      LengthBySignificant(value / 128);
    }
  }

  /** The length computed from the leading zeros is the length written. */
  lemma EncodedLenIsLength(value: u64)
    ensures EncodedLen(value) == |Encode(value)|
  {
    SignificantByBytes(value);
    LengthBySignificant(value);
  }

  lemma {:induction false} LengthBound(value: nat, n: nat)
    requires value < Pow2(7 * n) && n >= 1
    ensures |Encode(value)| <= n
  {
    if value >= 128 {
      Pow2OfEight();
      if n == 1 {
        assert false;
      }
      Pow2Add(7, 7 * (n - 1));
      LengthBound(value / 128, n - 1);
    }
  }

  lemma EncodingIsShort(value: u64)
    ensures |Encode(value)| <= MAX_LEN_U64
  {
    Pow2Values();
    Pow2Monotone(64, 70);
    LengthBound(value, 10);
  }

  // -- what bytes stand for ------------------------------------------------------------

  ghost function Value(bytes: seq<Octet>): nat {
    if bytes == [] then 0 else bytes[0] % 128 + 128 * Value(bytes[1..])
  }

  ghost predicate Unfinished(bytes: seq<Octet>) {
    forall i :: 0 <= i < |bytes| ==> bytes[i] >= 128
  }

  ghost predicate Terminated(bytes: seq<Octet>) {
    |bytes| >= 1 && Unfinished(bytes[..|bytes| - 1]) && bytes[|bytes| - 1] < 128
  }

  lemma {:induction false} ValueOfMore(bytes: seq<Octet>, b: Octet)
    ensures Value(bytes + [b]) == Value(bytes) + (b % 128) * Pow2(7 * |bytes|)
  {
    if bytes == [] {
      assert Value([b]) == b % 128 + 128 * Value([]);
    } else {
      var rest := bytes[1..];
      assert (bytes + [b])[1..] == rest + [b];
      ValueOfMore(rest, b);
      Pow2OfEight();
      Pow2Add(7, 7 * |rest|);
      var t := b % 128;
      assert t * (128 * Pow2(7 * |rest|)) == 128 * (t * Pow2(7 * |rest|));
    }
  }

  lemma {:induction false} ValueFits(bytes: seq<Octet>)
    ensures Value(bytes) < Pow2(7 * |bytes|)
  {
    if bytes != [] {
      ValueFits(bytes[1..]);
      Pow2OfEight();
      Pow2Add(7, 7 * (|bytes| - 1));
    }
  }

  lemma ByIndex(buf: seq<Octet>, n: nat)
    requires n <= |buf|
    ensures Unfinished(buf[..n]) <==> forall i :: 0 <= i < n ==> buf[i] >= 128
    ensures Terminated(buf[..n]) <==> n >= 1 && Unfinished(buf[..n - 1]) && buf[n - 1] < 128
  {
    assert forall i :: 0 <= i < n ==> buf[..n][i] == buf[i];
    if n >= 1 {
      assert buf[..n][..n - 1] == buf[..n - 1];
    }
  }

  lemma TerminatedCons(b: Octet, rest: seq<Octet>)
    requires |rest| >= 1
    ensures Terminated([b] + rest) <==> b >= 128 && Terminated(rest)
  {
    assert ([b] + rest)[..|rest|] == [b] + rest[..|rest| - 1];
    UnfinishedCons(b, rest[..|rest| - 1]);
  }

  lemma UnfinishedCons(b: Octet, rest: seq<Octet>)
    ensures Unfinished([b] + rest) <==> b >= 128 && Unfinished(rest)
  {
    var bytes := [b] + rest;
    assert bytes[0] == b;
    if Unfinished(bytes) {
      forall i | 0 <= i < |rest|
        ensures rest[i] >= 128
      {
        assert bytes[i + 1] == rest[i];
      }
    }
  }

  lemma ValueCons(b: Octet, rest: seq<Octet>)
    ensures Value([b] + rest) == b % 128 + 128 * Value(rest)
  {
    assert ([b] + rest)[1..] == rest;
  }

  lemma ValueOfOne(b: Octet)
    ensures Value([b]) == b % 128
    ensures Terminated([b]) <==> b < 128
  {
    assert Value([b][1..]) == 0;
  }

  /** What is written is finished and is worth the value. */
  lemma {:induction false} EncodeIsRead(value: nat)
    ensures Terminated(Encode(value)) && Value(Encode(value)) == value
  {
    hide Value, Terminated;
    if value < 128 {
      ValueOfOne(value);
    } else {
      var rest := Encode(value / 128);
      EncodeIsRead(value / 128);
      TerminatedCons(value % 128 + 128, rest);
      ValueCons(value % 128 + 128, rest);
    }
  }

  /** A finished run of bytes is at least as long as it need be, and if no longer, it is the encoding. */
  lemma {:induction false} Overlong(bytes: seq<Octet>)
    requires Terminated(bytes)
    ensures |Encode(Value(bytes))| <= |bytes|
    ensures |Encode(Value(bytes))| == |bytes| ==> Encode(Value(bytes)) == bytes
  {
    hide Value;
    var b, rest := bytes[0], bytes[1..];
    assert bytes == [b] + rest;
    if |bytes| == 1 {
      assert bytes == [b];
      ValueOfOne(b);
    } else {
      hide Terminated;
      TerminatedCons(b, rest);
      Overlong(rest);
      ValueCons(b, rest);
      LongerByOne(b, Value(rest));
    }
  }

  lemma LongerByOne(b: Octet, value: nat)
    requires b >= 128
    ensures value > 0 ==> Encode(b % 128 + 128 * value) == [b] + Encode(value)
    ensures value == 0 ==> |Encode(b % 128 + 128 * value)| == 1
  {
  }

  // -- decoding ------------------------------------------------------------------------

  /** The value found, and the bytes it took. */
  datatype Decoded = Decoded(value: u64, len: nat)

  /** The input starts with the encoding of `value`. */
  ghost predicate Starts(buf: seq<Octet>, value: nat) {
    Encode(value) <= buf
  }

  /** More than sixty-four bits were started. */
  ghost predicate TooWide(buf: seq<Octet>) {
    && |buf| >= 10 && Unfinished(buf[..9])
    && (buf[9] % 128 > 1 || (buf[9] >= 128 && |buf| > 10))
  }

  ghost predicate Refuses(buf: seq<Octet>, error: VarintError) {
    match error
    case Truncated(read) => read == |buf| <= 10 && Unfinished(buf) && !TooWide(buf)
    case Overflow(bits) => bits == 64 && TooWide(buf)
    case NotCanonical(len, want) =>
      && want < len <= |buf| && len <= 10 && Terminated(buf[..len])
      && Value(buf[..len]) < 0x1_0000_0000_0000_0000
      && want == EncodedLen(Value(buf[..len]))
  }

  ghost predicate Decodes(buf: seq<Octet>, r: Result<Decoded, VarintError>) {
    match r
    case Ok(d) => d.len <= |buf| && buf[..d.len] == Encode(d.value)
    case Err(error) => Refuses(buf, error)
  }

  /** Ten bytes of which the last carries at most one bit are a 64-bit value. */
  lemma WithinWord(bytes: seq<Octet>)
    requires 1 <= |bytes| <= 10 && (|bytes| == 10 ==> bytes[9] % 128 <= 1)
    ensures Value(bytes) < 0x1_0000_0000_0000_0000
  {
    hide Pow2;
    Pow2Values();
    if |bytes| <= 9 {
      ValueFits(bytes);
      Pow2Monotone(7 * |bytes|, 64);
    } else {
      TopBit(bytes);
      ValueFits(bytes[..9]);
    }
  }

  lemma TopBit(bytes: seq<Octet>)
    requires |bytes| == 10
    ensures Value(bytes) == Value(bytes[..9]) + (bytes[9] % 128) * Pow2(63)
    ensures Pow2(63) == 0x8000_0000_0000_0000
  {
    hide Value;
    assert bytes == bytes[..9] + [bytes[9]];
    ValueOfMore(bytes[..9], bytes[9]);
    Pow2Values();
    assert Pow2(64) == 2 * Pow2(63);
  }

  lemma Finished(bytes: seq<Octet>)
    requires Terminated(bytes) && |bytes| <= 10 && (|bytes| == 10 ==> bytes[9] % 128 <= 1)
    ensures Value(bytes) < 0x1_0000_0000_0000_0000
    ensures EncodedLen(Value(bytes)) <= |bytes|
    ensures EncodedLen(Value(bytes)) == |bytes| ==> Encode(Value(bytes)) == bytes
  {
    hide Value, Encode, EncodedLen;
    WithinWord(bytes);
    Overlong(bytes);
    EncodedLenIsLength(Value(bytes));
  }

  lemma OneTerminator(buf: seq<Octet>, m: nat, n: nat)
    requires m <= |buf| && n <= |buf| && Terminated(buf[..m])
    ensures Terminated(buf[..n]) ==> m == n
    ensures Unfinished(buf[..n]) ==> n < m
  {
    ByIndex(buf, m);
    ByIndex(buf, m - 1);
    ByIndex(buf, n);
    if n >= 1 {
      ByIndex(buf, n - 1);
    }
  }

  lemma NotTooWide(buf: seq<Octet>, n: nat)
    requires n <= |buf| && n <= 10 && Terminated(buf[..n]) && Value(buf[..n]) < 0x1_0000_0000_0000_0000
    ensures !TooWide(buf)
  {
    hide Value, Pow2;
    ByIndex(buf, n);
    if |buf| >= 10 {
      OneTerminator(buf, n, 9);
      TopBit(buf[..10]);
    }
  }

  /** Where a finished prefix ends, what it is worth, and whether it is the shortest. */
  ghost predicate Ends(buf: seq<Octet>, n: nat, value: nat) {
    && n <= |buf| && n <= 10 && Terminated(buf[..n])
    && value == Value(buf[..n]) < 0x1_0000_0000_0000_0000
  }

  lemma OkEnds(buf: seq<Octet>, d: Decoded)
    requires d.len <= |buf| && buf[..d.len] == Encode(d.value)
    ensures Ends(buf, d.len, d.value) && EncodedLen(d.value) == d.len
  {
    hide Value, Encode, EncodedLen;
    EncodeIsRead(d.value);
    EncodingIsShort(d.value);
    EncodedLenIsLength(d.value);
  }

  lemma EndsOnce(buf: seq<Octet>, m: nat, v: nat, n: nat, w: nat)
    requires Ends(buf, m, v) && Ends(buf, n, w)
    ensures m == n && v == w
  {
    hide Value;
    OneTerminator(buf, m, n);
  }

  lemma EndsIsNeither(buf: seq<Octet>, n: nat, value: nat)
    requires Ends(buf, n, value)
    ensures !TooWide(buf) && !Unfinished(buf)
  {
    hide Value;
    NotTooWide(buf, n);
    OneTerminator(buf, n, |buf|);
    assert buf[..|buf|] == buf;
  }

  /** Whatever the input, one answer is right and no other. */
  lemma OneAnswer(buf: seq<Octet>, r: Result<Decoded, VarintError>, s: Result<Decoded, VarintError>)
    requires Decodes(buf, r) && Decodes(buf, s)
    ensures r == s
  {
    hide Value, Encode, EncodedLen, TooWide, Unfinished, Ends, Terminated;
    var e := EndOf(buf, r);
    var f := EndOf(buf, s);
    if e.Some? && f.Some? {
      EndsOnce(buf, e.value.len, e.value.value, f.value.len, f.value.value);
    }
    if e.Some? {
      EndsIsNeither(buf, e.value.len, e.value.value);
    }
    if f.Some? {
      EndsIsNeither(buf, f.value.len, f.value.value);
    }
  }

  /** Both a decoded value and a refused overlong one say where the first finished prefix ends. */
  lemma EndOf(buf: seq<Octet>, r: Result<Decoded, VarintError>) returns (e: Option<Decoded>)
    requires Decodes(buf, r)
    ensures match e
      case Some(d) => (
        && Ends(buf, d.len, d.value)
        && r == (if EncodedLen(d.value) == d.len then Ok(d)
                 else Err(NotCanonical(d.len, EncodedLen(d.value)))))
      case None => (
        && (TooWide(buf) || Unfinished(buf))
        && r == Err(if TooWide(buf) then Overflow(64) else Truncated(|buf|)))
  {
    hide Value, Encode, EncodedLen, TooWide, Unfinished, Terminated;
    match r
    case Ok(d) =>
      OkEnds(buf, d);
      e := Some(d);
    case Err(NotCanonical(len, want)) =>
      e := Some(Decoded(Value(buf[..len]), len));
    case Err(_) =>
      e := None;
  }

  /** A value is decoded exactly when the input starts with its encoding. */
  lemma DecodesExactly(buf: seq<Octet>, r: Result<Decoded, VarintError>, value: u64)
    requires Decodes(buf, r)
    ensures Starts(buf, value) <==> r == Ok(Decoded(value, |Encode(value)|))
  {
    hide Encode;
    var d := Decoded(value, |Encode(value)|);
    if Starts(buf, value) {
      OneAnswer(buf, r, Ok(d));
    }
  }

  lemma Nothing(buf: seq<Octet>)
    ensures Unfinished(buf[..0]) && Value(buf[..0]) == 0
  {
  }

  lemma Another(buf: seq<Octet>, i: nat)
    requires i < |buf| && Unfinished(buf[..i])
    ensures Value(buf[..i + 1]) == Value(buf[..i]) + (buf[i] % 128) * Pow2(7 * i)
    ensures if buf[i] < 128 then Terminated(buf[..i + 1]) else Unfinished(buf[..i + 1])
  {
    hide Value;
    assert buf[..i + 1] == buf[..i] + [buf[i]];
    ValueOfMore(buf[..i], buf[i]);
    ByIndex(buf, i);
    ByIndex(buf, i + 1);
  }

  method GetU64(buf: seq<Octet>) returns (r: Result<Decoded, VarintError>)
    ensures Decodes(buf, r)
  {
    hide Value, EncodedLen, Terminated, Unfinished, Encode;
    var value: nat := 0;
    var shift := 0;
    var index := 0;
    Nothing(buf);
    while index < |buf|
      invariant 0 <= index <= |buf| && index <= 10 && shift == 7 * index
      invariant Unfinished(buf[..index])
      invariant value == Value(buf[..index])
      invariant index == 10 ==> buf[9] % 128 <= 1
    {
      if index == MAX_LEN_U64 {
        ByIndex(buf, 10);
        ByIndex(buf, 9);
        return Err(Overflow(64));
      }
      var byte := buf[index];
      var payload := byte % 0x80;
      if shift == 63 && payload > 1 {
        return Err(Overflow(64));
      }
      ghost var read := buf[..index + 1];
      Another(buf, index);
      value := value + payload * Pow2(shift);
      if byte < 0x80 {
        Finished(read);
        var len := index + 1;
        var want := EncodedLen(value);
        if len != want {
          return Err(NotCanonical(len, want));
        }
        return Ok(Decoded(value, len));
      }
      shift := shift + 7;
      index := index + 1;
    }
    assert buf[..index] == buf;
    return Err(Truncated(|buf|));
  }

  // -- the other widths ----------------------------------------------------------------

  method GetU32(buf: seq<Octet>) returns (r: Result<Decoded, VarintError>)
    ensures r.Ok? ==> Decodes(buf, r) && r.value.value < 0x1_0000_0000
    ensures r.Err? && r.error != Overflow(32) ==> Refuses(buf, r.error)
    ensures r == Err(Overflow(32)) <==> exists v: u64 :: v >= 0x1_0000_0000 && Starts(buf, v)
  {
    r := GetU64(buf);
    if r.Ok? {
      var d := r.value;
      assert Starts(buf, d.value);
      if d.value >= 0x1_0000_0000 {
        return Err(Overflow(32));
      }
    }
    forall v: u64 | Starts(buf, v)
      ensures v < 0x1_0000_0000
    {
      DecodesExactly(buf, r, v);
    }
  }

  /** Twice the value, complemented when it is negative; all in sixty-four bits. */
  function ZigzagEncode(value: i64): u64 {
    var doubled := (2 * value) % 0x1_0000_0000_0000_0000;
    if value < 0 then 0xFFFF_FFFF_FFFF_FFFF - doubled else doubled
  }

  function ZigzagDecode(value: u64): i64 {
    var half := value / 2;
    if value % 2 == 1 then -half - 1 else half
  }

  lemma ZigzagMeaning(value: i64)
    ensures ZigzagEncode(value) == if value >= 0 then 2 * value else -2 * value - 1
  {
    var u: nat := 0x1_0000_0000_0000_0000;
    if value >= 0 {
      ModIs(2 * value, 0, 2 * value, u);
    } else {
      ModIs(2 * value, -1, 2 * value + u, u);
    }
  }

  /** Zigzag is a bijection between signed and unsigned words. */
  lemma ZigzagRoundTrip(signed: i64, unsigned: u64)
    ensures ZigzagDecode(ZigzagEncode(signed)) == signed
    ensures ZigzagEncode(ZigzagDecode(unsigned)) == unsigned
  {
    hide ZigzagEncode;
    ZigzagMeaning(signed);
    ZigzagMeaning(ZigzagDecode(unsigned));
  }

  method PutI64(value: i64, out: seq<Octet>) returns (r: seq<Octet>)
    ensures r == out + Encode(ZigzagEncode(value))
  {
    r := PutU64(ZigzagEncode(value), out);
  }

  datatype DecodedSigned = DecodedSigned(value: i64, len: nat)

  method GetI64(buf: seq<Octet>) returns (r: Result<DecodedSigned, VarintError>)
    ensures r.Err? ==> Refuses(buf, r.error)
    ensures forall v: i64 ::
              Starts(buf, ZigzagEncode(v)) <==> r == Ok(DecodedSigned(v, |Encode(ZigzagEncode(v))|))
  {
    hide ZigzagEncode, ZigzagDecode, Encode, Refuses;
    var raw := GetU64(buf);
    match raw
    case Ok(d) =>
      r := Ok(DecodedSigned(ZigzagDecode(d.value), d.len));
      forall v: i64
        ensures Starts(buf, ZigzagEncode(v)) <==> r == Ok(DecodedSigned(v, |Encode(ZigzagEncode(v))|))
      {
        DecodesExactly(buf, raw, ZigzagEncode(v));
        ZigzagRoundTrip(v, d.value);
      }
    case Err(error) =>
      r := Err(error);
      forall v: i64
        ensures !Starts(buf, ZigzagEncode(v))
      {
        DecodesExactly(buf, raw, ZigzagEncode(v));
      }
  }
}
